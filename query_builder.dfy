/** The table resource's query side: the N1QL text retrieveRecordsByFilter
    assembles, and the filter compiler with its per-instance counter $i. */
module QueryBuilder {
  import opened PhpStrings
  import opened Values
  import opened FilterValues
  import opened FilterParser
  import opened RecordShaping

  // ---------------------------------------------------------------------------
  // SQL assembly

  /** The column the document key is selected as. */
  const IdColumn: string := "meta().id as _id"

  /** The request options retrieveRecordsByFilter reads; an absent option is
      the empty string, which is what PHP interpolates for null. The limit
      is already defaulted by the caller. */
  datatype QueryOptions = QueryOptions(
    fields: Option<string>,
    limit: string,
    offset: string,
    orderBy: string,
    groupBy: string)

  /** The select list: the cleaned fields, followed by the key column unless
      the query groups; the key column alone when no field is left. */
  function SelectList(cleaned: string, groupBy: string): (s: string)
    ensures !IsEmptyText(groupBy) ==> s == cleaned
    ensures IsEmptyText(groupBy) && IsEmptyText(cleaned) ==> s == IdColumn
    ensures IsEmptyText(groupBy) && !IsEmptyText(cleaned) ==> s == cleaned + "," + IdColumn
  {
    if IsEmptyText(groupBy) then
      if IsEmptyText(cleaned) then IdColumn else cleaned + "," + IdColumn
    else cleaned
  }

  /** The keyword each clause starts with, in the order they are joined. */
  const Keywords: seq<string> := ["SELECT ", "WHERE ", "GROUP BY ", "ORDER BY ", "LIMIT ", "OFFSET "]

  /** A clause that is present only when its text is not empty(). */
  function Optional(keyword: string, text: string): string {
    if IsEmptyText(text) then "" else keyword + text + " "
  }

  /** The six clauses of the statement in order; where is the compiled
      filter, when there is one. */
  function Clauses(table: string, select: string, where: Option<string>, opts: QueryOptions): (cs: seq<string>)
    ensures |cs| == |Keywords|
    ensures forall j :: 0 <= j < |cs| ==> cs[j] == "" || Keywords[j] <= cs[j]
    ensures cs[0] == "SELECT " + select + " FROM `" + table + "` "
    ensures cs[1] != "" <==> where.Some?
    ensures cs[2] != "" <==> !IsEmptyText(opts.groupBy)
    ensures cs[3] != "" <==> !IsEmptyText(opts.orderBy)
    ensures cs[4] == "LIMIT " + opts.limit + " "
    ensures cs[5] != "" <==> !IsEmptyText(opts.offset)
  {
    ["SELECT " + select + " FROM `" + table + "` ",
     if where.Some? then "WHERE " + where.value + " " else "",
     Optional("GROUP BY ", opts.groupBy),
     Optional("ORDER BY ", opts.orderBy),
     "LIMIT " + opts.limit + " ",
     Optional("OFFSET ", opts.offset)]
  }

  /** The clauses joined without separators. */
  function Concat(parts: seq<string>): string {
    if parts == [] then "" else parts[0] + Concat(parts[1..])
  }

  lemma ConcatSix(a: string, b: string, c: string, d: string, e: string, f: string)
    ensures Concat([a, b, c, d, e, f]) == a + b + c + d + e + f
  {
    assert Concat([f]) == f by { assert [f][1..] == []; }
    assert Concat([e, f]) == e + f by { assert [e, f][1..] == [f]; }
    assert Concat([d, e, f]) == d + (e + f) by { assert [d, e, f][1..] == [e, f]; }
    assert Concat([c, d, e, f]) == c + (d + (e + f)) by { assert [c, d, e, f][1..] == [d, e, f]; }
    assert Concat([b, c, d, e, f]) == b + (c + (d + (e + f))) by { assert [b, c, d, e, f][1..] == [c, d, e, f]; }
    assert [a, b, c, d, e, f][1..] == [b, c, d, e, f];
  }

  /** A statement and the parameters its placeholders are bound to. */
  datatype Query = Query(sql: string, params: map<string, Value>)

  /** What retrieveRecordsByFilter sends to the bucket, and the counter after it. */
  datatype Retrieved = Retrieved(out: Result<Query>, next: nat)

  /** The statement for a table, filter and options, compiled with the
      counter at next: the parameters start out empty; an empty() filter has
      no WHERE clause and binds nothing; a filter that does not compile
      fails the request. */
  function Retrieval(ops: Operators, table: string, filter: string, opts: QueryOptions, next: nat): (q: Retrieved)
    ensures next <= q.next
    ensures IsEmptyText(filter) ==>
              q == Retrieved(Ok(Query(Concat(Clauses(table, SelectList(CleanedFields(opts.fields), opts.groupBy), None, opts)), map[])), next)
    ensures !IsEmptyText(filter) ==>
              var c := CompileFilter(ops, filter, Registry(next, map[]));
              && q.next == c.reg.next
              && (q.out.Ok? <==> c.out.Ok?)
              && (c.out.Err? ==> q.out.error == c.out.error)
              && (c.out.Ok? ==> q.out.value == Query(Concat(Clauses(table, SelectList(CleanedFields(opts.fields), opts.groupBy),
                                                                    Some(Text(c.out.value)), opts)),
                                                     c.reg.params))
    ensures q.out.Ok? ==> forall key :: key in q.out.value.params ==> Numbered(key, next, q.next)
  {
    var select := SelectList(CleanedFields(opts.fields), opts.groupBy);
    if IsEmptyText(filter) then
      Retrieved(Ok(Query(Concat(Clauses(table, select, None, opts)), map[])), next)
    else
      var c := CompileFilter(ops, filter, Registry(next, map[]));
      if c.out.Err? then Retrieved(Err(c.out.error), c.reg.next)
      else
        var w := Text(c.out.value);
        Retrieved(Ok(Query(Concat(Clauses(table, select, Some(w), opts)), c.reg.params)), c.reg.next)
  }

  // ---------------------------------------------------------------------------
  // The compiler object

  /** The part of the table resource that compiles filters: the operator
      tables it inherits and the counter $i that numbers parameters, which
      starts at 1 and is never reset. */
  class TableQuery {
    const ops: Operators
    var i: nat

    constructor (ops: Operators)
      ensures this.ops == ops && i == 1
    {
      this.ops := ops;
      i := 1;
    }

    /** parseFilterValue: pass a wrapped value through, otherwise bind its
        literal under name . $i, advance $i and return the placeholder. */
    method ParseFilterValue(value: string, name: string, params: map<string, Value>)
      returns (text: string, outParams: map<string, Value>)
      modifies this
      ensures Emitted(text, Registry(i, outParams)) == ParseValue(value, name, Registry(old(i), params))
    {
      if Wrapped(value) {
        return value, params;
      }
      var key := name + NatToString(i);
      i := i + 1;
      outParams := params[key := Coerce(value)];
      text := "$" + key;
    }

    /** The loop over a value list's elements, each trimmed and parameterised. */
    method ParseValueList(elems: seq<string>, name: string, params: map<string, Value>)
      returns (texts: seq<string>, outParams: map<string, Value>)
      modifies this
      ensures Listed(texts, Registry(i, outParams)) == ListValues(MapSeq(elems, Trim), name, Registry(old(i), params))
    {
      texts := [];
      outParams := params;
      var k := 0;
      while k < |elems|
        invariant 0 <= k <= |elems|
        invariant Listed(texts, Registry(i, outParams)) == ListValues(MapSeq(elems[..k], Trim), name, Registry(old(i), params))
      {
        var text;
        text, outParams := ParseFilterValue(Trim(elems[k]), name, outParams);
        texts := texts + [text];
        MapSeqSnoc(elems[..k + 1], Trim);
        assert elems[..k + 1][..k] == elems[..k];
        k := k + 1;
      }
      assert elems[..k] == elems;
    }

    /** The comparison found at pos: the field with any trailing NOT taken
        off and lower-cased, the value with its parentheses repaired and
        compiled as the operator requires, and the dangling parentheses put
        back. */
    method CompileComparison(op: string, pure: string, pos: nat, leftParen: string, rightParen: string,
                             params: map<string, Value>)
      returns (r: Result<Option<string>>, outParams: map<string, Value>)
      requires pos <= |pure|
      modifies this
      ensures Compiled(r, Registry(i, outParams)) ==
              Comparison(ops, op, pure, pos, leftParen, rightParen, Registry(old(i), params))
    {
      var p := Prepare(ops, op, pure, pos, leftParen, rightParen);
      r, outParams := CompileCondition(op, p.head, p.name, p.value, p.right, params);
    }

    /** The three ways a condition takes its value. */
    method CompileCondition(op: string, head: string, name: string, value: string, right: string,
                            params: map<string, Value>)
      returns (r: Result<Option<string>>, outParams: map<string, Value>)
      modifies this
      ensures Compiled(r, Registry(i, outParams)) == Condition(ops, op, head, name, value, right, Registry(old(i), params))
    {
      if ops.valueList(op) {
        if Wrapped(value) {
          var texts;
          texts, outParams := ParseValueList(Explode(",", value[1..|value| - 1]), name, params);
          r := Ok(Some(head + " [" + Implode(",", texts) + "]" + Truthy(right)));
        } else {
          r := Err(BadRequest(ListMessage));
          outParams := params;
        }
      } else if ops.noValue(op) {
        r := Ok(Some(head + Truthy(right)));
        outParams := params;
      } else {
        var text;
        text, outParams := ParseFilterValue(ops.modifyValue(op, value), name, params);
        r := Ok(Some(head + " " + text + Truthy(right)));
      }
    }

    /** The tail of parseFilterString: unwrap, strip dangling parentheses and
        compile the first comparison operator, in parsing order, that occurs. */
    method ParseComparison(f: string, params: map<string, Value>)
      returns (r: Result<Option<string>>, outParams: map<string, Value>)
      modifies this
      ensures Compiled(r, Registry(i, outParams)) == ComparisonPass(ops, f, Registry(old(i), params))
    {
      var wrap := false;
      var g := f;
      if Wrapped(f) {
        g := f[1..|f| - 1];
        wrap := true;
      }
      var pure := TrimChars(g, {'(', ')'});
      var parens := Parens(g, pure);
      var k := 0;
      while k < |ops.comparison|
        invariant 0 <= k <= |ops.comparison|
        invariant FirstOperator(ops, pure, k) == FirstOperator(ops, pure, 0)
        invariant i == old(i)
      {
        var op := ops.comparison[k];
        var pos := IndexOfI(pure, ops.pad(op));
        if pos.Some? {
          r, outParams := CompileComparison(op, pure, pos.value, parens.0, parens.1, params);
          if r.Ok? && wrap {
            r := Ok(Some("(" + r.value.value + ")"));
          }
          return;
        }
        k := k + 1;
      }
      r, outParams := Err(BadRequest(UnparsableMessage)), params;
    }

    /** parseFilterString: null for an empty() filter; otherwise the logical
        operators in order (a NOT prefix, or a split at the first `) op (`
        with both sides compiled recursively), then the comparison. */
    method ParseFilterString(filter: string, params: map<string, Value>)
      returns (r: Result<Option<string>>, outParams: map<string, Value>)
      modifies this
      decreases NonBlank(filter), 1
      ensures Compiled(r, Registry(i, outParams)) == CompileFilter(ops, filter, Registry(old(i), params))
    {
      if IsEmptyText(filter) {
        return Ok(None), params;
      }
      ghost var reg0 := Registry(i, params);
      var f := Trim(filter);
      NonBlankTrim(filter);
      ghost var goal := LogicalPass(ops, f, 0, reg0);
      assert goal == CompileFilter(ops, filter, reg0);
      var k := 0;
      while k < |ops.logical|
        invariant 0 <= k <= |ops.logical|
        invariant NonBlank(f) == NonBlank(filter)
        invariant i == reg0.next
        invariant LogicalPass(ops, f, k, reg0) == goal
      {
        var op := ops.logical[k];
        if op == NotWord {
          if StartsWithI(f, NotWord + " (") || StartsWithI(f, NotWord + "(") {
            r, outParams := ParseNegation(f, params);
            return;
          }
        } else {
          PaddingKeepsNonBlank(f, op);
          f := IReplace(f, ")" + op + "(", ") " + op + " (");
          var padded := ") " + op + " (";
          var pos := IndexOfI(f, padded);
          if pos.Some? {
            PaddedNonBlank(op);
            var sides := SplitSides(f, padded, pos.value);
            r, outParams := ParseSplit(op, sides.0, sides.1, NonBlank(f), params);
            return;
          }
        }
        k := k + 1;
      }
      r, outParams := ParseComparison(f, params);
    }

    /** The NOT branch of the logical loop. */
    method ParseNegation(f: string, params: map<string, Value>)
      returns (r: Result<Option<string>>, outParams: map<string, Value>)
      requires StartsWithI(f, NotWord + " (") || StartsWithI(f, NotWord + "(")
      modifies this
      decreases NonBlank(f), 0
      ensures Compiled(r, Registry(i, outParams)) == NegationStep(ops, f, Registry(old(i), params))
    {
      NotShrinks(f);
      var inner;
      inner, outParams := ParseFilterString(Trim(f[3..]), params);
      if inner.Err? {
        return inner, outParams;
      }
      r := Ok(Some(ops.localize(NotWord) + Text(inner.value)));
    }

    /** The branch of the logical loop that splits at an operator: both
        sides compiled in turn, the first error ending the parse. */
    method ParseSplit(op: string, left: string, right: string, ghost bound: nat, params: map<string, Value>)
      returns (r: Result<Option<string>>, outParams: map<string, Value>)
      requires NonBlank(left) < bound && NonBlank(right) < bound
      modifies this
      decreases bound, 0
      ensures Compiled(r, Registry(i, outParams)) == SplitStep(ops, op, left, right, bound, Registry(old(i), params))
    {
      var opText := ops.localize(op);
      var leftText, ps1 := ParseFilterString(left, params);
      if leftText.Err? {
        return leftText, ps1;
      }
      var rightText;
      rightText, outParams := ParseFilterString(right, ps1);
      if rightText.Err? {
        return rightText, outParams;
      }
      r := Ok(Some(Text(leftText.value) + " " + opText + " " + Text(rightText.value)));
    }

    /** retrieveRecordsByFilter up to the statement it sends: the select
        list from cleanFields, the clauses in order, and the filter compiled
        into fresh parameters. */
    method RetrieveQuery(table: string, filter: string, opts: QueryOptions) returns (r: Result<Query>)
      modifies this
      ensures Retrieved(r, i) == Retrieval(ops, table, filter, opts, old(i))
    {
      var cleaned := CleanFields(opts.fields);
      var select := cleaned;
      if IsEmptyText(opts.groupBy) {
        select := cleaned + "," + IdColumn;
        if IsEmptyText(cleaned) {
          select := IdColumn;
        }
      }
      assert select == SelectList(cleaned, opts.groupBy);
      var selectClause := "SELECT " + select + " FROM `" + table + "` ";
      var whereClause := "";
      var groupByClause := "";
      var orderByClause := "";
      var limitClause := "LIMIT " + opts.limit + " ";
      var offsetClause := "";
      var params: map<string, Value> := map[];
      if !IsEmptyText(opts.groupBy) {
        groupByClause := "GROUP BY " + opts.groupBy + " ";
      }
      assert groupByClause == Optional("GROUP BY ", opts.groupBy);
      if !IsEmptyText(opts.orderBy) {
        orderByClause := "ORDER BY " + opts.orderBy + " ";
      }
      assert orderByClause == Optional("ORDER BY ", opts.orderBy);
      if !IsEmptyText(opts.offset) {
        offsetClause := "OFFSET " + opts.offset + " ";
      }
      assert offsetClause == Optional("OFFSET ", opts.offset);
      var where: Option<string> := None;
      if !IsEmptyText(filter) {
        var compiled, ps := ParseFilterString(filter, params);
        if compiled.Err? {
          return Err(compiled.error);
        }
        where := Some(Text(compiled.value));
        whereClause := "WHERE " + Text(compiled.value) + " ";
        params := ps;
      }
      assert [selectClause, whereClause, groupByClause, orderByClause, limitClause, offsetClause]
             == Clauses(table, select, where, opts);
      var sql := selectClause + whereClause + groupByClause + orderByClause + limitClause + offsetClause;
      ConcatSix(selectClause, whereClause, groupByClause, orderByClause, limitClause, offsetClause);
      r := Ok(Query(sql, params));
    }
  }
}
