/** parseFilterString as a function of the filter text and the compiler's
    registry: logical splitting, unwrapping, the comparison operator search
    and the emitted N1QL condition. */
module FilterParser {
  import opened PhpStrings
  import opened Values
  import opened FilterValues

  /** DbLogicalOperators::NOT_STR; the prefix test strips exactly its three
      characters. */
  const NotWord: string := "NOT"

  /** The operator tables and helpers the table resource inherits.
      - logical: DbLogicalOperators::getDefinedConstants(), in order;
      - comparison: DbComparisonOperators::getParsingOrder(), in order;
      - pad: padOperator; localize: localizeOperator;
      - valueList / noValue: requiresValueList / requiresNoValue;
      - modifyValue(op, value): the value after modifyValueByOperator. */
  datatype Operators = Operators(
    logical: seq<string>,
    comparison: seq<string>,
    pad: string -> string,
    localize: string -> string,
    valueList: string -> bool,
    noValue: string -> bool,
    modifyValue: (string, string) -> string)

  /** The outcome of a parse and the registry after it; on an error the
      registry keeps whatever was registered before the exception. */
  datatype Compiled = Compiled(out: Result<Option<string>>, reg: Registry)

  const UnparsableMessage: string := "Invalid or unparsable filter request."
  const ListMessage: string := "Filter value lists must be wrapped in parentheses."

  /** A PHP string or null inside a concatenation. */
  function Text(o: Option<string>): string {
    if o.Some? then o.value else ""
  }

  /** A piece of text or null, kept only when it is truthy. */
  function Truthy(s: string): string {
    if IsEmptyText(s) then "" else s
  }

  // ---------------------------------------------------------------------------
  // The parse

  /** parseFilterString($filter): null for an empty() filter, otherwise the
      logical pass over the trimmed filter. */
  function CompileFilter(ops: Operators, filter: string, reg: Registry): (c: Compiled)
    decreases NonBlank(filter), 1, 0
    ensures Extends(reg, c.reg)
    ensures IsEmptyText(filter) ==> c == Compiled(Ok(None), reg)
    ensures !IsEmptyText(filter) && c.out.Ok? ==> c.out.value.Some?
  {
    if IsEmptyText(filter) then
      Compiled(Ok(None), reg)
    else
      NonBlankTrim(filter);
      LogicalPass(ops, Trim(filter), 0, reg)
  }

  /** The loop over the logical operators, from the k-th on, with the filter
      as the earlier iterations left it. */
  function LogicalPass(ops: Operators, f: string, k: nat, reg: Registry): (c: Compiled)
    requires k <= |ops.logical|
    decreases NonBlank(f), 0, |ops.logical| - k
    ensures Extends(reg, c.reg)
    ensures c.out.Ok? ==> c.out.value.Some?
  {
    if k == |ops.logical| then ComparisonPass(ops, f, reg)
    else
      var op := ops.logical[k];
      if op == NotWord then
        if StartsWithI(f, NotWord + " (") || StartsWithI(f, NotWord + "(") then NegationStep(ops, f, reg)
        else LogicalPass(ops, f, k + 1, reg)
      else
        var g := IReplace(f, ")" + op + "(", ") " + op + " (");
        var padded := ") " + op + " (";
        PaddingKeepsNonBlank(f, op);
        match IndexOfI(g, padded)
        case None => LogicalPass(ops, g, k + 1, reg)
        case Some(pos) =>
          PaddedNonBlank(op);
          var sides := SplitSides(g, padded, pos);
          SplitStep(ops, op, sides.0, sides.1, NonBlank(g), reg)
  }

  /** A filter that starts with NOT and a parenthesis: the localized NOT in
      front of the rest, compiled. */
  function NegationStep(ops: Operators, f: string, reg: Registry): (c: Compiled)
    requires StartsWithI(f, NotWord + " (") || StartsWithI(f, NotWord + "(")
    decreases NonBlank(f), 0, 0
    ensures Extends(reg, c.reg)
    ensures c.out.Ok? ==> c.out.value.Some?
  {
    NotShrinks(f);
    var inner := CompileFilter(ops, Trim(f[3..]), reg);
    if inner.out.Err? then inner
    else Compiled(Ok(Some(ops.localize(NotWord) + Text(inner.out.value))), inner.reg)
  }

  /** The two filters a split at the padded operator found at pos leaves:
      the trimmed text before it closed by ")", the trimmed text after it
      opened by "("; both have fewer non-blank characters. */
  function SplitSides(g: string, padded: string, pos: nat): (sides: (string, string))
    requires NonBlank(padded) >= 2
    requires IndexOfI(g, padded) == Some(pos)
    ensures NonBlank(sides.0) < NonBlank(g) && NonBlank(sides.1) < NonBlank(g)
  {
    FoundPiece(g, padded, pos);
    AroundShrinks(g, pos, |padded|);
    (Trim(g[..pos]) + ")", "(" + Trim(g[pos + |padded|..]))
  }

  /** A filter split at the first `) op (`: both sides compiled in turn, the
      first error ending the parse, joined by the localized operator. */
  function SplitStep(ops: Operators, op: string, left: string, right: string, bound: nat, reg: Registry): (c: Compiled)
    requires NonBlank(left) < bound && NonBlank(right) < bound
    decreases bound, 0, 0
    ensures Extends(reg, c.reg)
    ensures c.out.Ok? ==> c.out.value.Some?
  {
    var cl := CompileFilter(ops, left, reg);
    if cl.out.Err? then cl
    else
      var cr := CompileFilter(ops, right, cl.reg);
      ExtendsTrans(reg, cl.reg, cr.reg);
      if cr.out.Err? then Compiled(cr.out, cr.reg)
      else Compiled(Ok(Some(Text(cl.out.value) + " " + ops.localize(op) + " " + Text(cr.out.value))), cr.reg)
  }

  /** The dangling parentheses around the bare comparison: the pieces of
      explode($pure, $filter), each kept only when truthy (an empty $pure
      makes explode fail, and both are null). */
  function Parens(g: string, pure: string): (string, string) {
    if pure == "" then ("", "")
    else
      var pieces := Explode(pure, g);
      (Truthy(pieces[0]), if |pieces| > 1 then Truthy(pieces[1]) else "")
  }

  /** After the logical pass: unwrap one layer of parentheses, strip dangling
      ones, and compile the first comparison found. */
  function ComparisonPass(ops: Operators, f: string, reg: Registry): (c: Compiled)
    ensures Extends(reg, c.reg)
    ensures c.out.Ok? ==> c.out.value.Some?
    ensures c.out.Ok? && Wrapped(f) ==> Wrapped(c.out.value.value)
    ensures FirstOperator(ops, TrimChars(Unwrap(f), {'(', ')'}), 0).None? ==>
              c == Compiled(Err(BadRequest(UnparsableMessage)), reg)
  {
    var wrap := Wrapped(f);
    var g := Unwrap(f);
    var pure := TrimChars(g, {'(', ')'});
    var (leftParen, rightParen) := Parens(g, pure);
    match FirstOperator(ops, pure, 0)
    case None =>
      Compiled(Err(BadRequest(UnparsableMessage)), reg)
    case Some(found) =>
      var op := ops.comparison[found.index];
      var c := Comparison(ops, op, pure, found.pos, leftParen, rightParen, reg);
      if c.out.Ok? && wrap then Compiled(Ok(Some("(" + c.out.value.value + ")")), c.reg) else c
  }

  /** The filter without one wrapping pair of parentheses. */
  function Unwrap(f: string): (g: string)
    ensures Wrapped(f) ==> "(" + g + ")" == f
    ensures !Wrapped(f) ==> g == f
  {
    if Wrapped(f) then f[1..|f| - 1] else f
  }

  /** Where an operator was found: its place in the parsing order and the
      position of its padded form in the filter. */
  datatype Found = Found(index: nat, pos: nat)

  /** The first operator, from the k-th in parsing order on, whose padded
      form occurs in the filter (case-insensitively), and where. */
  function FirstOperator(ops: Operators, pure: string, k: nat): (r: Option<Found>)
    requires k <= |ops.comparison|
    decreases |ops.comparison| - k
    ensures r.Some? ==> k <= r.value.index < |ops.comparison| &&
                        IndexOfI(pure, ops.pad(ops.comparison[r.value.index])) == Some(r.value.pos)
    ensures r.Some? ==> forall j :: k <= j < r.value.index ==> IndexOfI(pure, ops.pad(ops.comparison[j])).None?
    ensures r.None? ==> forall j :: k <= j < |ops.comparison| ==> IndexOfI(pure, ops.pad(ops.comparison[j])).None?
  {
    if k == |ops.comparison| then None
    else match IndexOfI(pure, ops.pad(ops.comparison[k]))
      case Some(pos) => Some(Found(k, pos))
      case None => FirstOperator(ops, pure, k + 1)
  }

  /** The trailing NOT word of a field: the field without it, and whether
      it was there. */
  function SplitNegation(field: string): (r: (string, bool))
    ensures !r.1 ==> r.0 == field
    ensures r.1 <==> IndexOf(field, " ").Some? &&
                      var parts := Explode(" ", field);
                      |parts| > 1 && EqualsI(parts[|parts| - 1], NotWord)
    ensures r.1 ==> exists w :: EqualsI(w, NotWord) && field == r.0 + " " + w
  {
    if IndexOf(field, " ").Some? then
      var parts := Explode(" ", field);
      if |parts| > 1 && EqualsI(parts[|parts| - 1], NotWord) then
        var w := parts[|parts| - 1];
        ImplodeExplode(" ", field);
        ImplodeSnoc(" ", parts);
        (Implode(" ", parts[..|parts| - 1]), true)
      else (field, false)
    else (field, false)
  }

  /** Moving closing parentheses from the dangling right side back into the
      value when the value opens more than it closes; a value that starts
      with a quote, or opens none, or is balanced is left alone. With more
      closing than opening ones the value is unchanged (str_repeat fails)
      and every ')' is removed from the right side (a negative limit). */
  function RepairParens(value: string, rightParen: string): (r: (string, string))
    ensures (!(value != "" && value[0] == '\'') && CountChar(value, '(') != 0 &&
             CountChar(value, '(') < CountChar(value, ')')) ==> r.0 == value
    ensures (value != "" && value[0] == '\'') || CountChar(value, '(') == CountChar(value, ')') ==>
            r == (value, rightParen)
    ensures !(value != "" && value[0] == '\'') && CountChar(value, '(') > CountChar(value, ')') ==>
            r.0 == value + Repeat(')', CountChar(value, '(') - CountChar(value, ')')) &&
            CountChar(r.0, '(') == CountChar(r.0, ')')
    ensures !(value != "" && value[0] == '\'') && CountChar(value, '(') != 0 &&
            CountChar(value, '(') != CountChar(value, ')') ==>
            r.1 == RemoveChar(rightParen, ')', CountChar(value, '(') - CountChar(value, ')'))
  {
    var lpc := CountChar(value, '(');
    var rpc := CountChar(value, ')');
    if !(value != "" && value[0] == '\'') && lpc != 0 && lpc != rpc then
      if lpc > rpc then
        PadBalances(value);
        (value + Repeat(')', lpc - rpc), RemoveChar(rightParen, ')', lpc - rpc))
      else (value, RemoveChar(rightParen, ')', lpc - rpc))
    else (value, rightParen)
  }

  /** Adding the missing closing parentheses balances the value. */
  lemma PadBalances(value: string)
    requires CountChar(value, '(') > CountChar(value, ')')
    ensures var pad := Repeat(')', CountChar(value, '(') - CountChar(value, ')'));
            CountChar(value + pad, '(') == CountChar(value + pad, ')')
  {
    var pad := Repeat(')', CountChar(value, '(') - CountChar(value, ')'));
    CountCharConcat(value, pad, '(');
    CountCharConcat(value, pad, ')');
    CountCharRepeat(')', '(', |pad|);
    CountCharRepeat(')', ')', |pad|);
  }

  /** The pieces a comparison is built from: the head (dangling left
      parenthesis, lower-cased field, NOT and the localized operator), the
      field name the parameters are keyed by, the value and the right side. */
  datatype Prepared = Prepared(head: string, name: string, value: string, right: string)

  /** Splitting pure at the operator found at pos: the field with a trailing
      NOT taken off, the value after the padded operator with its
      parentheses repaired. */
  function Prepare(ops: Operators, op: string, pure: string, pos: nat,
                   leftParen: string, rightParen: string): (p: Prepared)
    requires pos <= |pure|
    ensures Lower(p.name) == p.name
    ensures p.name == Lower(SplitNegation(Trim(pure[..pos])).0)
    ensures SplitNegation(Trim(pure[..pos])).1 ==>
              p.head == Truthy(leftParen) + p.name + " " + NotWord + " " + ops.localize(op)
    ensures !SplitNegation(Trim(pure[..pos])).1 ==>
              p.head == Truthy(leftParen) + p.name + " " + ops.localize(op)
  {
    LowerIdempotent(SplitNegation(Trim(pure[..pos])).0);
    var padded := ops.pad(op);
    var (field, negate) := SplitNegation(Trim(pure[..pos]));
    var name := Lower(field);
    var start := if pos + |padded| <= |pure| then pos + |padded| else |pure|;
    var (value, right) := RepairParens(Trim(pure[start..]), rightParen);
    var opText := if negate then NotWord + " " + ops.localize(op) else ops.localize(op);
    Prepared(Truthy(leftParen) + name + " " + opText, name, value, right)
  }

  /** The condition for the operator op found at pos in pure. */
  function Comparison(ops: Operators, op: string, pure: string, pos: nat,
                      leftParen: string, rightParen: string, reg: Registry): (c: Compiled)
    requires pos <= |pure|
    ensures Extends(reg, c.reg)
    ensures c.out.Ok? ==> c.out.value.Some?
    ensures c.out.Err? ==> c.out.error == BadRequest(ListMessage) && c.reg == reg
  {
    var p := Prepare(ops, op, pure, pos, leftParen, rightParen);
    Condition(ops, op, p.head, p.name, p.value, p.right, reg)
  }

  /** The condition once its head (parenthesis, field and operator) is
      known: a list operator needs a wrapped list of values, a no-value
      operator takes none, any other binds its single (modified) value. */
  function Condition(ops: Operators, op: string, head: string, name: string, value: string, right: string,
                     reg: Registry): (c: Compiled)
    ensures Extends(reg, c.reg)
    ensures c.out.Ok? ==> c.out.value.Some?
    ensures c.out.Err? ==> c.out.error == BadRequest(ListMessage) && c.reg == reg
    ensures c.out.Err? <==> ops.valueList(op) && !Wrapped(value)
  {
    if ops.valueList(op) then
      if Wrapped(value) then
        var listed := ListValues(MapSeq(Explode(",", value[1..|value| - 1]), Trim), name, reg);
        Compiled(Ok(Some(head + " [" + Implode(",", listed.texts) + "]" + Truthy(right))), listed.reg)
      else
        Compiled(Err(BadRequest(ListMessage)), reg)
    else if ops.noValue(op) then
      Compiled(Ok(Some(head + Truthy(right))), reg)
    else
      var e := ParseValue(ops.modifyValue(op, value), name, reg);
      Compiled(Ok(Some(head + " " + e.text + Truthy(right))), e.reg)
  }

  /** The texts a value list became and the registry after it. */
  datatype Listed = Listed(texts: seq<string>, reg: Registry)

  /** The (already trimmed) elements of a value list, each passed through
      parseFilterValue in order. */
  function ListValues(values: seq<string>, name: string, reg: Registry): (l: Listed)
    ensures |l.texts| == |values|
    ensures Extends(reg, l.reg)
  {
    if values == [] then
      Listed([], reg)
    else
      var init := ListValues(values[..|values| - 1], name, reg);
      var e := ParseValue(values[|values| - 1], name, init.reg);
      ExtendsTrans(reg, init.reg, e.reg);
      Listed(init.texts + [e.text], e.reg)
  }

  // ---------------------------------------------------------------------------
  // Termination of the recursion: it strictly removes non-blank characters

  /** A text that starts, in any case, with a word whose first letter is N
      does not start with a blank. */
  lemma StartsWithLetter(f: string, p: string)
    requires |p| >= 1 && p[0] == 'N' && StartsWithI(f, p)
    ensures |f| >= |p| && f[0] !in Blanks
  {
    var a := f[..|p|];
    assert Lower(a)[0] == Lower(p)[0];
    assert LowerChar(f[0]) == LowerChar(p[0]) == 'n';
  }

  /** Dropping the NOT of a `NOT (` or `NOT(` prefix shrinks the filter. */
  lemma NotShrinks(f: string)
    requires StartsWithI(f, NotWord + " (") || StartsWithI(f, NotWord + "(")
    ensures |f| >= 4
    ensures NonBlank(Trim(f[3..])) < NonBlank(f)
  {
    if StartsWithI(f, NotWord + " (") {
      StartsWithLetter(f, NotWord + " (");
    } else {
      StartsWithLetter(f, NotWord + "(");
    }
    DropThreeShrinks(f);
  }

  /** Trimming what follows a non-blank first character leaves fewer
      non-blank characters. */
  lemma DropThreeShrinks(f: string)
    requires |f| >= 4 && f[0] !in Blanks
    ensures NonBlank(Trim(f[3..])) < NonBlank(f)
  {
    assert f[1..] == f[1..3] + f[3..];
    NonBlankConcat(f[1..3], f[3..]);
    NonBlankTrim(f[3..]);
  }

  /** Spreading `)op(` to `) op (` keeps the non-blank characters. */
  lemma PaddingKeepsNonBlank(f: string, op: string)
    ensures NonBlank(IReplace(f, ")" + op + "(", ") " + op + " (")) == NonBlank(f)
  {
    NonBlankConcat(")" + op, "(");
    NonBlankConcat(")", op);
    NonBlankConcat(") " + op, " (");
    NonBlankConcat(") ", op);
    NonBlankIReplace(f, ")" + op + "(", ") " + op + " (");
  }

  /** The padded form of an operator has at least its two parentheses. */
  lemma PaddedNonBlank(op: string)
    ensures NonBlank(") " + op + " (") >= 2
  {
    var tail := " " + op + " (";
    assert ") " + op + " (" == ")" + tail;
    NonBlankConcat(")", tail);
    assert tail == (" " + op + " ") + "(";
    NonBlankConcat(" " + op + " ", "(");
  }

  /** The occurrence found has as many non-blank characters as the pattern. */
  lemma FoundPiece(g: string, padded: string, pos: nat)
    requires IndexOfI(g, padded) == Some(pos)
    ensures pos + |padded| <= |g| && NonBlank(g[pos..pos + |padded|]) == NonBlank(padded)
  {
    FoundMatchI(g, padded, pos);
    NonBlankEqualsI(g[pos..pos + |padded|], padded);
  }

  /** Replacing a piece with at least two non-blank characters by one
      parenthesis, on either side, leaves fewer non-blank characters. */
  lemma AroundShrinks(g: string, pos: nat, n: nat)
    requires pos + n <= |g| && NonBlank(g[pos..pos + n]) >= 2
    ensures NonBlank(Trim(g[..pos]) + ")") < NonBlank(g)
    ensures NonBlank("(" + Trim(g[pos + n..])) < NonBlank(g)
  {
    NonBlankAround(g, pos, n);
    NonBlankTrim(g[..pos]);
    NonBlankConcat(Trim(g[..pos]), ")");
    NonBlankTrim(g[pos + n..]);
    NonBlankConcat("(", Trim(g[pos + n..]));
  }

  // ---------------------------------------------------------------------------
  // Properties

  /** The registry after one more unwrapped value: the earlier bindings of
      the field stay, and the new one is under the next key. */
  lemma ListValuesStep(values: seq<string>, name: string, reg: Registry)
    requires values != [] && !Wrapped(values[|values| - 1])
    ensures var n := |values| - 1;
            var l0 := ListValues(values[..n], name, reg);
            ListValues(values, name, reg) ==
            Listed(l0.texts + ["$" + ParamKey(name, l0.reg.next)],
                   Registry(l0.reg.next + 1, l0.reg.params[ParamKey(name, l0.reg.next) := Coerce(values[n])]))
  {
  }

  /** Binding the j-th key of a field leaves the binding of its i-th key. */
  lemma OtherKeyKept(params: map<string, Value>, name: string, i: nat, j: nat, v: Value)
    requires i != j && ParamKey(name, i) in params
    ensures ParamKey(name, i) in params[ParamKey(name, j) := v]
    ensures params[ParamKey(name, j) := v][ParamKey(name, i)] == params[ParamKey(name, i)]
  {
    if ParamKey(name, i) == ParamKey(name, j) {
      ParamKeyInjective(name, i, j);
    }
  }

  /** The k-th value is bound under the field's key numbered base + k. */
  predicate BoundInOrder(params: map<string, Value>, name: string, base: nat, vs: seq<Value>) {
    forall k :: 0 <= k < |vs| ==> BoundAs(params, ParamKey(name, base + k), vs[k])
  }

  /** key is bound to v. */
  predicate BoundAs(params: map<string, Value>, key: string, v: Value) {
    key in params && params[key] == v
  }

  /** Binding the next key keeps the earlier ones. */
  lemma BoundInOrderSnoc(params: map<string, Value>, name: string, base: nat, vs: seq<Value>, v: Value,
                         params': map<string, Value>, vs': seq<Value>)
    requires BoundInOrder(params, name, base, vs)
    requires params' == params[ParamKey(name, base + |vs|) := v] && vs' == vs + [v]
    ensures BoundInOrder(params', name, base, vs')
  {
    forall k | 0 <= k < |vs'|
      ensures BoundAs(params', ParamKey(name, base + k), vs'[k])
    {
      if k < |vs| {
        assert vs'[k] == vs[k];
        assert BoundAs(params, ParamKey(name, base + k), vs[k]);
        OtherKeyKept(params, name, base + k, base + |vs|, v);
      } else {
        assert k == |vs| && vs'[k] == v;
      }
    }
  }

  /** The k-th text is the reference to the field's key numbered base + k. */
  predicate ReferencedInOrder(texts: seq<string>, name: string, base: nat) {
    forall k :: 0 <= k < |texts| ==> texts[k] == "$" + ParamKey(name, base + k)
  }

  /** Appending the reference to the next key keeps the texts in order. */
  lemma ReferencedInOrderSnoc(texts: seq<string>, name: string, base: nat, texts': seq<string>)
    requires ReferencedInOrder(texts, name, base)
    requires texts' == texts + ["$" + ParamKey(name, base + |texts|)]
    ensures ReferencedInOrder(texts', name, base)
  {
    forall k | 0 <= k < |texts'| ensures texts'[k] == "$" + ParamKey(name, base + k) {
      if k < |texts| { assert texts'[k] == texts[k]; }
    }
  }

  /** One more value bound under the next key and referenced after the
      others keeps both orders. */
  lemma InOrderStep(l0: Listed, l: Listed, name: string, base: nat, n: nat, vs0: seq<Value>, v: Value, vs: seq<Value>)
    requires |l0.texts| == n && |vs0| == n && l0.reg.next == base + n
    requires ReferencedInOrder(l0.texts, name, base) && BoundInOrder(l0.reg.params, name, base, vs0)
    requires l == Listed(l0.texts + ["$" + ParamKey(name, l0.reg.next)],
                         Registry(l0.reg.next + 1, l0.reg.params[ParamKey(name, l0.reg.next) := v]))
    requires vs == vs0 + [v]
    ensures l.reg.next == base + (n + 1)
    ensures ReferencedInOrder(l.texts, name, base) && BoundInOrder(l.reg.params, name, base, vs)
  {
    ReferencedInOrderSnoc(l0.texts, name, base, l.texts);
    BoundInOrderSnoc(l0.reg.params, name, base, vs0, v, l.reg.params, vs);
  }

  /** Each value of a list that holds no parenthesised value is bound, in
      order, under consecutive keys for the field, and referenced in order. */
  lemma {:induction false} ListValuesInOrder(values: seq<string>, name: string, reg: Registry)
    requires forall k :: 0 <= k < |values| ==> !Wrapped(values[k])
    ensures var l := ListValues(values, name, reg);
            l.reg.next == reg.next + |values| &&
            ReferencedInOrder(l.texts, name, reg.next) &&
            BoundInOrder(l.reg.params, name, reg.next, MapSeq(values, Coerce))
  {
    if values != [] {
      var n := |values| - 1;
      var init := values[..n];
      assert forall k :: 0 <= k < |init| ==> init[k] == values[k];
      ListValuesInOrder(init, name, reg);
      ListValuesStep(values, name, reg);
      MapSeqSnoc(values, Coerce);
      InOrderStep(ListValues(init, name, reg), ListValues(values, name, reg), name, reg.next, n,
                  MapSeq(init, Coerce), Coerce(values[n]), MapSeq(values, Coerce));
    }
  }

  /** A list operator with a wrapped list whose elements hold no wrapped
      value: the elements are bound in order under consecutive keys for the
      field, and the condition lists their placeholders in brackets. */
  lemma ValueListCondition(ops: Operators, op: string, head: string, name: string, value: string, right: string,
                           reg: Registry, elems: seq<string>)
    requires ops.valueList(op) && Wrapped(value)
    requires elems == MapSeq(Explode(",", value[1..|value| - 1]), Trim)
    requires forall k :: 0 <= k < |elems| ==> !Wrapped(elems[k])
    ensures var l := ListValues(elems, name, reg);
            var c := Condition(ops, op, head, name, value, right, reg);
            c == Compiled(Ok(Some(head + " [" + Implode(",", l.texts) + "]" + Truthy(right))), l.reg) &&
            c.reg.next == reg.next + |elems| &&
            ReferencedInOrder(l.texts, name, reg.next) &&
            BoundInOrder(c.reg.params, name, reg.next, MapSeq(elems, Coerce))
  {
    ListValuesInOrder(elems, name, reg);
  }

  /** An operator that takes one value binds the value, as modified for the
      operator, under the field's next key and refers to it. */
  lemma SingleValueCondition(ops: Operators, op: string, head: string, name: string, value: string, right: string,
                             reg: Registry)
    requires !ops.valueList(op) && !ops.noValue(op) && !Wrapped(ops.modifyValue(op, value))
    ensures var key := ParamKey(name, reg.next);
            Condition(ops, op, head, name, value, right, reg) ==
            Compiled(Ok(Some(head + " $" + key + Truthy(right))),
                     Registry(reg.next + 1, reg.params[key := Coerce(ops.modifyValue(op, value))]))
  {
    var key := ParamKey(name, reg.next);
    assert head + " " + ("$" + key) == head + " $" + key;
  }

  /** A logical operator other than NOT that does not occur padded moves the
      pass on to the next operator, with `)op(` spread in the filter. */
  lemma LogicalPassSkips(ops: Operators, f: string, k: nat, reg: Registry)
    requires k < |ops.logical| && ops.logical[k] != NotWord
    requires var op := ops.logical[k];
             IndexOfI(IReplace(f, ")" + op + "(", ") " + op + " ("), ") " + op + " (") == None
    ensures var op := ops.logical[k];
            LogicalPass(ops, f, k, reg) == LogicalPass(ops, IReplace(f, ")" + op + "(", ") " + op + " ("), k + 1, reg)
  {
  }

  /** A logical operator other than NOT found padded, with no tight form to
      spread, splits the filter there. */
  lemma LogicalPassSplits(ops: Operators, f: string, k: nat, reg: Registry, pos: nat)
    requires k < |ops.logical| && ops.logical[k] != NotWord
    requires var op := ops.logical[k];
             IReplace(f, ")" + op + "(", ") " + op + " (") == f && IndexOfI(f, ") " + op + " (") == Some(pos)
    ensures var op := ops.logical[k];
            var padded := ") " + op + " (";
            NonBlank(padded) >= 2 &&
            var sides := SplitSides(f, padded, pos);
            LogicalPass(ops, f, k, reg) == SplitStep(ops, op, sides.0, sides.1, NonBlank(f), reg)
  {
    PaddedNonBlank(ops.logical[k]);
  }

  /** A filter without a `NOT (` or `NOT(` prefix passes the NOT operator by. */
  lemma LogicalPassNotSkips(ops: Operators, f: string, k: nat, reg: Registry)
    requires k < |ops.logical| && ops.logical[k] == NotWord
    requires !StartsWithI(f, NotWord + " (") && !StartsWithI(f, NotWord + "(")
    ensures LogicalPass(ops, f, k, reg) == LogicalPass(ops, f, k + 1, reg)
  {
  }

  /** A filter with a `NOT (` prefix is negated when the NOT operator's turn comes. */
  lemma LogicalPassNegates(ops: Operators, f: string, k: nat, reg: Registry)
    requires k < |ops.logical| && ops.logical[k] == NotWord
    requires StartsWithI(f, NotWord + " (")
    ensures LogicalPass(ops, f, k, reg) == NegationStep(ops, f, reg)
  {
  }

  /** Past the last logical operator the comparison pass takes over. */
  lemma LogicalPassEnd(ops: Operators, f: string, reg: Registry)
    ensures LogicalPass(ops, f, |ops.logical|, reg) == ComparisonPass(ops, f, reg)
  {
  }

  /** An operator that takes no value emits the head and the right side
      only, and binds nothing. */
  lemma NoValueCondition(ops: Operators, op: string, head: string, name: string, value: string, right: string,
                         reg: Registry)
    requires !ops.valueList(op) && ops.noValue(op)
    ensures Condition(ops, op, head, name, value, right, reg) == Compiled(Ok(Some(head + Truthy(right))), reg)
  {
  }

  /** A wrapped filter whose inside is not wrapped again compiles to its
      inside's condition, wrapped in parentheses. */
  lemma ComparisonPassUnwraps(ops: Operators, f: string, reg: Registry)
    requires Wrapped(f) && !Wrapped(Unwrap(f))
    ensures var c := ComparisonPass(ops, Unwrap(f), reg);
            ComparisonPass(ops, f, reg) ==
            if c.out.Ok? then Compiled(Ok(Some("(" + c.out.value.value + ")")), c.reg) else c
  {
  }

  /** A filter without parentheses has no dangling ones: the comparison is
      built from the first operator found, with nothing around it. */
  lemma ComparisonPassBare(ops: Operators, f: string, reg: Registry)
    requires f != "" && forall k :: 0 <= k < |f| ==> f[k] != '(' && f[k] != ')'
    ensures FirstOperator(ops, f, 0).Some? ==>
              var found := FirstOperator(ops, f, 0).value;
              ComparisonPass(ops, f, reg) ==
              Comparison(ops, ops.comparison[found.index], f, found.pos, "", "", reg)
  {
    TrimCharsNoEnds(f, {'(', ')'});
    ExplodeSelf(f);
    assert Parens(f, f) == ("", "");
    assert Unwrap(f) == f;
  }
}
