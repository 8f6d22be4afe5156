/** Field lists and the shaping of records returned to the caller
    (cleanFields, isExpression, cleanRecord, preCleanRecords). */
module RecordShaping {
  import opened PhpStrings
  import opened Values

  // ---------------------------------------------------------------------------
  // cleanFields

  /** An entry of a field list that names the identifier (compared trimmed
      and lower-cased). */
  predicate IsIdEntry(f: string) {
    Trim(Lower(f)) == IdField
  }

  /** The entries cleanFields keeps, in their order. */
  function KeptFields(fields: seq<string>): seq<string> {
    if fields == [] then []
    else (if IsIdEntry(fields[0]) then [] else [fields[0]]) + KeptFields(fields[1..])
  }

  /** Filtering a concatenation filters each part. */
  lemma {:induction false} KeptFieldsAppend(xs: seq<string>, ys: seq<string>)
    ensures KeptFields(xs + ys) == KeptFields(xs) + KeptFields(ys)
  {
    if xs == [] {
      assert xs + ys == ys;
    } else {
      assert (xs + ys)[0] == xs[0] && (xs + ys)[1..] == xs[1..] + ys;
      KeptFieldsAppend(xs[1..], ys);
    }
  }

  /** Filtering one more entry of a list. */
  lemma KeptFieldsStep(xs: seq<string>, k: nat)
    requires k < |xs|
    ensures KeptFields(xs[..k + 1]) == KeptFields(xs[..k]) + (if IsIdEntry(xs[k]) then [] else [xs[k]])
  {
    assert xs[..k + 1] == xs[..k] + [xs[k]];
    KeptFieldsAppend(xs[..k], [xs[k]]);
    assert [xs[k]][1..] == [];
  }

  /** cleanFields keeps exactly the entries that do not name the identifier. */
  lemma {:induction false} KeptFieldsExactly(fields: seq<string>)
    ensures forall f :: f in KeptFields(fields) <==> f in fields && !IsIdEntry(f)
    ensures |KeptFields(fields)| <= |fields|
  {
    if fields != [] {
      KeptFieldsExactly(fields[1..]);
      assert fields == [fields[0]] + fields[1..];
    }
  }

  /** explode(',', $fields) with null read as the empty string. */
  function FieldsText(fields: Option<string>): string {
    if fields.Some? then fields.value else ""
  }

  /** What cleanFields returns: the comma list without its `_id` entries. */
  function CleanedFields(fields: Option<string>): string {
    Implode(",", KeptFields(Explode(",", FieldsText(fields))))
  }

  /** cleanFields($fields) */
  method CleanFields(fields: Option<string>) returns (r: string)
    ensures r == CleanedFields(fields)
  {
    var fieldList := Explode(",", FieldsText(fields));
    var kept: seq<string> := [];
    var k := 0;
    while k < |fieldList|
      invariant 0 <= k <= |fieldList|
      invariant kept == KeptFields(fieldList[..k])
    {
      var f := fieldList[k];
      KeptFieldsStep(fieldList, k);
      if !IsIdEntry(f) {
        kept := kept + [f];
      }
      k := k + 1;
    }
    assert fieldList[..k] == fieldList;
    assert kept == KeptFields(Explode(",", FieldsText(fields)));
    r := Implode(",", kept);
  }

  // ---------------------------------------------------------------------------
  // isExpression

  /** The characters PCRE's \s matches. */
  predicate IsRegexSpace(c: char) {
    c == ' ' || c == '\t' || c == '\n' || c == '\r' || c as int == 11 || c as int == 12
  }

  /** A match of /\S+\(\S*\)/ whose '(' is at p and whose ')' is at q. */
  predicate CallAt(s: string, p: int, q: int)
    requires 1 <= p < q < |s|
  {
    && !IsRegexSpace(s[p - 1])
    && s[p] == '('
    && s[q] == ')'
    && forall t :: p < t < q ==> !IsRegexSpace(s[t])
  }

  /** preg_match('/\S+\(\S*\)/', $s) === 1 */
  predicate HasCallShape(s: string) {
    exists p, q :: 1 <= p < q < |s| && CallAt(s, p, q)
  }

  /** What isExpression returns: false, true, or the alias text. */
  datatype ExprKind = Plain | Bare | Aliased(alias: string)

  /** isExpression($field): a function-call column, bare or with ` as alias`. */
  function IsExpression(field: string): ExprKind {
    ClassifyParts(Explode(" as ", field))
  }

  /** The classification made from the pieces of `explode(' as ', $field)`. */
  function ClassifyParts(parts: seq<string>): ExprKind
    requires |parts| >= 1
  {
    if HasCallShape(Trim(parts[0])) then
      if |parts| > 1 then Aliased(Trim(parts[1])) else Bare
    else Plain
  }

  /** A field name without an opening parenthesis is never an expression. */
  lemma PlainNameIsNotExpression(field: string)
    requires forall t :: 0 <= t < |field| ==> field[t] != '('
    ensures IsExpression(field) == Plain
  {
    var parts := Explode(" as ", field);
    var head := parts[0];
    match IndexOf(field, " as ")
    case None =>
    case Some(p) =>
      assert head == field[..p];
    var t := Trim(head);
    var l := LeadCount(head, Blanks);
    assert t == head[l..l + |t|];
    assert forall x :: 0 <= x < |t| ==> t[x] != '(' by {
      forall x | 0 <= x < |t| ensures t[x] != '(' {
        assert t[x] == head[l + x];
      }
    }
  }

  /** A function call without an alias is a bare expression. */
  lemma BareExample()
    ensures IsExpression("f(x)") == Bare
  {
    IndexOfByFirstChar("f(x)", " as ", 4);
    assert Explode(" as ", "f(x)") == ["f(x)"];
    TrimCharsNoEnds("f(x)", Blanks);
    assert CallAt("f(x)", 1, 3);
  }

  lemma AliasExampleParts()
    ensures Explode(" as ", "f(x) as t") == ["f(x)", "t"]
  {
    var s := "f(x) as t";
    assert s == "f(x)" + " as " + "t";
    assert s[4..8] == " as ";
    IndexOfByFirstChar(s, " as ", 4);
    assert s[..4] == "f(x)";
    assert s[8..] == "t";
    IndexOfByFirstChar("t", " as ", 1);
    assert Explode(" as ", "t") == ["t"];
  }

  /** A function call followed by ` as t` is aliased to `t`. */
  lemma AliasExample()
    ensures IsExpression("f(x) as t") == Aliased("t")
  {
    var parts := ["f(x)", "t"];
    assert ClassifyParts(parts) == Aliased("t") by {
      TrimCharsNoEnds("f(x)", Blanks);
      assert CallAt("f(x)", 1, 3);
      TrimCharsNoEnds("t", Blanks);
    }
    AliasExampleParts();
  }

  /** Characters that are neither regex whitespace nor trimmed. */
  predicate Solid(s: string) {
    forall k :: 0 <= k < |s| ==> !IsRegexSpace(s[k]) && s[k] !in Blanks
  }

  /** The characters of `n(args)`. */
  lemma CallShape(n: string, args: string)
    requires n != "" && Solid(n) && Solid(args)
    ensures var s := n + "(" + args + ")";
            Solid(s) && 1 <= |n| < |s| - 1 && CallAt(s, |n|, |s| - 1) && Trim(s) == s
  {
    var s := n + "(" + args + ")";
    assert forall k :: 0 <= k < |n| ==> s[k] == n[k];
    assert forall k :: |n| < k < |s| - 1 ==> s[k] == args[k - |n| - 1];
    TrimCharsNoEnds(s, Blanks);
  }

  /** Any call `n(args)` without blanks is a bare expression. */
  lemma BareCall(n: string, args: string)
    requires n != "" && Solid(n) && Solid(args)
    ensures IsExpression(n + "(" + args + ")") == Bare
  {
    var s := n + "(" + args + ")";
    CallShape(n, args);
    IndexOfByFirstChar(s, " as ", |s|);
    assert Explode(" as ", s) == [s];
  }

  /** Any call `n(args)` without blanks, followed by ` as t` where t holds
      no further ` as `, is aliased to t trimmed. */
  lemma AliasedCall(n: string, args: string, t: string)
    requires n != "" && Solid(n) && Solid(args)
    requires IndexOf(t, " as ") == None
    ensures IsExpression(n + "(" + args + ")" + " as " + t) == Aliased(Trim(t))
  {
    var call := n + "(" + args + ")";
    var s := call + " as " + t;
    CallShape(n, args);
    assert forall k :: 0 <= k < |call| ==> s[k] == call[k];
    assert s[|call|..|call| + 4] == " as ";
    IndexOfByFirstChar(s, " as ", |call|);
    assert s[..|call|] == call && s[|call| + 4..] == t;
    assert Explode(" as ", t) == [t];
    assert Explode(" as ", s) == [call, t];
  }

  // ---------------------------------------------------------------------------
  // cleanRecord

  /** How cleanRecord reads a field or id list: null is the empty list, an
      empty() string ("" or "0") is cast to a one-element list as it is, and
      any other string is exploded on commas after outer commas are trimmed,
      each piece trimmed. */
  function FieldList(spec: Option<string>): seq<string> {
    if spec.None? then []
    else if IsEmptyText(spec.value) then [spec.value]
    else MapTrim(Explode(",", TrimChars(spec.value, {','})))
  }

  /** The requested list once every id field not already requested is appended. */
  function WithIds(requested: seq<string>, ids: seq<string>): seq<string>
    decreases ids
  {
    if ids == [] then requested
    else WithIds(if ids[0] in requested then requested else requested + [ids[0]], ids[1..])
  }

  /** The requested fields come first and unchanged; every id field is in the
      result; only id fields that were missing are appended. */
  lemma {:induction false} WithIdsSpec(requested: seq<string>, ids: seq<string>)
    ensures requested <= WithIds(requested, ids)
    ensures forall id :: id in ids ==> id in WithIds(requested, ids)
    ensures forall k :: |requested| <= k < |WithIds(requested, ids)| ==>
              WithIds(requested, ids)[k] !in requested && WithIds(requested, ids)[k] in ids
    decreases ids
  {
    if ids != [] {
      var next := if ids[0] in requested then requested else requested + [ids[0]];
      WithIdsSpec(next, ids[1..]);
      var r := WithIds(requested, ids);
      assert r == WithIds(next, ids[1..]);
      assert requested <= next;
      assert ids[0] in next by {
        if ids[0] !in requested {
          assert next[|requested|] == ids[0];
        }
      }
      forall x | x in next
        ensures x in r
      {
        var j :| 0 <= j < |next| && next[j] == x;
        assert r[j] == x;
      }
      forall id | id in ids
        ensures id in r
      {
        if id != ids[0] {
          var j :| 0 <= j < |ids| && ids[j] == id;
          assert ids[1..][j - 1] == id;
        }
      }
      forall k | |requested| <= k < |r|
        ensures r[k] !in requested && r[k] in ids
      {
        if k < |next| {
          assert r[k] == next[k] == ids[0];
        } else {
          assert r[k] !in next && r[k] in ids[1..];
          forall x | x in requested ensures x in next {
            var j :| 0 <= j < |requested| && requested[j] == x;
            assert next[j] == x;
          }
        }
      }
    }
  }

  /** Number of bare function expressions in keys, under the classification kind. */
  function BareCount(keys: seq<string>, kind: string -> ExprKind): nat {
    if keys == [] then 0
    else BareCount(keys[..|keys| - 1], kind) + (if kind(keys[|keys| - 1]) == Bare then 1 else 0)
  }

  /** The key of the output record a requested entry fills. */
  function OutKey(key: string, kind: string -> ExprKind): string {
    match kind(key)
    case Aliased(a) => a
    case _ => key
  }

  /** The key of the stored record that entry j is read from: itself, its
      alias, or `$n` for the n-th bare expression. */
  function RecordKey(keys: seq<string>, j: nat, kind: string -> ExprKind): string
    requires j < |keys|
  {
    ReadKey(keys[j], 1 + BareCount(keys[..j], kind), kind)
  }

  /** The stored key for one entry when it would be the n-th bare expression. */
  function ReadKey(key: string, n: nat, kind: string -> ExprKind): string {
    match kind(key)
    case Plain => key
    case Aliased(a) => a
    case Bare => "$" + NatToString(n)
  }

  /** The output of the glean loop after the given entries, in order
      (a later entry with the same output key overwrites an earlier one). */
  function Glean(record: Record, keys: seq<string>, kind: string -> ExprKind): Record {
    if keys == [] then map[]
    else Glean(record, keys[..|keys| - 1], kind)[OutKey(keys[|keys| - 1], kind) := Lookup(record, RecordKey(keys, |keys| - 1, kind))]
  }

  lemma RecordKeyPrefix(keys: seq<string>, m: nat, j: nat, kind: string -> ExprKind)
    requires j < m <= |keys|
    ensures RecordKey(keys[..m], j, kind) == RecordKey(keys, j, kind)
  {
    assert keys[..m][..j] == keys[..j];
  }

  /** The output keys of some entries. */
  function OutKeys(keys: seq<string>, kind: string -> ExprKind): set<string> {
    set j | 0 <= j < |keys| :: OutKey(keys[j], kind)
  }

  lemma OutKeysSnoc(keys: seq<string>, kind: string -> ExprKind)
    requires keys != []
    ensures OutKeys(keys, kind) == OutKeys(keys[..|keys| - 1], kind) + {OutKey(keys[|keys| - 1], kind)}
  {
    var n := |keys| - 1;
    var init := keys[..n];
    var outs := OutKeys(keys, kind);
    var initOuts := OutKeys(init, kind);
    forall x | x in outs ensures x in initOuts + {OutKey(keys[n], kind)} {
      var j :| 0 <= j < |keys| && x == OutKey(keys[j], kind);
      if j < n { assert x == OutKey(init[j], kind); }
    }
    forall x | x in initOuts ensures x in outs {
      var j :| 0 <= j < n && x == OutKey(init[j], kind);
      assert x == OutKey(keys[j], kind);
    }
  }

  /** The output keys are exactly the entries' output keys. */
  lemma {:induction false} GleanKeys(record: Record, keys: seq<string>, kind: string -> ExprKind)
    ensures Glean(record, keys, kind).Keys == OutKeys(keys, kind)
    decreases |keys|
  {
    if keys != [] {
      var n := |keys| - 1;
      GleanKeys(record, keys[..n], kind);
      OutKeysSnoc(keys, kind);
    }
  }

  /** An entry that no later entry overwrites holds the value read for it. */
  lemma {:induction false} GleanValue(record: Record, keys: seq<string>, kind: string -> ExprKind, j: nat)
    requires j < |keys|
    requires forall t :: j < t < |keys| ==> OutKey(keys[t], kind) != OutKey(keys[j], kind)
    ensures OutKey(keys[j], kind) in Glean(record, keys, kind)
    ensures Glean(record, keys, kind)[OutKey(keys[j], kind)] == Lookup(record, RecordKey(keys, j, kind))
    decreases |keys|
  {
    var n := |keys| - 1;
    var init := keys[..n];
    var o := OutKey(keys[j], kind);
    var last := Lookup(record, RecordKey(keys, n, kind));
    assert Glean(record, keys, kind) == Glean(record, init, kind)[OutKey(keys[n], kind) := last];
    if j < n {
      assert init[j] == keys[j];
      forall t | j < t < |init| ensures OutKey(init[t], kind) != o {
        assert init[t] == keys[t];
      }
      GleanValue(record, init, kind, j);
      RecordKeyPrefix(keys, n, j, kind);
      assert OutKey(keys[n], kind) != o;
    }
  }

  /** cleanRecord($record, $include, $id_field) as a value. */
  function CleanRecordSpec(record: Record, requested: Option<string>, idSpec: Option<string>): Record {
    if requested == Some("*") then record
    else Glean(record, WithIds(FieldList(requested), FieldList(idSpec)), IsExpression)
  }

  /** The loop of cleanRecord that appends the missing id fields. */
  method AppendIds(requested: seq<string>, ids: seq<string>) returns (keys: seq<string>)
    ensures keys == WithIds(requested, ids)
  {
    keys := requested;
    var k := 0;
    while k < |ids|
      invariant 0 <= k <= |ids|
      invariant WithIds(keys, ids[k..]) == WithIds(requested, ids)
    {
      assert ids[k..] == [ids[k]] + ids[k + 1..];
      if ids[k] !in keys {
        keys := keys + [ids[k]];
      }
      k := k + 1;
    }
  }

  /** One more entry of the glean loop. */
  lemma GleanStep(record: Record, keys: seq<string>, j: nat, kind: string -> ExprKind)
    requires j < |keys|
    ensures Glean(record, keys[..j + 1], kind)
            == Glean(record, keys[..j], kind)[OutKey(keys[j], kind) :=
                 Lookup(record, ReadKey(keys[j], 1 + BareCount(keys[..j], kind), kind))]
    ensures BareCount(keys[..j + 1], kind) == BareCount(keys[..j], kind) + (if kind(keys[j]) == Bare then 1 else 0)
  {
    assert keys[..j + 1][..j] == keys[..j];
    RecordKeyPrefix(keys, j + 1, j, kind);
  }

  /** The loop of cleanRecord that reads each requested entry from the record,
      classifying entries with kind (isExpression in cleanRecord). */
  method GleanFields(record: Record, keys: seq<string>, kind: string -> ExprKind) returns (out: Record)
    ensures out == Glean(record, keys, kind)
  {
    out := map[];
    var expCount := 1;
    var j := 0;
    while j < |keys|
      invariant 0 <= j <= |keys|
      invariant expCount == 1 + BareCount(keys[..j], kind)
      invariant out == Glean(record, keys[..j], kind)
    {
      var key := keys[j];
      var recordKey := key;
      var outKey := key;
      GleanStep(record, keys, j, kind);
      ghost var n := expCount;
      match kind(key) {
        case Plain =>
        case Bare =>
          recordKey := "$" + NatToString(expCount);
          expCount := expCount + 1;
        case Aliased(a) =>
          recordKey := a;
          outKey := a;
      }
      assert recordKey == ReadKey(key, n, kind) && outKey == OutKey(key, kind);
      out := out[outKey := Lookup(record, recordKey)];
      j := j + 1;
    }
    assert keys[..j] == keys;
  }

  /** cleanRecord($record, $include, $id_field) */
  method CleanRecord(record: Record, requested: Option<string>, idSpec: Option<string>) returns (out: Record)
    ensures out == CleanRecordSpec(record, requested, idSpec)
  {
    if requested == Some("*") {
      return record;
    }
    // make sure the identifier fields are always included
    var keys := AppendIds(FieldList(requested), FieldList(idSpec));
    // glean the desired fields from the record
    out := GleanFields(record, keys, IsExpression);
  }

  /** Projecting onto a field list with the id fields appended: every plain id
      field is a key of the result, and every plain entry that no later entry
      overwrites holds the record's value, or null when the record lacks it. */
  lemma {:induction false} ProjectionSpec(record: Record, requested: seq<string>, ids: seq<string>, kind: string -> ExprKind)
    ensures forall id :: id in ids && kind(id) == Plain ==> id in Glean(record, WithIds(requested, ids), kind)
    ensures var keys := WithIds(requested, ids);
            forall j :: 0 <= j < |keys| && kind(keys[j]) == Plain &&
                        (forall t :: j < t < |keys| ==> OutKey(keys[t], kind) != keys[j]) ==>
              keys[j] in Glean(record, keys, kind) &&
              Glean(record, keys, kind)[keys[j]] == Lookup(record, keys[j])
  {
    var keys := WithIds(requested, ids);
    WithIdsSpec(requested, ids);
    GleanKeys(record, keys, kind);
    forall id | id in ids && kind(id) == Plain
      ensures id in Glean(record, keys, kind)
    {
      var j :| 0 <= j < |keys| && keys[j] == id;
      assert OutKey(keys[j], kind) == id;
    }
    forall j | 0 <= j < |keys| && kind(keys[j]) == Plain &&
               (forall t :: j < t < |keys| ==> OutKey(keys[t], kind) != keys[j])
      ensures keys[j] in Glean(record, keys, kind) && Glean(record, keys, kind)[keys[j]] == Lookup(record, keys[j])
    {
      GleanValue(record, keys, kind, j);
    }
  }

  /** With `*` cleanRecord returns the record unchanged. */
  lemma CleanRecordStar(record: Record, idSpec: Option<string>)
    ensures CleanRecordSpec(record, Some("*"), idSpec) == record
  {
  }

  lemma SingleFieldList(name: string)
    requires name != "" && Trim(name) == name
    requires forall k :: 0 <= k < |name| ==> name[k] != ','
    ensures FieldList(Some(name)) == [name]
  {
    assert LeadCount(name, {','}) == 0;
    assert TrailCount(name, {','}) == 0;
    assert TrimChars(name, {','}) == name;
    IndexOfByFirstChar(name, ",", |name|);
  }

  /** Two distinct plain entries are read by name. */
  lemma GleanTwoPlain(record: Record, k1: string, k2: string, kind: string -> ExprKind)
    requires kind(k1) == Plain && kind(k2) == Plain && k1 != k2
    ensures Glean(record, [k1, k2], kind) == map[k1 := Lookup(record, k1), k2 := Lookup(record, k2)]
  {
    var keys := [k1, k2];
    assert keys[..1] == [k1] && keys[..1][..0] == [];
    assert OutKey(k1, kind) == k1 && OutKey(k2, kind) == k2;
    assert RecordKey(keys[..1], 0, kind) == k1;
    assert RecordKey(keys, 1, kind) == k2;
    assert Glean(record, keys[..1], kind) == map[k1 := Lookup(record, k1)];
  }

  /** A simple field name: what a caller writes for one plain column. */
  predicate SimpleName(name: string) {
    name != "" && Trim(name) == name &&
    forall k :: 0 <= k < |name| ==> name[k] != ',' && name[k] != '('
  }

  /** Asking for one plain field with a different plain id field yields
      exactly that field and the id, each read from the stored record (the
      id is added although it was not requested). */
  lemma ProjectionKeepsId(record: Record, field: string, id: string)
    requires SimpleName(field) && SimpleName(id) && field != id && field != "*"
    ensures CleanRecordSpec(record, Some(field), Some(id))
            == map[field := Lookup(record, field), id := Lookup(record, id)]
  {
    SingleFieldList(field);
    SingleFieldList(id);
    assert WithIds([field], [id]) == [field, id];
    PlainNameIsNotExpression(field);
    PlainNameIsNotExpression(id);
    GleanTwoPlain(record, field, id, IsExpression);
  }

  // ---------------------------------------------------------------------------
  // preCleanRecords

  /** One row of a query result: a row that holds the document under the
      bucket's name is unwrapped (its own `_id` dropped, the row's `_id`
      put back); any other row is kept as it is. */
  function PreCleanRow(row: Record, table: string): (r: Record)
    ensures table !in row ==> r == row
    ensures table in row ==> (IdField in r <==> IdField in row)
    ensures table in row && IdField in row ==> r[IdField] == row[IdField]
    ensures table in row ==>
              forall k :: k != IdField ==> (k in r <==> k in CastToRecord(row[table]))
    ensures table in row ==>
              forall k :: k != IdField && k in r ==> r[k] == CastToRecord(row[table])[k]
  {
    if table in row then
      var cleaned := CastToRecord(row[table]) - {IdField};
      if IdField in row then map[IdField := row[IdField]] + cleaned else cleaned
    else row
  }

  /** preCleanRecords($records) */
  method PreCleanRecords(rows: seq<Record>, table: string) returns (r: seq<Record>)
    ensures |r| == |rows|
    ensures forall k :: 0 <= k < |rows| ==> r[k] == PreCleanRow(rows[k], table)
  {
    r := [];
    for k := 0 to |rows|
      invariant |r| == k
      invariant forall t :: 0 <= t < k ==> r[t] == PreCleanRow(rows[t], table)
    {
      var row := rows[k];
      var cleaned: Record;
      if table in row {
        cleaned := CastToRecord(row[table]) - {IdField};
        if IdField in row {
          cleaned := map[IdField := row[IdField]] + cleaned;
        }
      } else {
        cleaned := row;
      }
      r := r + [cleaned];
    }
  }
}
