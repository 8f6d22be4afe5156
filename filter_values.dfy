/** The literal side of the filter compiler: how parseFilterValue coerces a
    literal and registers it as a named query parameter. */
module FilterValues {
  import opened PhpStrings
  import opened Values

  // ---------------------------------------------------------------------------
  // is_numeric and the (int) cast, on decimal strings

  /** The whitespace is_numeric allows before a number. */
  const NumberSpace: set<char> := {' ', '\t', '\n', '\r', 11 as char, 12 as char}

  const Digits: set<char> := {'0', '1', '2', '3', '4', '5', '6', '7', '8', '9'}

  predicate AllDigits(s: string) {
    forall k :: 0 <= k < |s| ==> IsDigit(s[k])
  }

  /** The number text after leading whitespace and an optional sign. */
  function Unsigned(s: string): string {
    var t := s[LeadCount(s, NumberSpace)..];
    if t != "" && (t[0] == '+' || t[0] == '-') then t[1..] else t
  }

  /** Whether the number is negative: a '-' sign after the leading whitespace. */
  predicate Negative(s: string) {
    var t := s[LeadCount(s, NumberSpace)..];
    t != "" && t[0] == '-'
  }

  /** The run of digits the number starts with. */
  function IntegerDigits(s: string): (d: string)
    ensures AllDigits(d)
  {
    var u := Unsigned(s);
    var n := LeadCount(u, Digits);
    LeadCountSpec(u, Digits);
    assert forall k :: 0 <= k < n ==> u[k] in Digits;
    u[..n]
  }

  /** is_numeric($s) for plain decimal text: optional whitespace, an optional
      sign, then digits with an optional fraction, or a fraction alone. */
  predicate IsNumeric(s: string) {
    var u := Unsigned(s);
    var n := LeadCount(u, Digits);
    var rest := u[n..];
    (n > 0 && (rest == "" || (rest[0] == '.' && AllDigits(rest[1..])))) ||
    (n == 0 && |rest| >= 2 && rest[0] == '.' && AllDigits(rest[1..]))
  }

  /** (int)$s for a numeric string: the integer part, the fraction cut off. */
  function IntCast(s: string): int {
    var m: int := DigitsValue(IntegerDigits(s));
    if Negative(s) then -m else m
  }

  // ---------------------------------------------------------------------------
  // Literal coercion

  /** The value ends in q on both sides once and for all: "q" + trim(v, q) + "q" == v. */
  predicate QuoteWrapped(v: string, q: char) {
    v == [q] + TrimChars(v, {q}) + [q]
  }

  /** The literal parseFilterValue stores for a value text. */
  function Coerce(v: string): Value {
    if IsNumeric(v) then Int(IntCast(v))
    else if Lower(v) == "true" then Bool(true)
    else if Lower(v) == "false" then Bool(false)
    else if QuoteWrapped(v, '\'') || QuoteWrapped(v, '"') then Str(v[1..|v| - 1])
    else Str(v)
  }

  /** Numeric text is cast to int, true/false in any case become booleans,
      a quoted text loses one layer of matching quotes, and anything else
      stays as it is. */
  lemma CoerceSpec(v: string)
    ensures var r := Coerce(v);
            (r.Int? || r.Bool? || r.Str?) &&
            (IsNumeric(v) ==> r == Int(IntCast(v))) &&
            (!IsNumeric(v) && Lower(v) == "true" ==> r == Bool(true)) &&
            (!IsNumeric(v) && Lower(v) == "false" ==> r == Bool(false)) &&
            (r.Str? ==> !IsNumeric(v) && Lower(v) != "true" && Lower(v) != "false") &&
            (r.Str? && (QuoteWrapped(v, '\'') || QuoteWrapped(v, '"')) ==> [v[0]] + r.s + [v[0]] == v) &&
            (r.Str? && !QuoteWrapped(v, '\'') && !QuoteWrapped(v, '"') ==> r.s == v)
  {
    if !IsNumeric(v) && Lower(v) != "true" && Lower(v) != "false" &&
       (QuoteWrapped(v, '\'') || QuoteWrapped(v, '"')) {
      assert v == [v[0]] + v[1..|v| - 1] + [v[|v| - 1]];
    }
  }

  // ---------------------------------------------------------------------------
  // Parameter registration

  /** A value text that starts with '(' and ends with ')': a function call or
      a sub-expression, passed to the query as it is. */
  predicate Wrapped(v: string) {
    |v| >= 1 && v[0] == '(' && v[|v| - 1] == ')'
  }

  /** The parameter key of the i-th registration for a field: name . i */
  function ParamKey(name: string, i: nat): string {
    name + NatToString(i)
  }

  /** The compiler's state between calls: the counter $this->i and the
      out_params map the literals are bound in. */
  datatype Registry = Registry(next: nat, params: map<string, Value>)

  /** A piece of query text and the registry after producing it. */
  datatype Emitted = Emitted(text: string, reg: Registry)

  /** parseFilterValue($value, $info, $out_params) as a value: a wrapped text
      comes back verbatim; any other is bound under the next key. */
  function ParseValue(value: string, name: string, reg: Registry): (e: Emitted)
    ensures Wrapped(value) ==> e == Emitted(value, reg)
    ensures !Wrapped(value) ==>
              var key := ParamKey(name, reg.next);
              e.text == "$" + key && e.reg.next == reg.next + 1 &&
              e.reg.params == reg.params[key := Coerce(value)]
    ensures Extends(reg, e.reg)
  {
    if Wrapped(value) then Emitted(value, reg)
    else
      var key := ParamKey(name, reg.next);
      assert Numbered(key, reg.next, reg.next + 1);
      Emitted("$" + key, Registry(reg.next + 1, reg.params[key := Coerce(value)]))
  }

  // ---------------------------------------------------------------------------
  // What a registration may change

  /** key is the parameter key of some field for a counter value in [lo, hi). */
  ghost predicate Numbered(key: string, lo: nat, hi: nat) {
    exists name: string, n: nat :: lo <= n < hi && key == ParamKey(name, n)
  }

  /** What a compilation may do to the registry: the counter only grows, no
      binding is lost, and every binding it adds or changes is under a key
      numbered with a counter value it consumed. */
  ghost predicate Extends(a: Registry, b: Registry) {
    && a.next <= b.next
    && a.params.Keys <= b.params.Keys
    && forall key :: key in b.params && (key !in a.params || b.params[key] != a.params[key]) ==>
         Numbered(key, a.next, b.next)
  }

  lemma NumberedWiden(key: string, lo: nat, hi: nat, lo': nat, hi': nat)
    requires Numbered(key, lo, hi) && lo' <= lo && hi <= hi'
    ensures Numbered(key, lo', hi')
  {
    var name: string, n: nat :| lo <= n < hi && key == ParamKey(name, n);
    assert lo' <= n < hi' && key == ParamKey(name, n);
  }

  /** Nothing changes without consuming a counter value. */
  lemma ExtendsRefl(a: Registry)
    ensures Extends(a, a)
  {
  }

  /** Two compilations in a row. */
  lemma ExtendsTrans(a: Registry, b: Registry, c: Registry)
    requires Extends(a, b) && Extends(b, c)
    ensures Extends(a, c)
  {
    forall key | key in c.params && (key !in a.params || c.params[key] != a.params[key])
      ensures Numbered(key, a.next, c.next)
    {
      if key !in b.params || c.params[key] != b.params[key] {
        NumberedWiden(key, b.next, c.next, a.next, c.next);
      } else {
        NumberedWiden(key, a.next, b.next, a.next, c.next);
      }
    }
  }

  // ---------------------------------------------------------------------------
  // Keys

  /** Two registrations for the same field never share a key. */
  lemma ParamKeyInjective(name: string, i: nat, j: nat)
    requires ParamKey(name, i) == ParamKey(name, j)
    ensures i == j
  {
    var a := ParamKey(name, i);
    assert NatToString(i) == a[|name|..];
    assert NatToString(j) == a[|name|..];
    NatToStringInjective(i, j);
  }

  /** Across field names keys can collide: the 1st registration of field a1
      and the 11th of field a are both bound as a11. */
  lemma ParamKeyCollision(x: string, y: string)
    requires x == "a1" && y == "a"
    ensures ParamKey(x, 1) == ParamKey(y, 11)
  {
    assert NatToString(1) == "1";
    assert NatToString(11) == NatToString(1) + [DigitChar(1)];
  }

  /** What uniqueness the keys do have across field names: counter values
      with different last digits give different keys, whatever the fields. */
  lemma ParamKeyLastDigit(x: string, y: string, i: nat, j: nat)
    requires i % 10 != j % 10
    ensures ParamKey(x, i) != ParamKey(y, j)
  {
    NatToStringLast(i);
    NatToStringLast(j);
    var a := ParamKey(x, i);
    var b := ParamKey(y, j);
    assert a[|a| - 1] == DigitChar(i % 10);
    assert b[|b| - 1] == DigitChar(j % 10);
  }

  /** Two registrations in a row never share a key, for any two fields. */
  lemma ParamKeyNeighbours(x: string, y: string, i: nat)
    ensures ParamKey(x, i) != ParamKey(y, i + 1)
  {
    ParamKeyLastDigit(x, y, i, i + 1);
  }

  // ---------------------------------------------------------------------------
  // Coercion

  /** A text that does not start with whitespace has no leading run to skip. */
  lemma NoLeadingSpace(s: string)
    requires s != "" && s[0] !in NumberSpace
    ensures LeadCount(s, NumberSpace) == 0 && s[LeadCount(s, NumberSpace)..] == s
  {
  }

  /** Every character of a digit string is in the leading digit run. */
  lemma AllDigitsLead(d: string)
    requires AllDigits(d)
    ensures LeadCount(d, Digits) == |d|
  {
    LeadCountSpec(d, Digits);
  }

  /** A plain digit string is numeric, unsigned, and all integer part. */
  lemma DigitsText(d: string)
    requires d != "" && AllDigits(d)
    ensures IsNumeric(d) && !Negative(d) && IntegerDigits(d) == d
  {
    assert IsDigit(d[0]);
    NoLeadingSpace(d);
    assert Unsigned(d) == d;
    AllDigitsLead(d);
    assert d[..|d|] == d;
  }

  /** A digit string after a minus sign is numeric, negative, and its digits
      are the integer part. */
  lemma NegatedDigitsText(d: string)
    requires d != "" && AllDigits(d)
    ensures var s := "-" + d; IsNumeric(s) && Negative(s) && IntegerDigits(s) == d
  {
    var s := "-" + d;
    NoLeadingSpace(s);
    assert s[1..] == d;
    assert Unsigned(s) == d;
    AllDigitsLead(d);
    assert d[..|d|] == d;
  }

  /** The decimal text of a natural number is numeric and casts back to it. */
  lemma CoerceNatText(n: nat)
    ensures IsNumeric(NatToString(n))
    ensures Coerce(NatToString(n)) == Int(n)
  {
    DigitsText(NatToString(n));
    DigitsValueOfNatToString(n);
  }

  /** A minus sign in front casts to the negated number. */
  lemma CoerceNegativeText(n: nat)
    ensures IsNumeric("-" + NatToString(n))
    ensures Coerce("-" + NatToString(n)) == Int(-(n as int))
  {
    NegatedDigitsText(NatToString(n));
    DigitsValueOfNatToString(n);
  }

  /** A text that starts with a character no number can start with is not numeric. */
  lemma NotNumericStart(v: string)
    requires v != "" && v[0] !in NumberSpace && !IsDigit(v[0])
    requires v[0] != '+' && v[0] != '-' && v[0] != '.'
    ensures !IsNumeric(v)
  {
    assert LeadCount(v, NumberSpace) == 0;
    assert v[0..] == v;
    assert Unsigned(v) == v;
    assert v[0] !in Digits;
    assert LeadCount(v, Digits) == 0;
  }

  /** Quotes around a text that does not start or end with that quote. */
  lemma QuoteWrappedOf(s: string, q: char)
    requires s == "" || (s[0] != q && s[|s| - 1] != q)
    ensures QuoteWrapped([q] + s + [q], q)
  {
    var v := [q] + s + [q];
    var r := TrimChars(v, {q});
    if s == "" {
      assert v[0] in {q} && v[1] in {q};
      assert LeadCount(v, {q}) == 2;
      assert r == "";
    } else {
      assert v[1] == s[0] && v[1] !in {q};
      assert LeadCount(v, {q}) == 1;
      var t := v[1..];
      assert t == s + [q] && t[..|t| - 1] == s;
      assert TrailCount(s, {q}) == 0;
      assert TrailCount(t, {q}) == 1;
      assert r == s;
    }
  }

  /** A quoted text that is not itself quote-padded loses exactly its quotes. */
  lemma CoerceQuoted(s: string, q: char)
    requires q == '\'' || q == '"'
    requires s == "" || (s[0] != q && s[|s| - 1] != q)
    ensures QuoteWrapped([q] + s + [q], q)
    ensures Coerce([q] + s + [q]) == Str(s)
  {
    var v := [q] + s + [q];
    QuoteWrappedOf(s, q);
    NotNumericStart(v);
    var lv := Lower(v);
    assert lv[0] == q;
    assert lv != "true" && lv != "false";
    assert v[1..|v| - 1] == s;
  }

  /** true and false are recognised in any letter case. */
  lemma CoerceBoolean(v: string)
    requires Lower(v) == "true" || Lower(v) == "false"
    ensures Coerce(v) == Bool(Lower(v) == "true")
  {
    assert LowerChar(v[0]) == Lower(v)[0];
    assert 't' == Lower(v)[0] || 'f' == Lower(v)[0];
    NotNumericStart(v);
  }
}
