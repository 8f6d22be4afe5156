/** Worked compilations of parseFilterString, for operator tables in which
    AND and NOT are the logical operators and = is the only comparison: a
    field compared with a digit, the same comparison wrapped in parentheses,
    negated by a NOT prefix and joined by AND, and a field negated by a
    trailing NOT. */
module FilterExamples {
  import opened PhpStrings
  import opened Values
  import opened FilterValues
  import opened FilterParser

  /** AND then NOT as the logical operators, = as the only comparison,
      padded with spaces, each localized as itself, = taking one value
      that it leaves unmodified. */
  predicate ExampleTables(ops: Operators) {
    && ops.logical == ["AND", NotWord]
    && ops.comparison == ["="]
    && ops.pad("=") == " = "
    && ops.localize("=") == "=" && ops.localize("AND") == "AND" && ops.localize(NotWord) == NotWord
    && !ops.valueList("=") && !ops.noValue("=")
    && forall n: nat :: n < 10 ==> ops.modifyValue("=", NatToString(n)) == NatToString(n)
  }

  /** A field name made of letters, in either case. */
  predicate Letters(w: string) {
    w != "" && forall k :: 0 <= k < |w| ==> 'a' <= LowerChar(w[k]) <= 'z'
  }

  /** `w = n` for a field w and a digit n. */
  function Simple(w: string, n: nat): string
    requires n < 10
  {
    w + " = " + NatToString(n)
  }

  /** The same comparison wrapped in parentheses. */
  function InParens(f: string): string {
    "(" + f + ")"
  }

  // ---------------------------------------------------------------------------
  // Steps shared by the examples

  /** A text without ')' holds no `)AND(` and no `) AND (`. */
  lemma NoClosingNoSplit(f: string, q: nat)
    requires q <= |f| && forall p :: 0 <= p < q ==> f[p] != ')'
    ensures q + 4 >= |f| ==> IndexOfI(f, ")AND(") == None
    ensures q + 6 >= |f| ==> IndexOfI(f, ") AND (") == None
  {
    IndexOfIByPrefix(f, ")AND(", q);
    IndexOfIByPrefix(f, ") AND (", q);
  }

  /** A text without '(' does not start with `NOT (` or `NOT(`. */
  lemma NoOpeningNoNegation(f: string)
    requires forall k :: 0 <= k < |f| ==> f[k] != '('
    ensures !StartsWithI(f, NotWord + " (") && !StartsWithI(f, NotWord + "(")
  {
    if |f| >= 5 {
      LowerSpec(f[..5]);
      LowerSpec(NotWord + " (");
      assert f[..5][4] == f[4];
    }
    if |f| >= 4 {
      LowerSpec(f[..4]);
      LowerSpec(NotWord + "(");
      assert f[..4][3] == f[3];
    }
  }

  /** A text starting with '(' does not start with `NOT (` or `NOT(`. */
  lemma ParenFirstNoNegation(f: string)
    requires f != "" && f[0] == '('
    ensures !StartsWithI(f, NotWord + " (") && !StartsWithI(f, NotWord + "(")
  {
    if |f| >= 4 {
      LowerSpec(f[..4]);
      LowerSpec(NotWord + "(");
      assert f[..4][0] == f[0];
    }
    if |f| >= 5 {
      LowerSpec(f[..5]);
      LowerSpec(NotWord + " (");
      assert f[..5][0] == f[0];
    }
  }

  /** A non-empty() filter with nothing to trim goes straight to the logical pass. */
  lemma Entry(ops: Operators, f: string, reg: Registry)
    requires |f| >= 2 && f[0] !in Blanks && f[|f| - 1] !in Blanks
    ensures CompileFilter(ops, f, reg) == LogicalPass(ops, f, 0, reg)
  {
    TrimCharsNoEnds(f, Blanks);
  }

  /** The tables' AND, tight and padded. */
  lemma AndPatterns(ops: Operators)
    requires ExampleTables(ops)
    ensures var op := ops.logical[0];
            op != NotWord && ")" + op + "(" == ")AND(" && ") " + op + " (" == ") AND ("
  {
  }

  /** With no AND in the filter, tight or padded, the logical pass moves
      on to NOT with the filter unchanged. */
  lemma SkipsAnd(ops: Operators, f: string, reg: Registry)
    requires ExampleTables(ops)
    requires IndexOfI(f, ")AND(") == None && IndexOfI(f, ") AND (") == None
    ensures LogicalPass(ops, f, 0, reg) == LogicalPass(ops, f, 1, reg)
  {
    AndPatterns(ops);
    IReplaceNotFound(f, ")AND(", ") AND (");
    LogicalPassSkips(ops, f, 0, reg);
  }

  /** With nothing to split and no NOT prefix, the logical pass hands the
      filter to the comparison pass. */
  lemma ToComparisonPass(ops: Operators, f: string, reg: Registry)
    requires ExampleTables(ops)
    requires IndexOfI(f, ")AND(") == None && IndexOfI(f, ") AND (") == None
    requires !StartsWithI(f, NotWord + " (") && !StartsWithI(f, NotWord + "(")
    ensures LogicalPass(ops, f, 0, reg) == ComparisonPass(ops, f, reg)
  {
    SkipsAnd(ops, f, reg);
    LogicalPassNotSkips(ops, f, 1, reg);
    LogicalPassEnd(ops, f, reg);
  }

  /** The characters of `w = n`. */
  lemma SimpleShape(w: string, n: nat)
    requires Letters(w) && n < 10
    ensures var f := Simple(w, n);
            && |f| == |w| + 4
            && f[..|w|] == w && f[|w|..|w| + 3] == " = " && f[|w| + 3..] == NatToString(n)
            && (forall k :: 0 <= k < |f| ==> f[k] != '(' && f[k] != ')')
            && (forall p :: 0 <= p < |w| ==> 'a' <= LowerChar(f[p]) <= 'z')
            && f[0] !in Blanks && f[|f| - 1] !in Blanks
  {
    var f := Simple(w, n);
    forall k | 0 <= k < |f| ensures f[k] != '(' && f[k] != ')' {
      if k < |w| { assert f[k] == w[k]; }
    }
    assert f[0] == w[0];
  }

  /** The comparison operator of `w = n` is found right after the field. */
  lemma SimpleOperator(ops: Operators, w: string, n: nat)
    requires ExampleTables(ops) && Letters(w) && n < 10
    ensures FirstOperator(ops, Simple(w, n), 0) == Some(Found(0, |w|))
  {
    var f := Simple(w, n);
    SimpleShape(w, n);
    IndexOfIByPrefix(f, " = ", |w|);
    assert MatchAt(f, " = ", |w|, true);
  }

  /** The pieces of `w = n`: the lower-cased field and =, and the digit. */
  lemma SimplePrepare(ops: Operators, w: string, n: nat)
    requires ExampleTables(ops) && Letters(w) && n < 10
    ensures Prepare(ops, "=", Simple(w, n), |w|, "", "") == Prepared(Lower(w) + " =", Lower(w), NatToString(n), "")
  {
    var f := Simple(w, n);
    var d := NatToString(n);
    SimpleShape(w, n);
    TrimCharsNoEnds(w, Blanks);
    assert Trim(f[..|w|]) == w;
    IndexOfByFirstChar(w, " ", |w|);
    assert SplitNegation(w) == (w, false);
    assert ops.pad("=") == " = ";
    TrimCharsNoEnds(d, Blanks);
    assert Trim(f[|w| + 3..]) == d;
    DigitBalanced(n);
    var p := Prepare(ops, "=", f, |w|, "", "");
    assert p.name == Lower(w) && p.value == d && p.right == "";
    SimpleHead(Lower(w));
  }

  lemma SimpleHead(x: string)
    ensures Truthy("") + x + " " + "=" == x + " ="
  {
  }

  /** A digit holds no parenthesis, so its parentheses are left alone. */
  lemma DigitBalanced(n: nat)
    requires n < 10
    ensures RepairParens(NatToString(n), "") == (NatToString(n), "")
  {
    var d := NatToString(n);
    assert d == [DigitChar(n)] && d[1..] == [];
    assert CountChar(d, '(') == 0 && CountChar(d, ')') == 0;
  }

  /** The condition for `w = n` binds the digit under the field's next key. */
  lemma SimpleCondition(ops: Operators, w: string, n: nat, reg: Registry)
    requires ExampleTables(ops) && n < 10
    ensures var key := ParamKey(Lower(w), reg.next);
            Condition(ops, "=", Lower(w) + " =", Lower(w), NatToString(n), "", reg) ==
            Compiled(Ok(Some(Lower(w) + " = $" + key)), Registry(reg.next + 1, reg.params[key := Int(n)]))
  {
    var key := ParamKey(Lower(w), reg.next);
    SingleValueCondition(ops, "=", Lower(w) + " =", Lower(w), NatToString(n), "", reg);
    CoerceNatText(n);
    assert Lower(w) + " =" + " $" + key + Truthy("") == Lower(w) + " = $" + key;
  }

  /** The comparison pass on `w = n`: the lower-cased field, =, and the
      digit bound under the lower-cased field's next key. */
  lemma SimpleComparisonPass(ops: Operators, w: string, n: nat, reg: Registry)
    requires ExampleTables(ops) && Letters(w) && n < 10
    ensures var key := ParamKey(Lower(w), reg.next);
            ComparisonPass(ops, Simple(w, n), reg) ==
            Compiled(Ok(Some(Lower(w) + " = $" + key)), Registry(reg.next + 1, reg.params[key := Int(n)]))
  {
    var f := Simple(w, n);
    SimpleShape(w, n);
    ComparisonPassBare(ops, f, reg);
    SimpleOperator(ops, w, n);
    assert ops.comparison[0] == "=";
    SimplePrepare(ops, w, n);
    SimpleCondition(ops, w, n, reg);
  }

  // ---------------------------------------------------------------------------
  // The examples

  /** `w = n` compiles to `lower(w) = $lower(w)<i>`, with the digit bound
      as an integer under the lower-cased field's key for the counter
      value i, and the counter moves on by one. */
  lemma SimpleComparison(ops: Operators, w: string, n: nat, reg: Registry)
    requires ExampleTables(ops) && Letters(w) && n < 10
    ensures var key := ParamKey(Lower(w), reg.next);
            CompileFilter(ops, Simple(w, n), reg) ==
            Compiled(Ok(Some(Lower(w) + " = $" + key)), Registry(reg.next + 1, reg.params[key := Int(n)]))
  {
    var f := Simple(w, n);
    SimpleShape(w, n);
    Entry(ops, f, reg);
    NoClosingNoSplit(f, |f|);
    NoOpeningNoNegation(f);
    ToComparisonPass(ops, f, reg);
    SimpleComparisonPass(ops, w, n, reg);
  }

  /** `(w = n)` has nothing to split and no NOT prefix. */
  lemma WrappedToComparisonPass(ops: Operators, w: string, n: nat, reg: Registry)
    requires ExampleTables(ops) && Letters(w) && n < 10
    ensures CompileFilter(ops, InParens(Simple(w, n)), reg) == ComparisonPass(ops, InParens(Simple(w, n)), reg)
  {
    var f := Simple(w, n);
    var g := InParens(f);
    SimpleShape(w, n);
    assert forall p :: 0 <= p < |g| - 1 ==> g[p] != ')' by {
      forall p | 0 <= p < |g| - 1 ensures g[p] != ')' {
        if p > 0 { assert g[p] == f[p - 1]; }
      }
    }
    Entry(ops, g, reg);
    NoClosingNoSplit(g, |g| - 1);
    ParenFirstNoNegation(g);
    ToComparisonPass(ops, g, reg);
  }

  /** `(w = n)` compiles to the same condition, wrapped. */
  lemma WrappedComparison(ops: Operators, w: string, n: nat, reg: Registry)
    requires ExampleTables(ops) && Letters(w) && n < 10
    ensures var key := ParamKey(Lower(w), reg.next);
            CompileFilter(ops, InParens(Simple(w, n)), reg) ==
            Compiled(Ok(Some("(" + Lower(w) + " = $" + key + ")")), Registry(reg.next + 1, reg.params[key := Int(n)]))
  {
    var f := Simple(w, n);
    var g := InParens(f);
    var key := ParamKey(Lower(w), reg.next);
    var t := Lower(w) + " = $" + key;
    var r := Registry(reg.next + 1, reg.params[key := Int(n)]);
    WrappedToComparisonPass(ops, w, n, reg);
    SimpleShape(w, n);
    assert Unwrap(g) == f && Wrapped(g) && !Wrapped(f);
    ComparisonPassUnwraps(ops, g, reg);
    SimpleComparisonPass(ops, w, n, reg);
    assert ComparisonPass(ops, f, reg) == Compiled(Ok(Some(t)), r);
    assert ComparisonPass(ops, g, reg) == Compiled(Ok(Some("(" + t + ")")), r);
    Regroup("(", Lower(w), " = $", key, ")");
  }

  /** A text in parentheses after `NOT ` starts with the `NOT (` prefix. */
  lemma NotPrefix(g: string)
    requires g != "" && g[0] == '('
    ensures StartsWithI("NOT " + g, NotWord + " (")
  {
    assert ("NOT " + g)[..5] == NotWord + " (";
  }

  /** The AND of the tables is not found in `NOT (w = n)`. */
  lemma NegatedSkipsAnd(ops: Operators, w: string, n: nat, reg: Registry)
    requires ExampleTables(ops) && Letters(w) && n < 10
    ensures var h := "NOT " + InParens(Simple(w, n));
            CompileFilter(ops, h, reg) == LogicalPass(ops, h, 1, reg)
  {
    var f := Simple(w, n);
    var h := "NOT " + InParens(f);
    SimpleShape(w, n);
    assert forall p :: 0 <= p < |h| - 1 ==> h[p] != ')' by {
      forall p | 0 <= p < |h| - 1 ensures h[p] != ')' {
        if p > 4 { assert h[p] == f[p - 5]; }
      }
    }
    Entry(ops, h, reg);
    NoClosingNoSplit(h, |h| - 1);
    SkipsAnd(ops, h, reg);
  }

  /** `NOT (w = n)` has nothing to split and is negated. */
  lemma NegatedToNegationStep(ops: Operators, w: string, n: nat, reg: Registry)
    requires ExampleTables(ops) && Letters(w) && n < 10
    ensures StartsWithI("NOT " + InParens(Simple(w, n)), NotWord + " (")
    ensures CompileFilter(ops, "NOT " + InParens(Simple(w, n)), reg) ==
            NegationStep(ops, "NOT " + InParens(Simple(w, n)), reg)
  {
    var h := "NOT " + InParens(Simple(w, n));
    NegatedSkipsAnd(ops, w, n, reg);
    NotPrefix(InParens(Simple(w, n)));
    assert ops.logical[1] == NotWord;
    LogicalPassNegates(ops, h, 1, reg);
  }

  /** `NOT (w = n)` compiles to the localized NOT in front of the wrapped
      condition. */
  lemma NegatedComparison(ops: Operators, w: string, n: nat, reg: Registry)
    requires ExampleTables(ops) && Letters(w) && n < 10
    ensures var key := ParamKey(Lower(w), reg.next);
            CompileFilter(ops, "NOT " + InParens(Simple(w, n)), reg) ==
            Compiled(Ok(Some("NOT(" + Lower(w) + " = $" + key + ")")), Registry(reg.next + 1, reg.params[key := Int(n)]))
  {
    var g := InParens(Simple(w, n));
    var h := "NOT " + g;
    var key := ParamKey(Lower(w), reg.next);
    var t := "(" + Lower(w) + " = $" + key + ")";
    var r := Registry(reg.next + 1, reg.params[key := Int(n)]);
    NegatedToNegationStep(ops, w, n, reg);
    InParensShape(Simple(w, n));
    NotTrim(g);
    WrappedComparison(ops, w, n, reg);
    assert CompileFilter(ops, Trim(h[3..]), reg) == Compiled(Ok(Some(t)), r);
    assert NegationStep(ops, h, reg) == Compiled(Ok(Some(NotWord + t)), r);
    NotRegroup(Lower(w), key);
  }

  /** A text in parentheses starts with '(' and ends with ')'. */
  lemma InParensShape(f: string)
    ensures var g := InParens(f); |g| == |f| + 2 && g[0] == '(' && g[|g| - 1] == ')'
  {
  }

  /** What follows the NOT of `NOT g`, trimmed, is g. */
  lemma NotTrim(g: string)
    requires g != "" && g[0] == '(' && g[|g| - 1] == ')'
    ensures Trim(("NOT " + g)[3..]) == g
  {
    assert ("NOT " + g)[3..] == " " + g;
    TrimLeadingBlank(g);
  }

  /** The localized NOT joined to a wrapped comparison. */
  lemma NotRegroup(x: string, key: string)
    ensures NotWord + ("(" + x + " = $" + key + ")") == "NOT(" + x + " = $" + key + ")"
  {
  }

  /** Regrouping a concatenation of five texts. */
  lemma Regroup(a: string, b: string, c: string, d: string, e: string)
    ensures a + (b + c + d) + e == a + b + c + d + e
  {
  }

  // ---------------------------------------------------------------------------
  // Two comparisons joined by AND

  /** A comparison with no parentheses and nothing to trim at its ends. */
  predicate Bare(f: string) {
    && f != ""
    && (forall k :: 0 <= k < |f| ==> f[k] != '(' && f[k] != ')')
    && f[0] !in Blanks && f[|f| - 1] !in Blanks
  }

  /** `(f1) AND (f2)` */
  function Conj(f1: string, f2: string): string {
    InParens(f1) + " AND " + InParens(f2)
  }

  /** `w = n` is a bare comparison. */
  lemma SimpleBare(w: string, n: nat)
    requires Letters(w) && n < 10
    ensures Bare(Simple(w, n))
  {
    SimpleShape(w, n);
  }

  /** The only ')' of `(f1) AND (f2)` close the two comparisons. */
  lemma ConjShape(f1: string, f2: string)
    requires Bare(f1) && Bare(f2)
    ensures var h := Conj(f1, f2);
            var q := |f1| + 1;
            && |h| == |f1| + |f2| + 9
            && h[0] == '(' && h[|h| - 1] == ')'
            && h[q..q + 7] == ") AND ("
            && h[..q] == "(" + f1 && h[q + 7..] == f2 + ")"
            && (forall p :: 0 <= p < |h| && p != q && p != |h| - 1 ==> h[p] != ')')
  {
    var h := Conj(f1, f2);
    var q := |f1| + 1;
    forall p | 0 <= p < |h| && p != q && p != |h| - 1 ensures h[p] != ')' {
      if 1 <= p < q { assert h[p] == f1[p - 1]; }
      else if q + 7 <= p < |h| - 1 { assert h[p] == f2[p - q - 7]; }
    }
  }

  /** `(f1) AND (f2)` has no tight `)AND(` and splits at its padded AND. */
  lemma ConjFinds(f1: string, f2: string)
    requires Bare(f1) && Bare(f2)
    ensures IndexOfI(Conj(f1, f2), ")AND(") == None
    ensures IndexOfI(Conj(f1, f2), ") AND (") == Some(|f1| + 1)
  {
    ConjNoTight(f1, f2);
    ConjPadded(f1, f2);
  }

  lemma ConjNoTight(f1: string, f2: string)
    requires Bare(f1) && Bare(f2)
    ensures IndexOfI(Conj(f1, f2), ")AND(") == None
  {
    var h := Conj(f1, f2);
    ConjShape(f1, f2);
    assert h[|f1| + 2] == ' ';
    IndexOfIByPrefix(h, ")AND(", |h| - 4);
  }

  lemma ConjPadded(f1: string, f2: string)
    requires Bare(f1) && Bare(f2)
    ensures IndexOfI(Conj(f1, f2), ") AND (") == Some(|f1| + 1)
  {
    var h := Conj(f1, f2);
    var q := |f1| + 1;
    ConjShape(f1, f2);
    assert MatchAt(h, ") AND (", q, true);
    IndexOfIByPrefix(h, ") AND (", q);
  }

  /** The split of `(f1) AND (f2)` gives back the two wrapped comparisons. */
  lemma ConjSides(f1: string, f2: string)
    requires Bare(f1) && Bare(f2)
    ensures NonBlank(") AND (") >= 2
    ensures IndexOfI(Conj(f1, f2), ") AND (") == Some(|f1| + 1)
    ensures SplitSides(Conj(f1, f2), ") AND (", |f1| + 1) == (InParens(f1), InParens(f2))
  {
    var h := Conj(f1, f2);
    var q := |f1| + 1;
    PaddedNonBlank("AND");
    ConjPadded(f1, f2);
    ConjSlices(f1, f2);
    BareTrims(f1, f2);
  }

  /** The text before and after the padded AND of `(f1) AND (f2)`. */
  lemma ConjSlices(f1: string, f2: string)
    ensures Conj(f1, f2)[..|f1| + 1] == "(" + f1
    ensures Conj(f1, f2)[|f1| + 8..] == f2 + ")"
  {
  }

  /** Trimming leaves a bare comparison with one parenthesis attached as it is. */
  lemma BareTrims(f1: string, f2: string)
    requires Bare(f1) && Bare(f2)
    ensures Trim("(" + f1) + ")" == InParens(f1)
    ensures "(" + Trim(f2 + ")") == InParens(f2)
  {
    var a, b := "(" + f1, f2 + ")";
    assert a[0] == '(' && a[|a| - 1] == f1[|f1| - 1];
    assert b[0] == f2[0] && b[|b| - 1] == ')';
    TrimCharsNoEnds(a, Blanks);
    TrimCharsNoEnds(b, Blanks);
  }

  /** The logical pass splits `(f1) AND (f2)` into its two comparisons. */
  lemma ConjSplits(ops: Operators, f1: string, f2: string, reg: Registry)
    requires ExampleTables(ops) && Bare(f1) && Bare(f2)
    ensures NonBlank(InParens(f1)) < NonBlank(Conj(f1, f2)) && NonBlank(InParens(f2)) < NonBlank(Conj(f1, f2))
    ensures CompileFilter(ops, Conj(f1, f2), reg) ==
            SplitStep(ops, "AND", InParens(f1), InParens(f2), NonBlank(Conj(f1, f2)), reg)
  {
    var h := Conj(f1, f2);
    assert |h| >= 2 && h[0] == '(' && h[|h| - 1] == ')';
    Entry(ops, h, reg);
    ConjLogicalPass(ops, f1, f2, reg);
  }

  /** The AND of the tables splits `(f1) AND (f2)` at the start of the logical pass. */
  lemma ConjLogicalPass(ops: Operators, f1: string, f2: string, reg: Registry)
    requires ExampleTables(ops) && Bare(f1) && Bare(f2)
    ensures NonBlank(InParens(f1)) < NonBlank(Conj(f1, f2)) && NonBlank(InParens(f2)) < NonBlank(Conj(f1, f2))
    ensures LogicalPass(ops, Conj(f1, f2), 0, reg) ==
            SplitStep(ops, "AND", InParens(f1), InParens(f2), NonBlank(Conj(f1, f2)), reg)
  {
    var h := Conj(f1, f2);
    ConjFinds(f1, f2);
    AndPatterns(ops);
    IReplaceNotFound(h, ")AND(", ") AND (");
    LogicalPassSplits(ops, h, 0, reg, |f1| + 1);
    ConjSides(f1, f2);
  }

  /** `(w1 = n1) AND (w2 = n2)` compiles to the two conditions joined by
      AND; the first digit is bound under the first field's key for the
      counter value i, the second under the second field's key for i + 1,
      and the two keys differ whatever the fields are. */
  lemma ConjComparison(ops: Operators, w1: string, n1: nat, w2: string, n2: nat, reg: Registry)
    requires ExampleTables(ops) && Letters(w1) && n1 < 10 && Letters(w2) && n2 < 10
    ensures var k1 := ParamKey(Lower(w1), reg.next);
            var k2 := ParamKey(Lower(w2), reg.next + 1);
            var c := CompileFilter(ops, Conj(Simple(w1, n1), Simple(w2, n2)), reg);
            && c == Compiled(Ok(Some("(" + Lower(w1) + " = $" + k1 + ") AND (" + Lower(w2) + " = $" + k2 + ")")),
                             Registry(reg.next + 2, reg.params[k1 := Int(n1)][k2 := Int(n2)]))
            && k1 != k2
            && BoundAs(c.reg.params, k1, Int(n1)) && BoundAs(c.reg.params, k2, Int(n2))
  {
    ConjCompiles(ops, w1, n1, w2, n2, reg);
    ParamKeyNeighbours(Lower(w1), Lower(w2), reg.next);
  }

  /** The text and registry `(w1 = n1) AND (w2 = n2)` compiles to. */
  lemma ConjCompiles(ops: Operators, w1: string, n1: nat, w2: string, n2: nat, reg: Registry)
    requires ExampleTables(ops) && Letters(w1) && n1 < 10 && Letters(w2) && n2 < 10
    ensures var k1 := ParamKey(Lower(w1), reg.next);
            var k2 := ParamKey(Lower(w2), reg.next + 1);
            CompileFilter(ops, Conj(Simple(w1, n1), Simple(w2, n2)), reg) ==
            Compiled(Ok(Some("(" + Lower(w1) + " = $" + k1 + ") AND (" + Lower(w2) + " = $" + k2 + ")")),
                     Registry(reg.next + 2, reg.params[k1 := Int(n1)][k2 := Int(n2)]))
  {
    var f1 := Simple(w1, n1);
    var f2 := Simple(w2, n2);
    var k1 := ParamKey(Lower(w1), reg.next);
    var k2 := ParamKey(Lower(w2), reg.next + 1);
    var r1 := Registry(reg.next + 1, reg.params[k1 := Int(n1)]);
    var r2 := Registry(reg.next + 2, reg.params[k1 := Int(n1)][k2 := Int(n2)]);
    var t1 := "(" + Lower(w1) + " = $" + k1 + ")";
    var t2 := "(" + Lower(w2) + " = $" + k2 + ")";
    SimpleBare(w1, n1);
    SimpleBare(w2, n2);
    ConjSplits(ops, f1, f2, reg);
    WrappedComparison(ops, w1, n1, reg);
    WrappedComparison(ops, w2, n2, r1);
    AndStep(ops, InParens(f1), InParens(f2), NonBlank(Conj(f1, f2)), reg, t1, r1, t2, r2);
    ConjRegroup(Lower(w1), k1, Lower(w2), k2);
  }

  /** Two sides that both compile are joined by the localized AND. */
  lemma AndStep(ops: Operators, left: string, right: string, bound: nat, reg: Registry,
                t1: string, r1: Registry, t2: string, r2: Registry)
    requires ExampleTables(ops) && NonBlank(left) < bound && NonBlank(right) < bound
    requires CompileFilter(ops, left, reg) == Compiled(Ok(Some(t1)), r1)
    requires CompileFilter(ops, right, r1) == Compiled(Ok(Some(t2)), r2)
    ensures SplitStep(ops, "AND", left, right, bound, reg) == Compiled(Ok(Some(t1 + " AND " + t2)), r2)
  {
    AndSpaces(t1, t2);
  }

  lemma AndSpaces(t1: string, t2: string)
    ensures t1 + " " + "AND" + " " + t2 == t1 + " AND " + t2
  {
  }

  /** Two wrapped comparisons joined by AND. */
  lemma ConjRegroup(x1: string, k1: string, x2: string, k2: string)
    ensures ("(" + x1 + " = $" + k1 + ")") + " AND " + ("(" + x2 + " = $" + k2 + ")")
            == "(" + x1 + " = $" + k1 + ") AND (" + x2 + " = $" + k2 + ")"
  {
  }

  // ---------------------------------------------------------------------------
  // A field followed by NOT

  /** `u v = n` for a field u, a spelling v of NOT and a digit n. */
  function NegField(u: string, v: string, n: nat): string
    requires n < 10
  {
    u + " " + v + " = " + NatToString(n)
  }

  /** A spelling of NOT has three letters, the first an n. */
  lemma NotSpelling(v: string)
    requires EqualsI(v, NotWord)
    ensures |v| == 3 && Letters(v) && LowerChar(v[0]) == 'n'
  {
    LowerSpec(v);
    LowerSpec(NotWord);
  }

  /** The characters of `u v = n`. */
  lemma NegFieldShape(u: string, v: string, n: nat)
    requires Letters(u) && EqualsI(v, NotWord) && n < 10
    ensures var f := NegField(u, v, n);
            var q := |u| + 4;
            && |f| == |u| + 8
            && f[..q] == u + " " + v && f[q..q + 3] == " = " && f[q + 3..] == NatToString(n)
            && (forall k :: 0 <= k < |f| ==> f[k] != '(' && f[k] != ')')
            && (forall p :: 0 <= p < q && p != |u| ==> 'a' <= LowerChar(f[p]) <= 'z')
            && f[|u|] == ' ' && LowerChar(f[|u| + 1]) == 'n'
            && f[0] !in Blanks && f[|f| - 1] !in Blanks
  {
    var f := NegField(u, v, n);
    NotSpelling(v);
    forall k | 0 <= k < |f| ensures f[k] != '(' && f[k] != ')' {
      if k < |u| { assert f[k] == u[k]; }
      else if |u| < k < |u| + 4 { assert f[k] == v[k - |u| - 1]; }
    }
    forall p | 0 <= p < |u| + 4 && p != |u| ensures 'a' <= LowerChar(f[p]) <= 'z' {
      if p < |u| { assert f[p] == u[p]; }
      else { assert f[p] == v[p - |u| - 1]; }
    }
    assert f[0] == u[0];
  }

  /** The comparison operator of `u v = n` is found after the NOT. */
  lemma NegFieldOperator(ops: Operators, u: string, v: string, n: nat)
    requires ExampleTables(ops) && Letters(u) && EqualsI(v, NotWord) && n < 10
    ensures FirstOperator(ops, NegField(u, v, n), 0) == Some(Found(0, |u| + 4))
  {
    var f := NegField(u, v, n);
    NegFieldShape(u, v, n);
    IndexOfIByPrefix(f, " = ", |u| + 4);
    assert MatchAt(f, " = ", |u| + 4, true);
  }

  /** `u v` splits into the field u and a trailing NOT. */
  lemma NegSplit(u: string, v: string)
    requires Letters(u) && EqualsI(v, NotWord)
    ensures SplitNegation(u + " " + v) == (u, true)
  {
    var field := u + " " + v;
    NotSpelling(v);
    assert forall k :: 0 <= k < |u| ==> field[k] == u[k];
    IndexOfByFirstChar(field, " ", |u|);
    assert field[|u|..|u| + 1] == " ";
    assert field[..|u|] == u && field[|u| + 1..] == v;
    IndexOfByFirstChar(v, " ", |v|);
    assert Explode(" ", v) == [v];
    assert Explode(" ", field) == [u, v];
    assert Implode(" ", [u]) == u;
  }

  /** The pieces of `u v = n`: the lower-cased field with NOT and =, and the digit. */
  lemma NegFieldPrepare(ops: Operators, u: string, v: string, n: nat)
    requires ExampleTables(ops) && Letters(u) && EqualsI(v, NotWord) && n < 10
    ensures Prepare(ops, "=", NegField(u, v, n), |u| + 4, "", "") ==
            Prepared(Lower(u) + " " + NotWord + " =", Lower(u), NatToString(n), "")
  {
    var f := NegField(u, v, n);
    var d := NatToString(n);
    var q := |u| + 4;
    NegFieldShape(u, v, n);
    NotSpelling(v);
    var field := u + " " + v;
    assert field[0] == u[0] && field[|field| - 1] == v[2];
    TrimCharsNoEnds(field, Blanks);
    assert Trim(f[..q]) == field;
    NegSplit(u, v);
    assert ops.pad("=") == " = ";
    TrimCharsNoEnds(d, Blanks);
    assert Trim(f[q + 3..]) == d;
    DigitBalanced(n);
    var p := Prepare(ops, "=", f, q, "", "");
    assert p.name == Lower(u) && p.value == d && p.right == "";
    NegHead(Lower(u));
  }

  lemma NegHead(x: string)
    ensures Truthy("") + x + " " + NotWord + " " + "=" == x + " " + NotWord + " ="
  {
  }

  /** The condition for a negated field binds the digit under the field's next key. */
  lemma NegFieldCondition(ops: Operators, x: string, n: nat, reg: Registry)
    requires ExampleTables(ops) && n < 10
    ensures var key := ParamKey(x, reg.next);
            Condition(ops, "=", x + " " + NotWord + " =", x, NatToString(n), "", reg) ==
            Compiled(Ok(Some(x + " NOT = $" + key)), Registry(reg.next + 1, reg.params[key := Int(n)]))
  {
    var key := ParamKey(x, reg.next);
    SingleValueCondition(ops, "=", x + " " + NotWord + " =", x, NatToString(n), "", reg);
    CoerceNatText(n);
    NegRegroup(x, key);
  }

  lemma NegRegroup(x: string, key: string)
    ensures x + " " + NotWord + " =" + " $" + key + Truthy("") == x + " NOT = $" + key
  {
  }

  /** `u v = n` has nothing to split and no NOT prefix. */
  lemma NegFieldToComparisonPass(ops: Operators, u: string, v: string, n: nat, reg: Registry)
    requires ExampleTables(ops) && Letters(u) && EqualsI(v, NotWord) && n < 10
    ensures CompileFilter(ops, NegField(u, v, n), reg) == ComparisonPass(ops, NegField(u, v, n), reg)
  {
    var f := NegField(u, v, n);
    NegFieldShape(u, v, n);
    Entry(ops, f, reg);
    NoClosingNoSplit(f, |f|);
    NoOpeningNoNegation(f);
    ToComparisonPass(ops, f, reg);
  }

  /** `u NOT = n`, whatever the case of u and of NOT, compiles to
      `lower(u) NOT = $lower(u)<i>`: the trailing NOT of the field moves
      in front of the operator, and the digit is bound under the
      lower-cased field's key. */
  lemma NegFieldComparison(ops: Operators, u: string, v: string, n: nat, reg: Registry)
    requires ExampleTables(ops) && Letters(u) && EqualsI(v, NotWord) && n < 10
    ensures var key := ParamKey(Lower(u), reg.next);
            CompileFilter(ops, NegField(u, v, n), reg) ==
            Compiled(Ok(Some(Lower(u) + " NOT = $" + key)), Registry(reg.next + 1, reg.params[key := Int(n)]))
  {
    var f := NegField(u, v, n);
    NegFieldShape(u, v, n);
    NegFieldToComparisonPass(ops, u, v, n, reg);
    ComparisonPassBare(ops, f, reg);
    NegFieldOperator(ops, u, v, n);
    assert ops.comparison[0] == "=";
    NegFieldPrepare(ops, u, v, n);
    NegFieldCondition(ops, Lower(u), n, reg);
  }

  // ---------------------------------------------------------------------------
  // Concrete filters, compiled as a fresh table resource compiles its first
  // filter: the counter at 1 and no parameters bound yet

  /** The field `a` and its first key. */
  lemma FieldA()
    ensures Letters("a") && Lower("a") == "a" && ParamKey("a", 1) == "a1"
  {
  }

  lemma ExampleComparison(ops: Operators)
    requires ExampleTables(ops)
    ensures CompileFilter(ops, "a = 1", Registry(1, map[])) ==
            Compiled(Ok(Some("a = $a1")), Registry(2, map["a1" := Int(1)]))
  {
    FieldA();
    ComparisonText();
    SimpleComparison(ops, "a", 1, Registry(1, map[]));
  }

  lemma ComparisonText()
    ensures "a = 1" == Simple("a", 1)
    ensures "a" + " = $" + "a1" == "a = $a1"
  {
  }

  lemma ExampleNegation(ops: Operators)
    requires ExampleTables(ops)
    ensures CompileFilter(ops, "NOT (a = 1)", Registry(1, map[])) ==
            Compiled(Ok(Some("NOT(a = $a1)")), Registry(2, map["a1" := Int(1)]))
  {
    FieldA();
    NegationText();
    NegatedComparison(ops, "a", 1, Registry(1, map[]));
  }

  lemma NegationText()
    ensures "NOT (a = 1)" == "NOT " + InParens(Simple("a", 1))
    ensures "NOT(" + "a" + " = $" + "a1" + ")" == "NOT(a = $a1)"
  {
  }

  lemma ExampleConjunction(ops: Operators)
    requires ExampleTables(ops)
    ensures CompileFilter(ops, "(a = 1) AND (b = 2)", Registry(1, map[])) ==
            Compiled(Ok(Some("(a = $a1) AND (b = $b2)")), Registry(3, map["a1" := Int(1), "b2" := Int(2)]))
  {
    FieldA();
    ConjunctionText();
    ConjunctionOutput();
    ConjComparison(ops, "a", 1, "b", 2, Registry(1, map[]));
  }

  lemma ConjunctionText()
    ensures Letters("b") && Lower("b") == "b" && ParamKey("b", 2) == "b2"
    ensures "(a = 1) AND (b = 2)" == Conj(Simple("a", 1), Simple("b", 2))
  {
  }

  lemma ConjunctionOutput()
    ensures "(" + "a" + " = $" + "a1" + ") AND (" + "b" + " = $" + "b2" + ")" == "(a = $a1) AND (b = $b2)"
  {
  }

  lemma ExampleNegatedField(ops: Operators)
    requires ExampleTables(ops)
    ensures CompileFilter(ops, "Name not = 1", Registry(1, map[])) ==
            Compiled(Ok(Some("name NOT = $name1")), Registry(2, map["name1" := Int(1)]))
  {
    NegatedFieldText();
    NegFieldComparison(ops, "Name", "not", 1, Registry(1, map[]));
  }

  lemma NegatedFieldText()
    ensures Letters("Name") && Lower("Name") == "name" && EqualsI("not", NotWord)
    ensures "Name not = 1" == NegField("Name", "not", 1)
    ensures ParamKey("name", 1) == "name1"
    ensures "name" + " NOT = $" + "name1" == "name NOT = $name1"
  {
    LowerName();
    LowerNot();
  }

  lemma LowerName()
    ensures Letters("Name") && Lower("Name") == "name"
  {
    LowerSpec("Name");
  }

  lemma LowerNot()
    ensures EqualsI("not", NotWord)
  {
    LowerSpec("not");
    LowerSpec(NotWord);
  }
}
