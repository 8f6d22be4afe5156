/** Models of the PHP string built-ins the table resource is written with
    (PHP 7 behaviour, one char per byte, ASCII-only case mapping). */
module PhpStrings {

  datatype Option<+T> = None | Some(value: T)

  /** The characters PHP's trim() strips when no character list is given. */
  const Blanks: set<char> := {' ', '\t', '\n', '\r', 0 as char, 11 as char}

  predicate IsDigit(c: char) { '0' <= c <= '9' }

  /** strtolower on one character (ASCII only). */
  function LowerChar(c: char): char {
    if 'A' <= c <= 'Z' then (c as int + 32) as char else c
  }

  /** strtolower($s) */
  function Lower(s: string): (r: string)
    ensures |r| == |s|
  {
    if s == [] then [] else [LowerChar(s[0])] + Lower(s[1..])
  }

  /** strtolower maps each character on its own. */
  lemma {:induction false} LowerSpec(s: string)
    ensures forall k :: 0 <= k < |s| ==> Lower(s)[k] == LowerChar(s[k])
    decreases |s|
  {
    if s != [] {
      LowerSpec(s[1..]);
      forall k | 0 <= k < |s| ensures Lower(s)[k] == LowerChar(s[k]) {
        if k > 0 { assert Lower(s)[k] == Lower(s[1..])[k - 1]; }
      }
    }
  }

  /** strtolower leaves a text without capital letters as it is. */
  lemma LowerNoCapitals(s: string)
    requires forall k :: 0 <= k < |s| ==> !('A' <= s[k] <= 'Z')
    ensures Lower(s) == s
  {
    LowerSpec(s);
  }

  /** A lower-cased text has no capital letters left. */
  lemma LowerIdempotent(s: string)
    ensures Lower(Lower(s)) == Lower(s)
  {
    LowerSpec(s);
    LowerNoCapitals(Lower(s));
  }

  /** Case-insensitive equality, as strcasecmp(a, b) === 0. */
  predicate EqualsI(a: string, b: string) {
    Lower(a) == Lower(b)
  }

  /** stripos($s, $p) === 0 */
  predicate StartsWithI(s: string, p: string) {
    |p| <= |s| && EqualsI(s[..|p|], p)
  }

  // ---------------------------------------------------------------------------
  // trim

  /** Number of leading characters of s that belong to cs. */
  function LeadCount(s: string, cs: set<char>): (n: nat)
    ensures n <= |s|
  {
    if |s| > 0 && s[0] in cs then 1 + LeadCount(s[1..], cs) else 0
  }

  /** The leading run is exactly the characters from cs before the first one not in cs. */
  lemma {:induction false} LeadCountSpec(s: string, cs: set<char>)
    ensures forall k :: 0 <= k < LeadCount(s, cs) ==> s[k] in cs
    ensures LeadCount(s, cs) < |s| ==> s[LeadCount(s, cs)] !in cs
    decreases |s|
  {
    if |s| > 0 && s[0] in cs {
      var rest := s[1..];
      LeadCountSpec(rest, cs);
      forall k | 0 <= k < LeadCount(s, cs) ensures s[k] in cs {
        if k > 0 { assert s[k] == rest[k - 1]; }
      }
      if LeadCount(s, cs) < |s| {
        assert s[LeadCount(s, cs)] == rest[LeadCount(rest, cs)];
      }
    }
  }

  /** Number of trailing characters of s that belong to cs. */
  function TrailCount(s: string, cs: set<char>): (n: nat)
    ensures n <= |s|
  {
    if |s| > 0 && s[|s| - 1] in cs then 1 + TrailCount(s[..|s| - 1], cs) else 0
  }

  /** The trailing run is exactly the characters from cs after the last one not in cs. */
  lemma {:induction false} TrailCountSpec(s: string, cs: set<char>)
    ensures forall k :: |s| - TrailCount(s, cs) <= k < |s| ==> s[k] in cs
    ensures TrailCount(s, cs) < |s| ==> s[|s| - 1 - TrailCount(s, cs)] !in cs
    decreases |s|
  {
    if |s| > 0 && s[|s| - 1] in cs {
      var init := s[..|s| - 1];
      TrailCountSpec(init, cs);
      forall k | |s| - TrailCount(s, cs) <= k < |s| ensures s[k] in cs {
        if k < |s| - 1 { assert s[k] == init[k]; }
      }
      if TrailCount(s, cs) < |s| {
        assert s[|s| - 1 - TrailCount(s, cs)] == init[|init| - 1 - TrailCount(init, cs)];
      }
    }
  }

  /** trim($s, $chars): the middle of s once every leading and trailing
      character from cs is gone. */
  function TrimChars(s: string, cs: set<char>): (r: string)
    ensures |r| <= |s|
  {
    var l := LeadCount(s, cs);
    var t := s[l..];
    t[..|t| - TrailCount(t, cs)]
  }

  /** What trim leaves: no stripped character at either end, a slice of s
      after the leading run, and only stripped characters after it. */
  lemma TrimCharsSpec(s: string, cs: set<char>)
    ensures var r := TrimChars(s, cs);
            (r == "" || (r[0] !in cs && r[|r| - 1] !in cs)) &&
            LeadCount(s, cs) + |r| <= |s| &&
            r == s[LeadCount(s, cs)..LeadCount(s, cs) + |r|] &&
            forall k :: LeadCount(s, cs) + |r| <= k < |s| ==> s[k] in cs
  {
    TrimCharsSlice(s, cs);
    TrimCharsEnds(s, cs);
    TrimCharsTail(s, cs);
  }

  lemma TrimCharsSlice(s: string, cs: set<char>)
    ensures var r := TrimChars(s, cs);
            LeadCount(s, cs) + |r| <= |s| && r == s[LeadCount(s, cs)..LeadCount(s, cs) + |r|]
  {
    var l := LeadCount(s, cs);
    var t := s[l..];
    var r := t[..|t| - TrailCount(t, cs)];
    assert r == s[l..l + |r|];
  }

  lemma TrimCharsEnds(s: string, cs: set<char>)
    ensures var r := TrimChars(s, cs);
            r == "" || (r[0] !in cs && r[|r| - 1] !in cs)
  {
    var l := LeadCount(s, cs);
    var t := s[l..];
    var m := TrailCount(t, cs);
    var r := t[..|t| - m];
    LeadCountSpec(s, cs);
    TrailCountSpec(t, cs);
    if r != "" {
      assert r[0] == t[0] && r[|r| - 1] == t[|t| - 1 - m];
    }
  }

  lemma TrimCharsTail(s: string, cs: set<char>)
    ensures var r := TrimChars(s, cs);
            forall k :: LeadCount(s, cs) + |r| <= k < |s| ==> s[k] in cs
  {
    var l := LeadCount(s, cs);
    var t := s[l..];
    var m := TrailCount(t, cs);
    var r := t[..|t| - m];
    TrailCountSpec(t, cs);
    forall k | l + |r| <= k < |s| ensures s[k] in cs {
      assert s[k] == t[k - l];
    }
  }

  /** A text with no stripped character at either end is left as it is. */
  lemma TrimCharsNoEnds(s: string, cs: set<char>)
    requires s == "" || (s[0] !in cs && s[|s| - 1] !in cs)
    ensures TrimChars(s, cs) == s
  {
    assert LeadCount(s, cs) == 0;
    assert s[0..] == s;
    assert TrailCount(s, cs) == 0;
  }

  /** trim($s) */
  function Trim(s: string): string {
    TrimChars(s, Blanks)
  }

  // ---------------------------------------------------------------------------
  // Searching

  predicate Matches(a: string, b: string, ci: bool) {
    if ci then EqualsI(a, b) else a == b
  }

  predicate MatchAt(s: string, pat: string, p: nat, ci: bool) {
    p + |pat| <= |s| && Matches(s[p..p + |pat|], pat, ci)
  }

  /** The first position at or after `from` where pat occurs in s. */
  function FindFrom(s: string, pat: string, from: nat, ci: bool): (r: Option<nat>)
    decreases |s| - from
    ensures r.Some? ==> from <= r.value && MatchAt(s, pat, r.value, ci)
    ensures r.Some? ==> forall p :: from <= p < r.value ==> !MatchAt(s, pat, p, ci)
    ensures r.None? ==> forall p :: from <= p ==> !MatchAt(s, pat, p, ci)
  {
    if from + |pat| > |s| then None
    else if MatchAt(s, pat, from, ci) then Some(from)
    else FindFrom(s, pat, from + 1, ci)
  }

  /** strpos($s, $pat) (false is None; an empty needle gives false in PHP 7). */
  function IndexOf(s: string, pat: string): Option<nat> {
    if pat == "" then None else FindFrom(s, pat, 0, false)
  }

  /** stripos($s, $pat) */
  function IndexOfI(s: string, pat: string): Option<nat> {
    if pat == "" then None else FindFrom(s, pat, 0, true)
  }

  /** Where stripos finds the pattern, the text there equals it up to case. */
  lemma FoundMatchI(s: string, pat: string, pos: nat)
    requires IndexOfI(s, pat) == Some(pos)
    ensures pos + |pat| <= |s|
    ensures EqualsI(s[pos..pos + |pat|], pat)
  {
    assert MatchAt(s, pat, pos, true);
  }

  /** Where the pattern's first character does not occur before q and the
      pattern occurs at q, strpos finds q; where it does not occur at all,
      strpos finds nothing. */
  lemma IndexOfByFirstChar(s: string, pat: string, q: nat)
    requires pat != ""
    requires forall k :: 0 <= k < q && k < |s| ==> s[k] != pat[0]
    ensures MatchAt(s, pat, q, false) ==> IndexOf(s, pat) == Some(q)
    ensures q >= |s| ==> IndexOf(s, pat) == None
  {
    forall p: nat | p < q && p < |s| ensures !MatchAt(s, pat, p, false) {
      assert s[p] != pat[0];
      if p + |pat| <= |s| {
        assert s[p..p + |pat|][0] == s[p];
      }
    }
  }

  /** substr_count($s, $c) for a one-character needle. */
  function CountChar(s: string, c: char): nat {
    if s == [] then 0 else (if s[0] == c then 1 else 0) + CountChar(s[1..], c)
  }

  /** A difference, up to case, in either of the first two characters of
      the pattern rules out a match there. */
  lemma NoMatchI(s: string, pat: string, p: nat)
    requires |pat| >= 2 && p + |pat| <= |s|
    requires LowerChar(s[p]) != LowerChar(pat[0]) || LowerChar(s[p + 1]) != LowerChar(pat[1])
    ensures !MatchAt(s, pat, p, true)
  {
    var a := s[p..p + |pat|];
    LowerSpec(a);
    LowerSpec(pat);
    assert a[0] == s[p] && a[1] == s[p + 1];
  }

  /** stripos located by the first two characters of the pattern: when no
      position before q starts like the pattern, a match at q is the one
      found, and with no room left after q nothing is found. */
  lemma IndexOfIByPrefix(s: string, pat: string, q: nat)
    requires |pat| >= 2
    requires forall p :: 0 <= p < q && p + |pat| <= |s| ==>
               LowerChar(s[p]) != LowerChar(pat[0]) || LowerChar(s[p + 1]) != LowerChar(pat[1])
    ensures MatchAt(s, pat, q, true) ==> IndexOfI(s, pat) == Some(q)
    ensures q + |pat| > |s| ==> IndexOfI(s, pat) == None
  {
    forall p: nat | p < q && p + |pat| <= |s| ensures !MatchAt(s, pat, p, true) {
      NoMatchI(s, pat, p);
    }
  }

  /** str_ireplace changes nothing where the pattern occurs nowhere. */
  lemma IReplaceNotFound(s: string, pat: string, rep: string)
    requires IndexOfI(s, pat) == None && pat != ""
    ensures IReplace(s, pat, rep) == s
  {
    IReplaceNoMatch(s, pat, rep);
  }

  lemma {:induction false} IReplaceNoMatch(s: string, pat: string, rep: string)
    requires pat != ""
    requires forall p: nat :: !MatchAt(s, pat, p, true)
    ensures IReplace(s, pat, rep) == s
    decreases |s|
  {
    if |s| >= |pat| {
      assert !MatchAt(s, pat, 0, true);
      assert s[0..|pat|] == s[..|pat|];
      forall p: nat ensures !MatchAt(s[1..], pat, p, true) {
        assert !MatchAt(s, pat, p + 1, true);
        if p + |pat| <= |s[1..]| {
          assert s[1..][p..p + |pat|] == s[p + 1..p + 1 + |pat|];
        }
      }
      IReplaceNoMatch(s[1..], pat, rep);
      assert [s[0]] + s[1..] == s;
    }
  }

  // ---------------------------------------------------------------------------
  // explode / implode

  /** explode($d, $s) for a non-empty delimiter. */
  function Explode(d: string, s: string): (parts: seq<string>)
    requires d != ""
    ensures |parts| >= 1
    decreases |s|
  {
    match IndexOf(s, d)
    case None => [s]
    case Some(p) => [s[..p]] + Explode(d, s[p + |d|..])
  }

  /** explode($s, $s): the text splits into two empty pieces around itself. */
  lemma ExplodeSelf(s: string)
    requires s != ""
    ensures Explode(s, s) == ["", ""]
  {
    assert MatchAt(s, s, 0, false) by { assert s[0..|s|] == s; }
    assert IndexOf(s, s) == Some(0);
    assert s[|s|..] == "" && s[..0] == "";
    assert IndexOf("", s) == None;
  }

  /** explode on a one-character delimiter the text does not hold gives
      the text back whole. */
  lemma ExplodeNone(d: string, s: string)
    requires |d| == 1 && forall k :: 0 <= k < |s| ==> s[k] != d[0]
    ensures Explode(d, s) == [s]
  {
    IndexOfByFirstChar(s, d, |s|);
  }

  /** explode on a one-character delimiter splits off the text before its
      first occurrence. */
  lemma ExplodeFirst(d: string, a: string, b: string)
    requires |d| == 1 && forall k :: 0 <= k < |a| ==> a[k] != d[0]
    ensures Explode(d, a + d + b) == [a] + Explode(d, b)
  {
    var s := a + d + b;
    assert forall k :: 0 <= k < |a| ==> s[k] == a[k];
    assert s[|a|..|a| + 1] == d;
    IndexOfByFirstChar(s, d, |a|);
    assert s[..|a|] == a && s[|a| + 1..] == b;
  }

  /** implode($sep, $parts) */
  function Implode(sep: string, parts: seq<string>): string {
    if parts == [] then ""
    else if |parts| == 1 then parts[0]
    else parts[0] + sep + Implode(sep, parts[1..])
  }

  /** Joining the pieces of an explode with the same delimiter gives back the input. */
  lemma {:induction false} ImplodeExplode(d: string, s: string)
    requires d != ""
    ensures Implode(d, Explode(d, s)) == s
    decreases |s|
  {
    match IndexOf(s, d)
    case None =>
    case Some(p) =>
      var rest := s[p + |d|..];
      ImplodeExplode(d, rest);
      assert s == s[..p] + d + rest;
  }

  /** array_map($f, $xs) on a list. */
  function MapSeq<T, U>(xs: seq<T>, f: T -> U): (ys: seq<U>)
    ensures |ys| == |xs|
    ensures forall k :: 0 <= k < |xs| ==> ys[k] == f(xs[k])
  {
    seq(|xs|, k requires 0 <= k < |xs| => f(xs[k]))
  }

  /** Mapping a list is mapping all but its last element, then the last. */
  lemma MapSeqSnoc<T, U>(xs: seq<T>, f: T -> U)
    requires xs != []
    ensures MapSeq(xs, f) == MapSeq(xs[..|xs| - 1], f) + [f(xs[|xs| - 1])]
  {
    var a := MapSeq(xs, f);
    var b := MapSeq(xs[..|xs| - 1], f) + [f(xs[|xs| - 1])];
    forall k | 0 <= k < |xs| ensures a[k] == b[k] {
      if k < |xs| - 1 { assert xs[..|xs| - 1][k] == xs[k]; }
    }
  }

  /** Joining all pieces is joining all but the last, the separator and the last. */
  lemma {:induction false} ImplodeSnoc(sep: string, parts: seq<string>)
    requires |parts| >= 2
    ensures Implode(sep, parts) == Implode(sep, parts[..|parts| - 1]) + sep + parts[|parts| - 1]
  {
    if |parts| > 2 {
      ImplodeSnoc(sep, parts[1..]);
      assert parts[1..][..|parts| - 2] == parts[..|parts| - 1][1..];
    }
  }

  function MapTrim(parts: seq<string>): (r: seq<string>)
    ensures |r| == |parts|
    ensures forall k :: 0 <= k < |parts| ==> r[k] == Trim(parts[k])
  {
    if parts == [] then [] else [Trim(parts[0])] + MapTrim(parts[1..])
  }

  // ---------------------------------------------------------------------------
  // str_ireplace, str_repeat, preg_replace('/\)/', '', ...)

  /** str_ireplace($pat, $rep, $s): every non-overlapping case-insensitive
      occurrence of pat, scanning left to right, becomes rep. */
  function IReplace(s: string, pat: string, rep: string): string
    decreases |s|
  {
    if pat == "" || |s| < |pat| then s
    else if EqualsI(s[..|pat|], pat) then rep + IReplace(s[|pat|..], pat, rep)
    else [s[0]] + IReplace(s[1..], pat, rep)
  }

  /** str_repeat($c, $n) for n >= 0. */
  function Repeat(c: char, n: nat): (r: string)
    ensures |r| == n && forall k :: 0 <= k < n ==> r[k] == c
  {
    if n == 0 then [] else [c] + Repeat(c, n - 1)
  }

  /** substr_count over a concatenation adds the counts of its parts. */
  lemma {:induction false} CountCharConcat(a: string, b: string, c: char)
    ensures CountChar(a + b, c) == CountChar(a, c) + CountChar(b, c)
    decreases |a|
  {
    if a != [] {
      assert (a + b)[0] == a[0];
      assert (a + b)[1..] == a[1..] + b;
      CountCharConcat(a[1..], b, c);
    } else {
      assert a + b == b;
    }
  }

  /** n copies of c hold n occurrences of c and none of any other character. */
  lemma {:induction false} CountCharRepeat(c: char, d: char, n: nat)
    ensures CountChar(Repeat(c, n), d) == if c == d then n else 0
  {
    if n > 0 {
      assert Repeat(c, n)[1..] == Repeat(c, n - 1);
      CountCharRepeat(c, d, n - 1);
    }
  }

  /** preg_replace on a single character with a limit: the first `limit`
      occurrences of c are deleted; a negative limit deletes all of them. */
  function RemoveChar(s: string, c: char, limit: int): string
    decreases |s|
  {
    if s == [] || limit == 0 then s
    else if s[0] == c then RemoveChar(s[1..], c, if limit < 0 then limit else limit - 1)
    else [s[0]] + RemoveChar(s[1..], c, limit)
  }

  /** preg_replace with a limit deletes as many occurrences of c as the
      limit allows, and every one of them when the limit is negative. */
  lemma {:induction false} RemoveCharCount(s: string, c: char, limit: int)
    ensures CountChar(RemoveChar(s, c, limit), c) ==
            if limit < 0 then 0
            else if CountChar(s, c) <= limit then 0
            else CountChar(s, c) - limit
    decreases |s|
  {
    if s != [] && limit != 0 {
      if s[0] == c {
        RemoveCharCount(s[1..], c, if limit < 0 then limit else limit - 1);
      } else {
        RemoveCharCount(s[1..], c, limit);
        var r := RemoveChar(s[1..], c, limit);
        assert ([s[0]] + r)[1..] == r;
      }
    }
  }

  // ---------------------------------------------------------------------------
  // Integers as decimal text

  function DigitChar(d: nat): (c: char)
    requires d < 10
    ensures IsDigit(c)
  {
    ('0' as int + d) as char
  }

  /** (string)$n for a non-negative integer. */
  function NatToString(n: nat): (s: string)
    ensures |s| > 0
    ensures forall k :: 0 <= k < |s| ==> IsDigit(s[k])
  {
    if n < 10 then [DigitChar(n)] else NatToString(n / 10) + [DigitChar(n % 10)]
  }

  /** The value of a string of decimal digits. */
  function DigitsValue(s: string): nat
    requires forall k :: 0 <= k < |s| ==> IsDigit(s[k])
  {
    if s == [] then 0
    else
      assert IsDigit(s[|s| - 1]);
      DigitsValue(s[..|s| - 1]) * 10 + (s[|s| - 1] as int - '0' as int)
  }

  /** Reading back the decimal text of n gives n. */
  lemma {:induction false} DigitsValueOfNatToString(n: nat)
    ensures DigitsValue(NatToString(n)) == n
  {
    if n >= 10 {
      var s := NatToString(n);
      DigitsValueOfNatToString(n / 10);
      assert s[..|s| - 1] == NatToString(n / 10);
    }
  }

  /** The decimal text of n ends in the digit n % 10. */
  lemma NatToStringLast(n: nat)
    ensures var s := NatToString(n); s[|s| - 1] == DigitChar(n % 10)
  {
  }

  /** trim drops a blank in front of a text whose ends are not blank. */
  lemma TrimLeadingBlank(t: string)
    requires t != "" && t[0] !in Blanks && t[|t| - 1] !in Blanks
    ensures Trim(" " + t) == t
  {
    var s := " " + t;
    assert s[1..] == t;
    assert LeadCount(t, Blanks) == 0;
    assert LeadCount(s, Blanks) == 1;
    assert TrailCount(t, Blanks) == 0;
    assert t[..|t|] == t;
  }

  /** Distinct numbers have distinct decimal texts. */
  lemma NatToStringInjective(m: nat, n: nat)
    requires NatToString(m) == NatToString(n)
    ensures m == n
  {
    DigitsValueOfNatToString(m);
    DigitsValueOfNatToString(n);
  }

  // ---------------------------------------------------------------------------
  // Counting the characters trim would keep (used as a termination measure)

  function NonBlank(s: string): nat {
    if s == [] then 0 else (if s[0] in Blanks then 0 else 1) + NonBlank(s[1..])
  }

  lemma {:induction false} NonBlankConcat(a: string, b: string)
    ensures NonBlank(a + b) == NonBlank(a) + NonBlank(b)
  {
    if a == [] {
      assert a + b == b;
    } else {
      assert (a + b)[0] == a[0] && (a + b)[1..] == a[1..] + b;
      NonBlankConcat(a[1..], b);
    }
  }

  lemma {:induction false} NonBlankAllBlank(s: string)
    requires forall k :: 0 <= k < |s| ==> s[k] in Blanks
    ensures NonBlank(s) == 0
  {
    if s != [] {
      NonBlankAllBlank(s[1..]);
    }
  }

  /** Counting non-blank characters on both sides of a cut. */
  lemma NonBlankSplit(s: string, i: nat)
    requires i <= |s|
    ensures NonBlank(s) == NonBlank(s[..i]) + NonBlank(s[i..])
  {
    assert s == s[..i] + s[i..];
    NonBlankConcat(s[..i], s[i..]);
  }

  /** Trimming removes only blanks. */
  lemma NonBlankTrim(s: string)
    ensures NonBlank(Trim(s)) == NonBlank(s)
  {
    var l := LeadCount(s, Blanks);
    var t := s[l..];
    var n := |t| - TrailCount(t, Blanks);
    assert Trim(s) == t[..n];
    LeadCountSpec(s, Blanks);
    TrailCountSpec(t, Blanks);
    NonBlankSplit(s, l);
    NonBlankAllBlank(s[..l]);
    NonBlankSplit(t, n);
    NonBlankAllBlank(t[n..]);
  }

  lemma {:induction false} NonBlankEqualsI(a: string, b: string)
    requires EqualsI(a, b)
    ensures NonBlank(a) == NonBlank(b)
  {
    if a != [] {
      assert Lower(a)[0] == Lower(b)[0];
      assert Lower(a[1..]) == Lower(a)[1..] && Lower(b[1..]) == Lower(b)[1..];
      NonBlankEqualsI(a[1..], b[1..]);
    }
  }

  /** str_ireplace keeps the non-blank count when the replacement has as many
      non-blank characters as the pattern. */
  lemma {:induction false} NonBlankIReplace(s: string, pat: string, rep: string)
    requires NonBlank(pat) == NonBlank(rep)
    ensures NonBlank(IReplace(s, pat, rep)) == NonBlank(s)
    decreases |s|
  {
    if pat == "" || |s| < |pat| {
    } else if EqualsI(s[..|pat|], pat) {
      NonBlankIReplace(s[|pat|..], pat, rep);
      NonBlankConcat(rep, IReplace(s[|pat|..], pat, rep));
      NonBlankEqualsI(s[..|pat|], pat);
      assert s == s[..|pat|] + s[|pat|..];
      NonBlankConcat(s[..|pat|], s[|pat|..]);
    } else {
      NonBlankIReplace(s[1..], pat, rep);
      NonBlankConcat([s[0]], IReplace(s[1..], pat, rep));
    }
  }

  /** str_ireplace keeps a non-blank first character when the replacement starts
      with one. */
  lemma IReplaceFirst(s: string, pat: string, rep: string)
    requires s == "" || s[0] !in Blanks
    requires rep != "" && rep[0] !in Blanks
    ensures var t := IReplace(s, pat, rep); t == "" || t[0] !in Blanks
  {
  }

  /** The three pieces around a found occurrence. */
  lemma NonBlankAround(s: string, p: nat, n: nat)
    requires p + n <= |s|
    ensures NonBlank(s) == NonBlank(s[..p]) + NonBlank(s[p..p + n]) + NonBlank(s[p + n..])
  {
    assert s == s[..p] + s[p..p + n] + s[p + n..];
    NonBlankConcat(s[..p] + s[p..p + n], s[p + n..]);
    NonBlankConcat(s[..p], s[p..p + n]);
  }
}
