/**
 String operations the controller relies on from the .NET base library,
 written out: ordinal `String.Replace`, ordinal `String.Contains`,
 `String.IsNullOrWhiteSpace`, and decimal formatting of a positive index.
 */
module Text {

  /** `pat` occurs in `s` starting at index `i`. */
  predicate MatchAt(s: string, pat: string, i: int) {
    0 <= i && i + |pat| <= |s| && s[i..i + |pat|] == pat
  }

  /** Ordinal substring test (`String.Contains`). */
  predicate Occurs(s: string, pat: string) {
    exists i | 0 <= i <= |s| - |pat| :: MatchAt(s, pat, i)
  }

  /** No occurrence of `pat` in `s` starts before index `n`. */
  ghost predicate NoMatchBefore(s: string, pat: string, n: int) {
    forall i :: 0 <= i < n ==> !MatchAt(s, pat, i)
  }

  /**
   Ordinal `String.Replace(pat, rep)`: scans left to right and replaces every
   non-overlapping occurrence of `pat`; after a replacement the scan resumes
   behind the replaced occurrence. An empty `pat` is rejected by .NET.
   */
  function ReplaceAll(s: string, pat: string, rep: string): string
    requires |pat| > 0
    decreases |s|
  {
    if |s| < |pat| then s
    else if s[..|pat|] == pat then rep + ReplaceAll(s[|pat|..], pat, rep)
    else [s[0]] + ReplaceAll(s[1..], pat, rep)
  }

  /** One step of the scan at a position where the pattern does not start. */
  lemma ReplaceAllStep(s: string, pat: string, rep: string)
    requires |pat| > 0 && |s| > 0
    requires !MatchAt(s, pat, 0)
    ensures ReplaceAll(s, pat, rep) == [s[0]] + ReplaceAll(s[1..], pat, rep)
  {
    if |s| < |pat| {
      assert ReplaceAll(s[1..], pat, rep) == s[1..];
      assert s == [s[0]] + s[1..];
    }
  }

  /** Dropping a first character keeps "no match before" one position earlier. */
  lemma NoMatchBeforeTail(a: string, b: string, pat: string)
    requires |a| > 0
    requires NoMatchBefore(a + b, pat, |a|)
    ensures NoMatchBefore(a[1..] + b, pat, |a| - 1)
  {
    var s := a + b;
    var t := a[1..] + b;
    assert t == s[1..];
    forall i | 0 <= i < |a| - 1
      ensures !MatchAt(t, pat, i)
    {
      assert !MatchAt(s, pat, i + 1);
      if i + |pat| <= |t| {
        assert t[i..i + |pat|] == s[i + 1..i + 1 + |pat|];
      }
    }
  }

  /** Text in front of the first occurrence is copied unchanged. */
  lemma {:induction false} ReplaceAllSkip(a: string, b: string, pat: string, rep: string)
    requires |pat| > 0
    requires NoMatchBefore(a + b, pat, |a|)
    ensures ReplaceAll(a + b, pat, rep) == a + ReplaceAll(b, pat, rep)
    decreases |a|
  {
    if |a| == 0 {
      assert a + b == b;
    } else {
      var s := a + b;
      assert !MatchAt(s, pat, 0);
      ReplaceAllStep(s, pat, rep);
      NoMatchBeforeTail(a, b, pat);
      assert s[1..] == a[1..] + b;
      ReplaceAllSkip(a[1..], b, pat, rep);
      assert a == [a[0]] + a[1..];
    }
  }

  /** A text without the pattern comes back unchanged. */
  lemma {:induction false} ReplaceAllNoOccurrence(s: string, pat: string, rep: string)
    requires |pat| > 0
    requires !Occurs(s, pat)
    ensures ReplaceAll(s, pat, rep) == s
  {
    assert s + [] == s;
    ReplaceAllSkip(s, [], pat, rep);
  }

  /**
   The first occurrence is replaced, everything in front of it is kept, and
   the scan continues on the text behind it.
   */
  lemma {:induction false} ReplaceAllFirstOccurrence(s: string, pat: string, rep: string, i: int)
    requires |pat| > 0
    requires MatchAt(s, pat, i) && NoMatchBefore(s, pat, i)
    ensures ReplaceAll(s, pat, rep) == s[..i] + rep + ReplaceAll(s[i + |pat|..], pat, rep)
  {
    var a, b := s[..i], s[i..];
    assert a + b == s;
    ReplaceAllSkip(a, b, pat, rep);
    assert b[..|pat|] == pat;
    assert b[|pat|..] == s[i + |pat|..];
    assert ReplaceAll(b, pat, rep) == rep + ReplaceAll(b[|pat|..], pat, rep);
  }

  /** Replacing by a shorter (longer) text never lengthens (shortens) the result. */
  lemma {:induction false} ReplaceAllLength(s: string, pat: string, rep: string)
    requires |pat| > 0
    ensures |rep| <= |pat| ==> |ReplaceAll(s, pat, rep)| <= |s|
    ensures |rep| >= |pat| ==> |ReplaceAll(s, pat, rep)| >= |s|
    decreases |s|
  {
    if |s| < |pat| {
    } else if s[..|pat|] == pat {
      ReplaceAllLength(s[|pat|..], pat, rep);
    } else {
      ReplaceAllLength(s[1..], pat, rep);
    }
  }

  /** An occurrence of a longer pattern strictly shortens the text. */
  lemma {:induction false} ReplaceAllShrinks(s: string, pat: string, rep: string)
    requires |rep| < |pat|
    requires Occurs(s, pat)
    ensures |ReplaceAll(s, pat, rep)| < |s|
    decreases |s|
  {
    var i :| 0 <= i <= |s| - |pat| && MatchAt(s, pat, i);
    if s[..|pat|] == pat {
      ReplaceAllLength(s[|pat|..], pat, rep);
    } else {
      assert i > 0;
      assert s[1..][i - 1..i - 1 + |pat|] == s[i..i + |pat|];
      assert MatchAt(s[1..], pat, i - 1);
      ReplaceAllShrinks(s[1..], pat, rep);
    }
  }

  /** With a replacement different from the pattern, the text is unchanged exactly when the pattern is absent. */
  lemma {:induction false} ReplaceAllIdentity(s: string, pat: string, rep: string)
    requires |pat| > 0 && pat != rep
    ensures ReplaceAll(s, pat, rep) == s <==> !Occurs(s, pat)
    decreases |s|
  {
    if !Occurs(s, pat) {
      ReplaceAllNoOccurrence(s, pat, rep);
    } else {
      var i :| 0 <= i <= |s| - |pat| && MatchAt(s, pat, i);
      if s[..|pat|] == pat {
        var t := s[|pat|..];
        ReplaceAllLength(t, pat, rep);
        assert s == pat + t;
        if |rep| == |pat| {
          assert ReplaceAll(s, pat, rep)[..|pat|] == rep;
        }
      } else {
        assert i > 0;
        assert s[1..][i - 1..i - 1 + |pat|] == s[i..i + |pat|];
        assert MatchAt(s[1..], pat, i - 1);
        ReplaceAllIdentity(s[1..], pat, rep);
        assert s == [s[0]] + s[1..];
      }
    }
  }

  /** The first occurrence of `pat` in `s`. */
  lemma FirstMatch(s: string, pat: string) returns (i: int)
    requires Occurs(s, pat)
    ensures MatchAt(s, pat, i) && NoMatchBefore(s, pat, i)
  {
    var k :| 0 <= k <= |s| - |pat| && MatchAt(s, pat, k);
    i := 0;
    while !MatchAt(s, pat, i)
      invariant 0 <= i <= k && NoMatchBefore(s, pat, i)
      decreases k - i
    {
      i := i + 1;
    }
  }

  /** Placed at offset `j` of `a`, `b` agrees with `a` wherever the two overlap. */
  predicate AgreeAt(a: string, b: string, j: int)
    requires 0 <= j <= |a|
  {
    var m := if |a| - j < |b| then |a| - j else |b|;
    a[j..j + m] == b[..m]
  }

  /**
   No occurrence of `q` can overlap an inserted `rep`: `rep` cannot begin
   strictly inside `q`, and `q` cannot begin inside `rep`.
   */
  predicate CannotOverlap(q: string, rep: string) {
    && (forall j | 1 <= j < |q| :: !AgreeAt(q, rep, j))
    && (forall k | 0 <= k < |rep| :: !AgreeAt(rep, q, k))
  }

  /** One differing character within the overlap rules out agreement at `j`. */
  lemma Disagree(a: string, b: string, j: int, d: int)
    requires 0 <= j && 0 <= d && j + d < |a| && d < |b|
    requires a[j + d] != b[d]
    ensures !AgreeAt(a, b, j)
  {
    var m := if |a| - j < |b| then |a| - j else |b|;
    assert a[j..j + m][d] == a[j + d];
  }

  /** A slice of a slice is a slice of the whole. */
  lemma SliceOfSlice(s: string, lo: int, hi: int, a: int, b: int)
    requires 0 <= lo <= hi <= |s| && 0 <= a <= b <= hi - lo
    ensures s[lo..hi][a..b] == s[lo + a..lo + b]
  {
    var x, y := s[lo..hi][a..b], s[lo + a..lo + b];
    assert forall k | 0 <= k < b - a :: x[k] == y[k];
  }

  /** An occurrence of `q` cannot start before an inserted `rep` and run into it. */
  lemma NotAcrossStart(t: string, q: string, rep: string, p: int, i: int)
    requires 0 <= p < i && i + |rep| <= |t| && t[i..i + |rep|] == rep
    requires i < p + |q| <= |t|
    requires !AgreeAt(q, rep, i - p)
    ensures !MatchAt(t, q, p)
  {
    var j := i - p;
    var m := if |q| - j < |rep| then |q| - j else |rep|;
    SliceOfSlice(t, i, i + |rep|, 0, m);
    SliceOfSlice(t, p, p + |q|, j, j + m);
  }

  /** An occurrence of `q` cannot start inside an inserted `rep`. */
  lemma NotFromInside(t: string, q: string, rep: string, p: int, i: int)
    requires 0 <= i <= p < i + |rep| && i + |rep| <= |t| && t[i..i + |rep|] == rep
    requires !AgreeAt(rep, q, p - i)
    ensures !MatchAt(t, q, p)
  {
    var k := p - i;
    var m := if |rep| - k < |q| then |rep| - k else |q|;
    SliceOfSlice(t, i, i + |rep|, k, k + m);
    if p + |q| <= |t| {
      SliceOfSlice(t, p, p + |q|, 0, m);
    }
  }

  /** A `rep` inserted behind a prefix that does not start a `q` cannot complete one. */
  lemma NoMatchBeforeInsert(t: string, pre: string, rep: string, x: string, q: string)
    requires t == pre + rep + x
    requires |pre| > 0 && CannotOverlap(q, rep)
    requires |pre| >= |q| ==> pre[..|q|] != q
    ensures !MatchAt(t, q, 0)
  {
    if |q| <= |pre| {
      assert t[..|q|] == pre[..|q|];
    } else if |q| <= |t| {
      assert t[|pre|..|pre| + |rep|] == rep;
      NotAcrossStart(t, q, rep, 0, |pre|);
    }
  }

  /** The first character followed by a prefix of the rest is a prefix of the whole. */
  lemma HeadAndPrefix(s: string, i: int, q: string)
    requires 0 <= i < |s| && !MatchAt(s, q, 0)
    ensures var pre := [s[0]] + s[1..][..i];
      |pre| == 1 + i && (|pre| >= |q| ==> pre[..|q|] != q)
  {
    var pre := [s[0]] + s[1..][..i];
    assert pre == s[..1 + i];
    if |pre| >= |q| {
      assert pre[..|q|] == s[..|q|];
    }
  }

  /** The first character of `s` followed by a rest that is `s` up to `i`, then `rep`, then anything, does not start with `q`. */
  lemma NoMatchAtStartOfSplice(s: string, i: int, rep: string, x: string, r: string, q: string)
    requires 0 <= i < |s| && !MatchAt(s, q, 0) && CannotOverlap(q, rep)
    requires r == s[1..][..i] + rep + x
    ensures !MatchAt([s[0]] + r, q, 0)
  {
    var pre := [s[0]] + s[1..][..i];
    assert [s[0]] + r == pre + rep + x;
    HeadAndPrefix(s, i, q);
    NoMatchBeforeInsert([s[0]] + r, pre, rep, x, q);
  }

  /**
   A text that does not start with `q` still does not once `pat` is replaced
   by a `rep` that `q` cannot overlap everywhere behind its first character.
   */
  lemma NoMatchAtStartAfterStep(s: string, pat: string, rep: string, q: string)
    requires |pat| > 0 && |s| > 0 && !MatchAt(s, q, 0) && CannotOverlap(q, rep)
    ensures !MatchAt([s[0]] + ReplaceAll(s[1..], pat, rep), q, 0)
  {
    var tail := s[1..];
    if !Occurs(tail, pat) {
      ReplaceAllNoOccurrence(tail, pat, rep);
      assert [s[0]] + tail == s;
    } else {
      var i := FirstMatch(tail, pat);
      ReplaceAllFirstOccurrence(tail, pat, rep, i);
      NoMatchAtStartOfSplice(s, i, rep, ReplaceAll(tail[i + |pat|..], pat, rep), ReplaceAll(tail, pat, rep), q);
    }
  }

  /** Gluing texts without `q` around a `rep` it cannot overlap creates no occurrence of `q`. */
  lemma Glue(pre: string, rep: string, tail: string, q: string)
    requires |q| > 0 && CannotOverlap(q, rep)
    requires !Occurs(pre, q) && !Occurs(tail, q)
    ensures !Occurs(pre + rep + tail, q)
  {
    var t := pre + rep + tail;
    var i := |pre|;
    assert t[i..i + |rep|] == rep;
    forall p | 0 <= p <= |t| - |q| ensures !MatchAt(t, q, p) {
      if p + |q| <= i {
        assert t[p..p + |q|] == pre[p..p + |q|];
        assert !MatchAt(pre, q, p);
      } else if p < i {
        NotAcrossStart(t, q, rep, p, i);
      } else if p < i + |rep| {
        NotFromInside(t, q, rep, p, i);
      } else {
        var p' := p - i - |rep|;
        assert t[p..p + |q|] == tail[p'..p' + |q|];
        assert !MatchAt(tail, q, p');
      }
    }
  }

  /** A text without `q` has no `q` in any slice. */
  lemma SliceAvoids(s: string, q: string, lo: int, hi: int)
    requires 0 <= lo <= hi <= |s|
    requires !Occurs(s, q)
    ensures !Occurs(s[lo..hi], q)
  {
    forall p | 0 <= p <= hi - lo - |q| ensures !MatchAt(s[lo..hi], q, p) {
      SliceOfSlice(s, lo, hi, p, p + |q|);
      assert !MatchAt(s, q, lo + p);
    }
  }

  /**
   Replacing `pat` by a text that no occurrence of `q` can overlap leaves no
   occurrence of `q`, when `q` is `pat` itself or did not occur before.
   */
  lemma {:induction false} ReplaceAllAvoids(s: string, pat: string, rep: string, q: string)
    requires |pat| > 0 && |q| > 0
    requires CannotOverlap(q, rep)
    requires q == pat || !Occurs(s, q)
    ensures !Occurs(ReplaceAll(s, pat, rep), q)
    decreases |s|
  {
    if !Occurs(s, pat) {
      ReplaceAllNoOccurrence(s, pat, rep);
    } else {
      var i := FirstMatch(s, pat);
      ReplaceAllFirstOccurrence(s, pat, rep, i);
      var rest := s[i + |pat|..];
      if q == pat {
        forall p | 0 <= p <= i - |q| ensures !MatchAt(s[..i], q, p) {
          assert s[..i][p..p + |q|] == s[p..p + |q|];
          assert !MatchAt(s, pat, p);
        }
      } else {
        SliceAvoids(s, q, 0, i);
        SliceAvoids(s, q, i + |pat|, |s|);
        assert rest == s[i + |pat|..|s|];
      }
      ReplaceAllAvoids(rest, pat, rep, q);
      Glue(s[..i], rep, ReplaceAll(rest, pat, rep), q);
    }
  }

  /** `Char.IsWhiteSpace`: the Unicode space separators, line and paragraph separators, U+0009..U+000D and U+0085. */
  predicate IsWhiteSpace(c: char) {
    var n := c as int;
    || n == 0x20 || (0x09 <= n <= 0x0D) || n == 0x85 || n == 0xA0 || n == 0x1680
    || (0x2000 <= n <= 0x200A) || n == 0x2028 || n == 0x2029 || n == 0x202F
    || n == 0x205F || n == 0x3000
  }

  /** `String.IsNullOrWhiteSpace` on a non-null string: empty or only white space. */
  predicate IsBlank(s: string) {
    forall i | 0 <= i < |s| :: IsWhiteSpace(s[i])
  }

  predicate IsDigit(c: char) {
    '0' <= c <= '9'
  }

  predicate AllDigits(s: string) {
    forall i | 0 <= i < |s| :: IsDigit(s[i])
  }

  /** Decimal rendering of a natural number without leading zeros, as `String.Format("{0}", n)` prints it. */
  function NatToString(n: nat): (r: string)
    ensures |r| > 0 && AllDigits(r)
    ensures r[0] == '0' ==> n == 0
  {
    if n < 10 then ["0123456789"[n]]
    else NatToString(n / 10) + ["0123456789"[n % 10]]
  }

  /** Reads a string of decimal digits back as a number. */
  function ParseNat(s: string): nat
    requires AllDigits(s)
  {
    if |s| == 0 then 0
    else ParseNat(s[..|s| - 1]) * 10 + (s[|s| - 1] as int - '0' as int)
  }

  lemma {:induction false} ParseNatToString(n: nat)
    ensures ParseNat(NatToString(n)) == n
  {
    if n >= 10 {
      var s := NatToString(n);
      assert s[..|s| - 1] == NatToString(n / 10);
      ParseNatToString(n / 10);
    }
  }

  /** Length of the leading run of decimal digits. */
  function DigitRun(s: string): (n: nat)
    ensures n <= |s| && AllDigits(s[..n])
    ensures n < |s| ==> !IsDigit(s[n])
  {
    if |s| == 0 || !IsDigit(s[0]) then 0
    else
      var m := DigitRun(s[1..]);
      assert s[..m + 1] == [s[0]] + s[1..][..m];
      m + 1
  }

  lemma {:induction false} DigitRunOfDigits(a: string, b: string)
    requires AllDigits(a)
    requires |b| > 0 && !IsDigit(b[0])
    ensures DigitRun(a + b) == |a|
    decreases |a|
  {
    if |a| > 0 {
      assert (a + b)[1..] == a[1..] + b;
      DigitRunOfDigits(a[1..], b);
    }
  }
}
