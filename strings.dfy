/**
 * The few Python `str` operations the scripts rely on, restricted to ASCII:
 * `upper()`, `strip()`, `replace(old, new)`, the `in` test and `endswith`.
 */
module Strings {

  // ---------------------------------------------------------------------
  // Characters
  // ---------------------------------------------------------------------

  predicate IsLower(c: char) {
    'a' <= c <= 'z'
  }

  /** ASCII upper-casing: only 'a'..'z' change. */
  function UpperChar(c: char): (u: char)
    ensures !IsLower(u)
    ensures IsLower(c) ==> u as int == c as int - 32
    ensures !IsLower(c) ==> u == c
  {
    if IsLower(c) then (c as int - 32) as char else c
  }

  /**
   * The ASCII characters for which Python's `str.isspace()` holds, which are
   * exactly those `str.strip()` removes by default: tab, line feed, vertical
   * tab, form feed, carriage return, the four separators 0x1C..0x1F, space.
   */
  predicate IsSpace(c: char)
    ensures IsSpace(c) <==> c in "\t\n\U{b}\U{c}\r\U{1c}\U{1d}\U{1e}\U{1f} "
  {
    ('\t' <= c <= '\r') || ('\U{1c}' <= c <= ' ')
  }

  predicate AllSpace(s: string) {
    forall i :: 0 <= i < |s| ==> IsSpace(s[i])
  }

  // ---------------------------------------------------------------------
  // upper()
  // ---------------------------------------------------------------------

  function Upper(s: string): (u: string)
    ensures |u| == |s| && NoLower(u)
  {
    seq(|s|, i requires 0 <= i < |s| => UpperChar(s[i]))
  }

  predicate NoLower(s: string) {
    forall i :: 0 <= i < |s| ==> !IsLower(s[i])
  }

  lemma UpperResult(s: string)
    ensures NoLower(s) ==> Upper(s) == s
  {
  }

  lemma UpperIdempotent(s: string)
    ensures Upper(Upper(s)) == Upper(s)
  {
    UpperResult(s);
    UpperResult(Upper(s));
  }

  lemma UpperAppend(a: string, b: string)
    ensures Upper(a + b) == Upper(a) + Upper(b)
  {
  }

  lemma UpperOfSpace(w: string)
    requires AllSpace(w)
    ensures Upper(w) == w
  {
    UpperResult(w);
  }

  // ---------------------------------------------------------------------
  // strip()
  // ---------------------------------------------------------------------

  /** The number of whitespace characters `s` starts with. */
  function LeadingSpaces(s: string): (n: nat)
    ensures n <= |s| && forall i :: 0 <= i < n ==> IsSpace(s[i])
    ensures n == |s| || !IsSpace(s[n])
    decreases |s|
  {
    if |s| > 0 && IsSpace(s[0]) then
      var t := s[1..];
      assert forall i :: 1 <= i < |s| ==> s[i] == t[i - 1];
      1 + LeadingSpaces(t)
    else 0
  }

  /** The number of whitespace characters `s` ends with. */
  function TrailingSpaces(s: string): (n: nat)
    ensures n <= |s| && forall i :: |s| - n <= i < |s| ==> IsSpace(s[i])
    ensures n == |s| || !IsSpace(s[|s| - n - 1])
    decreases |s|
  {
    if |s| > 0 && IsSpace(s[|s| - 1]) then
      var t := s[..|s| - 1];
      assert forall i :: 0 <= i < |t| ==> s[i] == t[i];
      1 + TrailingSpaces(t)
    else 0
  }

  /** Drops leading whitespace: what remains is a suffix that starts with a non-space. */
  function StripLeft(s: string): (r: string)
    ensures |r| <= |s| && r == s[|s| - |r|..]
    ensures AllSpace(s[..|s| - |r|])
    ensures r == [] || !IsSpace(r[0])
  {
    s[LeadingSpaces(s)..]
  }

  /** Drops trailing whitespace: what remains is a prefix that ends with a non-space. */
  function StripRight(s: string): (r: string)
    ensures |r| <= |s| && r == s[..|r|]
    ensures AllSpace(s[|r|..])
    ensures r == [] || !IsSpace(r[|r| - 1])
  {
    s[..|s| - TrailingSpaces(s)]
  }

  function Strip(s: string): (t: string)
    ensures |t| <= |s| && Trimmed(t)
  {
    StripRight(StripLeft(s))
  }

  /** A string with no whitespace at either end. */
  predicate Trimmed(x: string) {
    x == [] || (!IsSpace(x[0]) && !IsSpace(x[|x| - 1]))
  }

  lemma StripLeftOfSpace(w: string, y: string)
    requires AllSpace(w) && (y == [] || !IsSpace(y[0]))
    ensures StripLeft(w + y) == y
  {
    var s := w + y;
    assert forall i :: 0 <= i < |w| ==> s[i] == w[i];
    if y != [] {
      assert s[|w|] == y[0];
    }
    assert LeadingSpaces(s) == |w|;
    assert s[|w|..] == y;
  }

  lemma StripRightOfSpace(y: string, w: string)
    requires AllSpace(w) && (y == [] || !IsSpace(y[|y| - 1]))
    ensures StripRight(y + w) == y
  {
    var s := y + w;
    assert forall i :: |y| <= i < |s| ==> s[i] == w[i - |y|];
    if y != [] {
      assert s[|y| - 1] == y[|y| - 1];
    }
    assert TrailingSpaces(s) == |w|;
    assert s[..|y|] == y;
  }

  /** `strip()` keeps exactly the trimmed core between two runs of whitespace. */
  lemma StripOfPadded(w1: string, x: string, w2: string)
    requires AllSpace(w1) && AllSpace(w2) && Trimmed(x)
    ensures Strip(w1 + x + w2) == x
  {
    if x == [] {
      assert w1 + x + w2 == (w1 + w2) + [];
      StripLeftOfSpace(w1 + w2, []);
    } else {
      assert w1 + x + w2 == w1 + (x + w2);
      StripLeftOfSpace(w1, x + w2);
      StripRightOfSpace(x, w2);
    }
  }

  /** Every string is whitespace, then its stripped form, then whitespace. */
  lemma StripSplit(s: string) returns (w1: string, w2: string)
    ensures AllSpace(w1) && AllSpace(w2) && Trimmed(Strip(s))
    ensures s == w1 + Strip(s) + w2
  {
    var l := StripLeft(s);
    var r := StripRight(l);
    w1, w2 := s[..|s| - |l|], l[|r|..];
    SplitAt(s, |s| - |l|);
    SplitAt(l, |r|);
    assert s == w1 + l && l == r + w2;
    assert w1 + (r + w2) == w1 + r + w2;
    StripTrimmed(s);
  }

  lemma StripTrimmed(s: string)
    ensures Trimmed(Strip(s))
  {
    var l := StripLeft(s);
    var r := StripRight(l);
    if r != [] {
      assert r[0] == l[0];
    }
  }

  lemma SplitAt(s: string, k: nat)
    requires k <= |s|
    ensures s == s[..k] + s[k..]
  {
  }

  lemma StripIgnoresPadding(w1: string, s: string, w2: string)
    requires AllSpace(w1) && AllSpace(w2)
    ensures Strip(w1 + s + w2) == Strip(s)
  {
    var l, r := StripSplit(s);
    assert w1 + s + w2 == (w1 + l) + Strip(s) + (r + w2);
    StripOfPadded(w1 + l, Strip(s), r + w2);
  }

  // ---------------------------------------------------------------------
  // The `in` test for substrings
  // ---------------------------------------------------------------------

  /** `pat` occurs in `s` starting at index `i`. */
  predicate OccursAt(s: string, pat: string, i: nat) {
    i + |pat| <= |s| && s[i..i + |pat|] == pat
  }

  /** Python's `pat in s`. */
  predicate Contains(s: string, pat: string)
    decreases |s|
  {
    |pat| <= |s| && (s[..|pat|] == pat || Contains(s[1..], pat))
  }

  lemma {:induction false} ContainsIffOccurs(s: string, pat: string)
    ensures Contains(s, pat) <==> exists i: nat :: OccursAt(s, pat, i)
    decreases |s|
  {
    if |pat| <= |s| && s[..|pat|] != pat {
      ContainsIffOccurs(s[1..], pat);
      if Contains(s[1..], pat) {
        var i: nat :| OccursAt(s[1..], pat, i);
        assert s[i + 1..i + 1 + |pat|] == s[1..][i..i + |pat|];
        assert OccursAt(s, pat, i + 1);
      }
      if i: nat :| OccursAt(s, pat, i) {
        assert i != 0;
        assert s[1..][i - 1..i - 1 + |pat|] == s[i..i + |pat|];
        assert OccursAt(s[1..], pat, i - 1);
      }
    } else if |pat| <= |s| {
      assert OccursAt(s, pat, 0);
    }
  }

  /** `pat` is absent from `s` when one of its characters never occurs in `s`. */
  lemma NotContainsByChar(s: string, pat: string, k: nat)
    requires k < |pat|
    requires forall i :: 0 <= i < |s| ==> s[i] != pat[k]
    ensures !Contains(s, pat)
  {
    ContainsIffOccurs(s, pat);
    forall i: nat ensures !OccursAt(s, pat, i) {
      if i + |pat| <= |s| {
        assert s[i..i + |pat|][k] == s[i + k];
      }
    }
  }

  /** `pat` is absent from `s` when two adjacent characters of it never occur adjacently in `s`. */
  lemma NotContainsByPair(s: string, pat: string, k: nat)
    requires k + 1 < |pat|
    requires forall i :: 0 <= i < |s| - 1 ==> !(s[i] == pat[k] && s[i + 1] == pat[k + 1])
    ensures !Contains(s, pat)
  {
    ContainsIffOccurs(s, pat);
    forall i: nat ensures !OccursAt(s, pat, i) {
      if i + |pat| <= |s| {
        assert s[i..i + |pat|][k] == s[i + k];
        assert s[i..i + |pat|][k + 1] == s[i + k + 1];
      }
    }
  }

  // ---------------------------------------------------------------------
  // replace(old, new)
  // ---------------------------------------------------------------------

  /**
   * Python's `s.replace(pat, rep)`: scanning left to right, every occurrence
   * of `pat` that does not overlap an earlier replaced one becomes `rep`.
   * The scripts only ever replace non-empty patterns.
   */
  function Replace(s: string, pat: string, rep: string): string
    requires |pat| > 0
    decreases |s|
  {
    if |s| < |pat| then s
    else if s[..|pat|] == pat then rep + Replace(s[|pat|..], pat, rep)
    else [s[0]] + Replace(s[1..], pat, rep)
  }

  /** Replacing a pattern that does not occur changes nothing. */
  lemma {:induction false} ReplaceAbsent(s: string, pat: string, rep: string)
    requires |pat| > 0 && !Contains(s, pat)
    ensures Replace(s, pat, rep) == s
    decreases |s|
  {
    if |s| >= |pat| {
      ReplaceAbsent(s[1..], pat, rep);
      assert s == [s[0]] + s[1..];
    }
  }

  /** The result is made of characters of `s` and characters of `rep` only. */
  lemma {:induction false} ReplaceChars(s: string, pat: string, rep: string)
    requires |pat| > 0
    ensures forall c :: c in Replace(s, pat, rep) ==> c in s || c in rep
    decreases |s|
  {
    if |s| < |pat| {
    } else if s[..|pat|] == pat {
      ReplaceChars(s[|pat|..], pat, rep);
      forall c | c in s[|pat|..] ensures c in s {
        var j :| 0 <= j < |s[|pat|..]| && s[|pat|..][j] == c;
        assert s[|pat| + j] == c;
      }
    } else {
      ReplaceChars(s[1..], pat, rep);
      forall c | c in s[1..] ensures c in s {
        var j :| 0 <= j < |s[1..]| && s[1..][j] == c;
        assert s[1 + j] == c;
      }
    }
  }

  /** A replacement at least as long as the pattern never shortens the string. */
  lemma {:induction false} ReplaceLonger(s: string, pat: string, rep: string)
    requires 0 < |pat| <= |rep|
    ensures |Replace(s, pat, rep)| >= |s|
    decreases |s|
  {
    if |s| < |pat| {
    } else if s[..|pat|] == pat {
      ReplaceLonger(s[|pat|..], pat, rep);
    } else {
      ReplaceLonger(s[1..], pat, rep);
    }
  }

  /** A replacement no longer than the pattern never lengthens the string. */
  lemma {:induction false} ReplaceShorter(s: string, pat: string, rep: string)
    requires 0 < |pat| && |rep| <= |pat|
    ensures |Replace(s, pat, rep)| <= |s|
    decreases |s|
  {
    if |s| < |pat| {
    } else if s[..|pat|] == pat {
      ReplaceShorter(s[|pat|..], pat, rep);
    } else {
      ReplaceShorter(s[1..], pat, rep);
    }
  }

  /** A short non-empty `a` cannot start an occurrence that reaches into `b`. */
  lemma NoStraddle(a: string, b: string, pat: string)
    requires 0 < |a| < |pat| <= |a| + |b|
    requires a[|a| - 1] !in pat || b[0] !in pat
    ensures (a + b)[..|pat|] != pat
  {
    var s := a + b;
    assert s[..|pat|][|a| - 1] == a[|a| - 1];
    assert s[..|pat|][|a|] == b[0];
  }

  /**
   * Replacing distributes over `a + b` when no occurrence of `pat` can
   * straddle the boundary: the last character of `a` or the first of `b` is
   * not one of the pattern's characters.
   */
  lemma {:induction false} ReplaceAppend(a: string, b: string, pat: string, rep: string)
    requires |pat| > 0
    requires a == [] || b == [] || a[|a| - 1] !in pat || b[0] !in pat
    ensures Replace(a + b, pat, rep) == Replace(a, pat, rep) + Replace(b, pat, rep)
    decreases |a|
  {
    var s := a + b;
    if a == [] {
      assert s == b;
    } else if b == [] {
      assert s == a;
    } else if |s| < |pat| {
    } else if |a| < |pat| {
      NoStraddle(a, b, pat);
      assert s[1..] == a[1..] + b;
      ReplaceAppend(a[1..], b, pat, rep);
    } else if a[..|pat|] == pat {
      assert s[..|pat|] == a[..|pat|];
      assert s[|pat|..] == a[|pat|..] + b;
      ReplaceAppend(a[|pat|..], b, pat, rep);
    } else {
      assert s[..|pat|] == a[..|pat|];
      assert s[1..] == a[1..] + b;
      ReplaceAppend(a[1..], b, pat, rep);
    }
  }

  /**
   * When no occurrence of `pat` starts before index `k`, the first `k`
   * characters are copied as they are.
   */
  lemma {:induction false} ReplaceSkip(s: string, pat: string, rep: string, k: nat)
    requires |pat| > 0 && k <= |s|
    requires forall i :: 0 <= i < k ==> s[i] != pat[0]
    ensures Replace(s, pat, rep) == s[..k] + Replace(s[k..], pat, rep)
    decreases k
  {
    if k == 0 {
      assert s[k..] == s;
    } else if |s| < |pat| {
      assert s[..k] + s[k..] == s;
    } else {
      var t := s[1..];
      assert s[..|pat|][0] == s[0];
      assert Replace(s, pat, rep) == [s[0]] + Replace(t, pat, rep);
      ReplaceSkip(t, pat, rep, k - 1);
      assert s[..k] == [s[0]] + t[..k - 1];
      assert t[k - 1..] == s[k..];
    }
  }

  /** A whole occurrence of the pattern at the front becomes the replacement. */
  lemma ReplaceFront(pat: string, rest: string, rep: string)
    requires |pat| > 0
    ensures Replace(pat + rest, pat, rep) == rep + Replace(rest, pat, rep)
  {
    assert (pat + rest)[..|pat|] == pat;
    assert (pat + rest)[|pat|..] == rest;
  }

  /** A single occurrence, preceded and followed by text that cannot start another, is the only change. */
  lemma ReplaceOnce(p: string, pat: string, q: string, rep: string)
    requires |pat| > 0
    requires forall i :: 0 <= i < |p| ==> p[i] != pat[0]
    requires forall i :: 0 <= i < |q| ==> q[i] != pat[0]
    ensures Replace(p + pat + q, pat, rep) == p + rep + q
  {
    var s := p + pat + q;
    ReplaceSkip(s, pat, rep, |p|);
    assert s[..|p|] == p;
    assert s[|p|..] == pat + q;
    ReplaceFront(pat, q, rep);
    NotContainsByChar(q, pat, 0);
    ReplaceAbsent(q, pat, rep);
  }

  // ---------------------------------------------------------------------
  // endswith
  // ---------------------------------------------------------------------

  predicate EndsWith(s: string, suffix: string) {
    |suffix| <= |s| && s[|s| - |suffix|..] == suffix
  }

  /** `s.endswith(suffix)` holds exactly when `s` is something followed by `suffix`. */
  lemma EndsWithIff(s: string, suffix: string)
    ensures EndsWith(s, suffix) <==> exists p :: s == p + suffix
  {
    if EndsWith(s, suffix) {
      assert s == s[..|s| - |suffix|] + suffix;
    }
    if exists p :: s == p + suffix {
      var p :| s == p + suffix;
      assert s[|p|..] == suffix;
    }
  }
}
