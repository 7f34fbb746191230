/**
 * The parts of Go's `strings` package that query-bench relies on:
 * `TrimSpace`, `HasSuffix`, `TrimSuffix` and `ReplaceAll`.
 * Strings are sequences of Unicode code points.
 */
module Strings {

  /** Go's `unicode.IsSpace`: the characters with the Unicode White_Space property. */
  predicate IsSpace(c: char) {
    || c == '\t' || c == '\n' || c == '\U{0B}' || c == '\U{0C}' || c == '\r'
    || c == ' ' || c == '\U{85}' || c == '\U{A0}' || c == '\U{1680}'
    || ('\U{2000}' <= c <= '\U{200A}')
    || c == '\U{2028}' || c == '\U{2029}' || c == '\U{202F}' || c == '\U{205F}'
    || c == '\U{3000}'
  }

  predicate AllSpace(s: string) {
    forall i :: 0 <= i < |s| ==> IsSpace(s[i])
  }

  /** Neither end of `t` is white space: what `TrimSpace` returns. */
  predicate Trimmed(t: string) {
    t == [] || (!IsSpace(t[0]) && !IsSpace(t[|t| - 1]))
  }

  /** The index of the first non-space at or after `from`, or `|s|` if there is none. */
  function SkipSpace(s: string, from: nat): (k: nat)
    requires from <= |s|
    ensures from <= k <= |s|
    ensures forall i :: from <= i < k ==> IsSpace(s[i])
    ensures k == |s| || !IsSpace(s[k])
    decreases |s| - from
  {
    if from == |s| || !IsSpace(s[from]) then from else SkipSpace(s, from + 1)
  }

  /** The index just past the last non-space before `to`, or 0 if there is none. */
  function SkipSpaceBack(s: string, to: nat): (k: nat)
    requires to <= |s|
    ensures k <= to
    ensures forall i :: k <= i < to ==> IsSpace(s[i])
    ensures k == 0 || !IsSpace(s[k - 1])
  {
    if to == 0 || !IsSpace(s[to - 1]) then to else SkipSpaceBack(s, to - 1)
  }

  /**
   * Go's `strings.TrimSpace`: the text between the leading and the trailing
   * white space of `s`.
   */
  function TrimSpace(s: string): (r: string)
    ensures Trimmed(r)
    ensures |r| <= |s|
    ensures r == [] <==> AllSpace(s)
  {
    var lo := SkipSpace(s, 0);
    if lo == |s| then [] else s[lo..SkipSpaceBack(s, |s|)]
  }

  /**
   * `TrimSpace` is determined by its meaning: whenever `s` is white space, then
   * a text whose ends are not white space, then white space, the result is that text.
   */
  lemma TrimSpaceUnique(s: string, a: string, t: string, b: string)
    requires s == a + t + b
    requires AllSpace(a) && AllSpace(b) && Trimmed(t)
    ensures TrimSpace(s) == t
  {
    if t == [] {
      assert AllSpace(s) by {
        forall i | 0 <= i < |s| ensures IsSpace(s[i]) {
          if i < |a| { assert s[i] == a[i]; } else { assert s[i] == b[i - |a|]; }
        }
      }
    } else {
      var lo, hi := SkipSpace(s, 0), SkipSpaceBack(s, |s|);
      assert s[|a|] == t[0];
      assert s[|a| + |t| - 1] == t[|t| - 1];
      assert lo == |a| && hi == |a| + |t|;
      assert s[lo..hi] == t;
    }
  }

  /** Conversely, `TrimSpace(s)` is always such a text: only white space around it is dropped. */
  lemma TrimSpaceSplit(s: string) returns (a: string, b: string)
    ensures s == a + TrimSpace(s) + b
    ensures AllSpace(a) && AllSpace(b)
  {
    var lo := SkipSpace(s, 0);
    if lo == |s| {
      a, b := s, [];
    } else {
      var hi := SkipSpaceBack(s, |s|);
      a, b := s[..lo], s[hi..];
      assert s == s[..lo] + s[lo..hi] + s[hi..];
    }
  }

  /** Trimming twice is trimming once. */
  lemma TrimSpaceIdempotent(s: string)
    ensures TrimSpace(TrimSpace(s)) == TrimSpace(s)
  {
    var t := TrimSpace(s);
    assert t == [] + t + [];
    TrimSpaceUnique(t, [], t, []);
  }

  /** Go's `strings.HasSuffix`: `s` is some text followed by `suffix`. */
  predicate HasSuffix(s: string, suffix: string)
    ensures HasSuffix(s, suffix) <==> |suffix| <= |s| && s == s[..|s| - |suffix|] + suffix
  {
    |suffix| <= |s| && s[|s| - |suffix|..] == suffix
  }

  /** Go's `strings.TrimSuffix`: removes one copy of `suffix` when `s` ends with it. */
  function TrimSuffix(s: string, suffix: string): (r: string)
    ensures HasSuffix(s, suffix) ==> r + suffix == s
    ensures !HasSuffix(s, suffix) ==> r == s
  {
    if HasSuffix(s, suffix) then s[..|s| - |suffix|] else s
  }

  /** `pat` occurs in `s` at position `i`. */
  predicate MatchAt(s: string, pat: string, i: int) {
    0 <= i && i + |pat| <= |s| && s[i..i + |pat|] == pat
  }

  predicate Occurs(s: string, pat: string) {
    exists i :: 0 <= i <= |s| - |pat| && MatchAt(s, pat, i)
  }

  /**
   * Go's `strings.ReplaceAll` for a non-empty pattern: the matches of `pat` are
   * found left to right, each search resuming after the previous match, and
   * each is replaced by `rep`.
   */
  function ReplaceAll(s: string, pat: string, rep: string): string
    requires pat != []
    decreases |s|
  {
    if |s| < |pat| then s
    else if s[..|pat|] == pat then rep + ReplaceAll(s[|pat|..], pat, rep)
    else [s[0]] + ReplaceAll(s[1..], pat, rep)
  }

  /** The number of replacements `ReplaceAll` makes. */
  function Count(s: string, pat: string): nat
    requires pat != []
    decreases |s|
  {
    if |s| < |pat| then 0
    else if s[..|pat|] == pat then 1 + Count(s[|pat|..], pat)
    else Count(s[1..], pat)
  }

  /** Each replacement changes the length by `|rep| - |pat|`. */
  lemma {:induction false} ReplaceAllLength(s: string, pat: string, rep: string)
    requires pat != []
    ensures |ReplaceAll(s, pat, rep)| == |s| + Count(s, pat) * (|rep| - |pat|)
    decreases |s|
  {
    if |s| < |pat| {
    } else if s[..|pat|] == pat {
      var t := s[|pat|..];
      ReplaceAllLength(t, pat, rep);
      assert |ReplaceAll(s, pat, rep)| == |rep| + |ReplaceAll(t, pat, rep)|;
      assert Count(s, pat) == 1 + Count(t, pat);
      MulSucc(Count(t, pat), |rep| - |pat|);
    } else {
      var t := s[1..];
      ReplaceAllLength(t, pat, rep);
      assert |ReplaceAll(s, pat, rep)| == 1 + |ReplaceAll(t, pat, rep)|;
      assert Count(s, pat) == Count(t, pat);
    }
  }

  lemma MulSucc(c: int, d: int)
    ensures (1 + c) * d == d + c * d
  {
  }

  lemma ProductNonZero(c: int, d: int)
    requires c > 0 && d != 0
    ensures c * d != 0
  {
    if d > 0 { assert c * d >= d; } else { assert c * d <= d; }
  }

  /** A match that does not start at 0 is a match one position earlier in `s[1..]`. */
  lemma MatchShift(s: string, pat: string, i: int)
    requires MatchAt(s, pat, i) && i > 0
    ensures MatchAt(s[1..], pat, i - 1)
  {
    assert s[1..][i - 1..i - 1 + |pat|] == s[i..i + |pat|];
  }

  /**
   * Where the left-to-right scan of `ReplaceAll` finds its first match; a
   * value with no room for the pattern after it means there is none.
   */
  function FirstMatch(s: string, pat: string): (i: nat)
    requires pat != []
    ensures i <= |s|
    decreases |s|
  {
    if |s| < |pat| then |s|
    else if s[..|pat|] == pat then 0
    else 1 + FirstMatch(s[1..], pat)
  }

  /**
   * `FirstMatch` is the leftmost occurrence: the pattern is there when it
   * fits, it is nowhere before, and when it does not fit it does not occur.
   */
  lemma {:induction false} FirstMatchLeftmost(s: string, pat: string)
    requires pat != []
    ensures FirstMatch(s, pat) + |pat| <= |s| ==> MatchAt(s, pat, FirstMatch(s, pat))
    ensures forall j :: 0 <= j < FirstMatch(s, pat) ==> !MatchAt(s, pat, j)
    ensures FirstMatch(s, pat) + |pat| > |s| ==> !Occurs(s, pat)
    decreases |s|
  {
    if |s| < |pat| {
    } else if s[..|pat|] == pat {
      assert MatchAt(s, pat, 0);
    } else {
      var t := s[1..];
      FirstMatchLeftmost(t, pat);
      var i := FirstMatch(s, pat);
      assert i == 1 + FirstMatch(t, pat);
      if i + |pat| <= |s| {
        assert s[i..i + |pat|] == t[i - 1..i - 1 + |pat|];
      }
      forall j | 0 <= j < i ensures !MatchAt(s, pat, j) {
        if j > 0 && MatchAt(s, pat, j) {
          MatchShift(s, pat, j);
        }
      }
    }
  }

  /**
   * Which matches are replaced: the leftmost one, then the matches of what
   * follows it. So the text before the first match is kept, and a match
   * never overlaps the one before it.
   */
  lemma ReplaceAllLeftmost(s: string, pat: string, rep: string)
    requires pat != [] && FirstMatch(s, pat) + |pat| <= |s|
    ensures ReplaceAll(s, pat, rep) ==
            s[..FirstMatch(s, pat)] + rep + ReplaceAll(s[FirstMatch(s, pat) + |pat|..], pat, rep)
  {
    var i := FirstMatch(s, pat);
    ReplaceAllKeepsPrefix(s, pat, rep, i);
    FirstMatchLeftmost(s, pat);
    assert s[i..][..|pat|] == pat;
    assert s[i..][|pat|..] == s[i + |pat|..];
  }

  /** The text before the first match comes through `ReplaceAll` unchanged. */
  lemma {:induction false} ReplaceAllKeepsPrefix(s: string, pat: string, rep: string, i: nat)
    requires pat != [] && i <= FirstMatch(s, pat)
    ensures ReplaceAll(s, pat, rep) == s[..i] + ReplaceAll(s[i..], pat, rep)
    decreases i
  {
    if i > 0 && |s| < |pat| {
      assert s == s[..i] + s[i..];
    } else if i > 0 {
      var t := s[1..];
      assert FirstMatch(s, pat) == 1 + FirstMatch(t, pat);
      ReplaceAllKeepsPrefix(t, pat, rep, i - 1);
      DropFirst(s, i, 0);
      ReplaceAllSkips(s, pat, rep);
      Regroup([s[0]], t[..i - 1], ReplaceAll(s[i..], pat, rep), s[..i]);
    }
  }

  lemma Regroup(c: string, head: string, rest: string, pre: string)
    requires c + head == pre
    ensures c + (head + rest) == pre + rest
  {
  }

  /** Without a match at its start, `ReplaceAll` keeps the first character and goes on. */
  lemma ReplaceAllSkips(s: string, pat: string, rep: string)
    requires pat != [] && |pat| <= |s| && s[..|pat|] != pat
    ensures ReplaceAll(s, pat, rep) == [s[0]] + ReplaceAll(s[1..], pat, rep)
  {
  }

  /** Slicing `s[1..]` is slicing `s` one position later. */
  lemma DropFirst(s: string, i: nat, n: nat)
    requires 0 < i && i + n <= |s|
    ensures [s[0]] + s[1..][..i - 1] == s[..i]
    ensures s[1..][i - 1 + n..] == s[i + n..]
  {
  }

  /** `ReplaceAll` replaces something exactly when the pattern occurs. */
  lemma {:induction false} CountPositiveIffOccurs(s: string, pat: string)
    requires pat != []
    ensures Count(s, pat) > 0 <==> Occurs(s, pat)
    decreases |s|
  {
    if |s| < |pat| {
    } else if s[..|pat|] == pat {
      assert MatchAt(s, pat, 0);
    } else {
      CountPositiveIffOccurs(s[1..], pat);
      if Occurs(s, pat) {
        var i :| MatchAt(s, pat, i);
        assert i != 0;
        MatchShift(s, pat, i);
      }
      if Occurs(s[1..], pat) {
        var j :| 0 <= j <= |s[1..]| - |pat| && MatchAt(s[1..], pat, j);
        assert s[j + 1..j + 1 + |pat|] == s[1..][j..j + |pat|];
        assert MatchAt(s, pat, j + 1);
      }
    }
  }

  /** With no occurrence of the pattern, `ReplaceAll` returns its input unchanged. */
  lemma {:induction false} ReplaceAllAbsent(s: string, pat: string, rep: string)
    requires pat != []
    requires !Occurs(s, pat)
    ensures ReplaceAll(s, pat, rep) == s
    decreases |s|
  {
    if |s| >= |pat| {
      assert !MatchAt(s, pat, 0);
      if Occurs(s[1..], pat) {
        var j :| 0 <= j <= |s[1..]| - |pat| && MatchAt(s[1..], pat, j);
        assert s[j + 1..j + 1 + |pat|] == s[1..][j..j + |pat|];
        assert MatchAt(s, pat, j + 1);
      }
      ReplaceAllAbsent(s[1..], pat, rep);
    }
  }

  /** Replacing a pattern by itself changes nothing. */
  lemma {:induction false} ReplaceAllSelf(s: string, pat: string)
    requires pat != []
    ensures ReplaceAll(s, pat, pat) == s
    decreases |s|
  {
    if |s| < |pat| {
    } else if s[..|pat|] == pat {
      ReplaceAllSelf(s[|pat|..], pat);
      assert s == s[..|pat|] + s[|pat|..];
    } else {
      ReplaceAllSelf(s[1..], pat);
      assert s == [s[0]] + s[1..];
    }
  }

  /** A replacement by a different text of the same length shows in the result. */
  lemma {:induction false} ReplaceAllSameLengthChanges(s: string, pat: string, rep: string)
    requires pat != [] && |rep| == |pat| && rep != pat
    requires Occurs(s, pat)
    ensures ReplaceAll(s, pat, rep) != s
    decreases |s|
  {
    var i :| MatchAt(s, pat, i);
    if s[..|pat|] == pat {
      var r := ReplaceAll(s, pat, rep);
      assert r[..|pat|] == rep;
    } else {
      assert i != 0;
      MatchShift(s, pat, i);
      ReplaceAllSameLengthChanges(s[1..], pat, rep);
      var r := ReplaceAll(s, pat, rep);
      assert r[1..] == ReplaceAll(s[1..], pat, rep);
    }
  }

  /**
   * `ReplaceAll` leaves `s` as it is exactly when the pattern does not occur
   * in `s` or is replaced by itself.
   */
  lemma ReplaceAllUnchangedIff(s: string, pat: string, rep: string)
    requires pat != []
    ensures ReplaceAll(s, pat, rep) == s <==> (rep == pat || !Occurs(s, pat))
  {
    if rep == pat {
      ReplaceAllSelf(s, pat);
    } else if !Occurs(s, pat) {
      ReplaceAllAbsent(s, pat, rep);
    } else if |rep| == |pat| {
      ReplaceAllSameLengthChanges(s, pat, rep);
    } else {
      CountPositiveIffOccurs(s, pat);
      ReplaceAllLength(s, pat, rep);
      ProductNonZero(Count(s, pat), |rep| - |pat|);
    }
  }
}
