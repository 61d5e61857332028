/** The two functions of Go's `strings` package the client relies on:
    `strings.Count` and `strings.Replace(s, old, new, -1)`. A Go string is
    modelled as its sequence of code points. */
module GoStrings {

  /** `s` begins with `p`. */
  predicate HasPrefix(s: string, p: string) {
    |p| <= |s| && s[..|p|] == p
  }

  /** `p` occurs in `s`, found by trying every start position from the left. */
  predicate Contains(s: string, p: string)
    decreases |s|
  {
    HasPrefix(s, p) || (|s| > 0 && Contains(s[1..], p))
  }

  /** `strings.Count`: the number of non-overlapping occurrences of `sub` in `s`,
      taken from the left; an empty `sub` is counted once per code point plus one. */
  function Count(s: string, sub: string): nat
    decreases |s|
  {
    if |sub| == 0 then |s| + 1
    else if |s| == 0 then 0
    else if HasPrefix(s, sub) then 1 + Count(s[|sub|..], sub)
    else Count(s[1..], sub)
  }

  /** `strings.Replace(s, pat, rep, -1)`: every non-overlapping occurrence of
      `pat`, taken from the left, is replaced by `rep`; an empty `pat` matches
      before every code point and at the end. */
  function ReplaceAll(s: string, pat: string, rep: string): string
    decreases |s|
  {
    if |pat| == 0 then
      if |s| == 0 then rep else rep + [s[0]] + ReplaceAll(s[1..], pat, rep)
    else if |s| == 0 then []
    else if HasPrefix(s, pat) then rep + ReplaceAll(s[|pat|..], pat, rep)
    else [s[0]] + ReplaceAll(s[1..], pat, rep)
  }

  /** The scanning definition of `Contains` agrees with "some start index". */
  lemma {:induction false} ContainsAt(s: string, p: string)
    ensures Contains(s, p) <==> exists i :: 0 <= i <= |s| && HasPrefix(s[i..], p)
    decreases |s|
  {
    if HasPrefix(s, p) {
      assert s[0..] == s;
    } else if |s| > 0 {
      ContainsAt(s[1..], p);
      if exists i :: 0 <= i <= |s| && HasPrefix(s[i..], p) {
        var i :| 0 <= i <= |s| && HasPrefix(s[i..], p);
        assert i != 0 by { assert s[0..] == s; }
        assert s[1..][i - 1..] == s[i..];
      }
      if exists j :: 0 <= j <= |s[1..]| && HasPrefix(s[1..][j..], p) {
        var j :| 0 <= j <= |s[1..]| && HasPrefix(s[1..][j..], p);
        assert s[1..][j..] == s[j + 1..];
      }
    } else {
      assert forall i :: 0 <= i <= |s| ==> s[i..] == s;
    }
  }

  /** A text shorter than the pattern does not contain it. */
  lemma {:induction false} ShortFree(s: string, p: string)
    requires |s| < |p|
    ensures !Contains(s, p)
    decreases |s|
  {
    if |s| > 0 {
      ShortFree(s[1..], p);
    }
  }

  /** An occurrence in a suffix is an occurrence in the whole. */
  lemma {:induction false} ContainsSuffix(s: string, k: nat, p: string)
    requires k <= |s|
    requires Contains(s[k..], p)
    ensures Contains(s, p)
    decreases k
  {
    if k > 0 {
      assert s[1..][k - 1..] == s[k..];
      ContainsSuffix(s[1..], k - 1, p);
    } else {
      assert s[0..] == s;
    }
  }

  /** `w + x` is free of `p` when `x` is and no occurrence starts inside `w`. */
  lemma {:induction false} FreeAppend(w: string, x: string, p: string)
    requires !Contains(x, p)
    requires forall j :: 0 <= j < |w| ==> !HasPrefix((w + x)[j..], p)
    ensures !Contains(w + x, p)
    decreases |w|
  {
    if |w| == 0 {
      assert w + x == x;
    } else {
      assert (w + x)[0..] == w + x;
      assert (w + x)[1..] == w[1..] + x;
      forall j | 0 <= j < |w[1..]|
        ensures !HasPrefix((w[1..] + x)[j..], p)
      {
        assert (w[1..] + x)[j..] == (w + x)[j + 1..];
      }
      FreeAppend(w[1..], x, p);
    }
  }

  /** A non-empty pattern is counted zero times exactly when it does not occur. */
  lemma {:induction false} CountZeroIff(s: string, sub: string)
    requires |sub| > 0
    ensures Count(s, sub) == 0 <==> !Contains(s, sub)
    decreases |s|
  {
    if |s| > 0 && !HasPrefix(s, sub) {
      CountZeroIff(s[1..], sub);
    }
  }

  /** Counting a one-character pattern counts that character. */
  lemma {:induction false} CountChar(s: string, c: char)
    ensures Count(s, [c]) == multiset(s)[c]
    decreases |s|
  {
    if |s| > 0 {
      assert s == [s[0]] + s[1..];
      assert multiset(s) == multiset([s[0]]) + multiset(s[1..]);
      assert HasPrefix(s, [c]) <==> s[0] == c;
      CountChar(s[1..], c);
    }
  }

  /** Each replacement changes the length by `|rep| - |pat|`. */
  lemma {:induction false} ReplaceAllLength(s: string, pat: string, rep: string)
    ensures |ReplaceAll(s, pat, rep)| == |s| + Count(s, pat) * (|rep| - |pat|)
    decreases |s|
  {
    var d := |rep| - |pat|;
    if |pat| == 0 {
      if |s| > 0 {
        ReplaceAllLength(s[1..], pat, rep);
        assert Count(s, pat) == 1 + Count(s[1..], pat);
        assert (1 + Count(s[1..], pat)) * d == d + Count(s[1..], pat) * d;
      }
    } else if |s| > 0 {
      if HasPrefix(s, pat) {
        ReplaceAllLength(s[|pat|..], pat, rep);
        assert (1 + Count(s[|pat|..], pat)) * d == d + Count(s[|pat|..], pat) * d;
      } else {
        ReplaceAllLength(s[1..], pat, rep);
      }
    }
  }

  /** A string in which the pattern does not occur is returned unchanged. */
  lemma {:induction false} ReplaceAllAbsent(s: string, pat: string, rep: string)
    requires |pat| > 0
    requires !Contains(s, pat)
    ensures ReplaceAll(s, pat, rep) == s
    decreases |s|
  {
    if |s| > 0 {
      ReplaceAllAbsent(s[1..], pat, rep);
    }
  }

  /** When the replacement starts with the pattern's first character, a rewrite
      keeps the first character of a non-empty string. */
  lemma HeadKept(s: string, pat: string, rep: string)
    requires |s| > 0 && |pat| > 0 && |rep| > 0 && rep[0] == pat[0]
    ensures |ReplaceAll(s, pat, rep)| > 0 && ReplaceAll(s, pat, rep)[0] == s[0]
  {
    if HasPrefix(s, pat) {
      assert s[0] == s[..|pat|][0];
    }
  }

  /** `a` and `b` agree on their common length: one is a prefix of the other. */
  predicate Overlaps(a: string, b: string) {
    var k := if |a| < |b| then |a| else |b|;
    a[..k] == b[..k]
  }

  /** No copy of `rep` could start at any position of `w`. */
  predicate Inert(w: string, rep: string)
    decreases |w|
  {
    |w| == 0 || (!Overlaps(w, rep) && Inert(w[1..], rep))
  }

  /** A rewrite whose output begins with `w` cannot have started with a
      replacement when `w` is incompatible with `rep`. */
  lemma NoReplacementAtHead(s: string, pat: string, rep: string, w: string)
    requires |pat| > 0 && |w| > 0
    requires !Overlaps(w, rep)
    requires HasPrefix(ReplaceAll(s, pat, rep), w)
    ensures !HasPrefix(s, pat)
  {
  }

  /** If the rewritten string begins with a text no replacement could start
      inside, that text was in the input verbatim, and the rewrite carried on
      after it. */
  lemma {:induction false} LiteralPrefix(s: string, pat: string, rep: string, w: string)
    requires |pat| > 0
    requires Inert(w, rep)
    requires HasPrefix(ReplaceAll(s, pat, rep), w)
    ensures HasPrefix(s, w)
    ensures ReplaceAll(s, pat, rep) == w + ReplaceAll(s[|w|..], pat, rep)
    decreases |w|
  {
    if |w| == 0 {
      assert s[0..] == s;
    } else {
      var tail := ReplaceAll(s[1..], pat, rep);
      assert ReplaceAll(s, pat, rep) == [s[0]] + tail && HasPrefix(tail, w[1..]) && w[0] == s[0] by {
        NoReplacementAtHead(s, pat, rep, w);
        LiteralStep(s, pat, rep);
        ConsPrefix(ReplaceAll(s, pat, rep), s[0], tail, w);
      }
      LiteralPrefix(s[1..], pat, rep, w[1..]);
      assert s[1..][|w| - 1..] == s[|w|..];
      ConsAppend(ReplaceAll(s, pat, rep), s[0], tail, w, ReplaceAll(s[|w|..], pat, rep));
      ConsPrefix(s, s[0], s[1..], w);
    }
  }

  /** Prefixes of `[c] + t` of positive length are `c` followed by prefixes of `t`. */
  lemma ConsPrefix(x: string, c: char, t: string, w: string)
    requires x == [c] + t && |w| > 0
    ensures HasPrefix(x, w) <==> w[0] == c && HasPrefix(t, w[1..])
  {
    if w[0] == c && HasPrefix(t, w[1..]) {
      assert x[..|w|] == [c] + t[..|w| - 1];
    }
    if HasPrefix(x, w) {
      assert t[..|w| - 1] == x[1..|w|];
    }
  }

  lemma ConsAppend(x: string, c: char, t: string, w: string, a: string)
    requires x == [c] + t && |w| > 0 && w[0] == c && t == w[1..] + a
    ensures x == w + a
  {
    assert w == [c] + w[1..];
  }

  /** Where no match starts, the rewrite copies one character and carries on. */
  lemma LiteralStep(s: string, pat: string, rep: string)
    requires |pat| > 0 && |s| > 0 && !HasPrefix(s, pat)
    ensures ReplaceAll(s, pat, rep) == [s[0]] + ReplaceAll(s[1..], pat, rep)
  {
  }

  /** Inertness at one position. */
  lemma {:induction false} InertAt(w: string, rep: string, j: nat)
    requires Inert(w, rep) && j < |w|
    ensures !Overlaps(w[j..], rep)
    decreases j
  {
    if j > 0 {
      assert w[1..][j - 1..] == w[j..];
      InertAt(w[1..], rep, j - 1);
    } else {
      assert w[0..] == w;
    }
  }

  /** At position `j` of `w`, the first or the second character of `rep` fails to match. */
  predicate MismatchAt(w: string, rep: string, j: int)
    requires 0 <= j < |w| && |rep| >= 2
  {
    w[j] != rep[0] || (j + 1 < |w| && w[j + 1] != rep[1])
  }

  /** A text is inert for `rep` when at each position either the first or the
      second character of `rep` fails to match. */
  lemma {:induction false} InertByMismatch(w: string, rep: string)
    requires |rep| >= 2
    requires forall j :: 0 <= j < |w| ==> MismatchAt(w, rep, j)
    ensures Inert(w, rep)
    decreases |w|
  {
    if |w| > 0 {
      var k := if |w| < |rep| then |w| else |rep|;
      assert MismatchAt(w, rep, 0);
      if w[0] != rep[0] {
        assert w[..k][0] != rep[..k][0];
      } else {
        assert w[..k][1] != rep[..k][1];
      }
      forall j | 0 <= j < |w[1..]|
        ensures MismatchAt(w[1..], rep, j)
      {
        assert MismatchAt(w, rep, j + 1);
        assert w[1..][j] == w[j + 1];
        if j + 1 < |w[1..]| {
          assert w[1..][j + 1] == w[j + 2];
        }
      }
      InertByMismatch(w[1..], rep);
    }
  }

  /** Text that begins with something incompatible with `p` does not begin with `p`. */
  lemma BlockedPrefix(y: string, v: string, p: string)
    requires HasPrefix(y, v) && !Overlaps(v, p)
    ensures !HasPrefix(y, p)
  {
  }

  /** The conditions under which replacing `pat` by `rep` can be undone and
      leaves no `pat` behind: `rep` begins and ends with the first character of
      `pat`, no copy of `rep` can start strictly inside `rep` or inside `pat`
      after its first character, and no copy of `pat` can start in `rep`
      before its last character. */
  predicate Respacing(pat: string, rep: string) {
    && |pat| >= 2 && |rep| >= 2
    && rep[0] == pat[0]
    && rep[|rep| - 1] == pat[0]
    && Inert(rep[1..|rep| - 1], rep)
    && Inert(rep[..|rep| - 1], pat)
    && Inert(pat[1..|pat| - 1], rep)
  }

  /** If the output of a rewrite begins with `w + [c]` and no replacement can
      start inside `w`, the input began with `w + [c]`. */
  lemma PrefixBack(t: string, pat: string, rep: string, w: string, c: char)
    requires |pat| > 0 && |rep| > 0 && rep[0] == pat[0]
    requires Inert(w, rep)
    requires HasPrefix(ReplaceAll(t, pat, rep), w + [c])
    ensures HasPrefix(t, w + [c])
  {
    var out := ReplaceAll(t, pat, rep);
    assert HasPrefix(out, w) && out[|w|] == c by {
      assert (w + [c])[..|w|] == w;
    }
    LiteralPrefix(t, pat, rep, w);
    var u := t[|w|..];
    assert |u| > 0 && ReplaceAll(u, pat, rep)[0] == c by {
      assert out == w + ReplaceAll(u, pat, rep);
    }
    HeadKept(u, pat, rep);
    assert t[..|w| + 1] == t[..|w|] + [u[0]];
  }

  /** Output that begins with `rep` came from input that begins with `pat` or
      already with `rep`. */
  lemma RespacedHead(s: string, pat: string, rep: string)
    requires Respacing(pat, rep)
    requires HasPrefix(ReplaceAll(s, pat, rep), rep)
    ensures HasPrefix(s, pat) || HasPrefix(s, rep)
  {
    if !HasPrefix(s, pat) {
      var w := rep[1..|rep| - 1];
      var tail := ReplaceAll(s[1..], pat, rep);
      LiteralStep(s, pat, rep);
      ConsPrefix(ReplaceAll(s, pat, rep), s[0], tail, rep);
      assert rep[1..] == w + [rep[|rep| - 1]];
      PrefixBack(s[1..], pat, rep, w, rep[|rep| - 1]);
      ConsPrefix(s, s[0], s[1..], rep);
    }
  }

  /** Output that begins with `pat` minus its first character came from input
      that begins with it. */
  lemma TailBack(t: string, pat: string, rep: string)
    requires Respacing(pat, rep)
    requires HasPrefix(ReplaceAll(t, pat, rep), pat[1..])
    ensures HasPrefix(t, pat[1..])
  {
    assert pat[1..] == pat[1..|pat| - 1] + [pat[|pat| - 1]];
    PrefixBack(t, pat, rep, pat[1..|pat| - 1], pat[|pat| - 1]);
  }

  /** A copy of `rep` followed by text that does not continue `pat` contains no
      `pat` starting inside that copy. */
  lemma RespacedFree(pat: string, rep: string, x: string)
    requires Respacing(pat, rep)
    requires !HasPrefix(x, pat[1..])
    ensures forall j :: 0 <= j < |rep| ==> !HasPrefix((rep + x)[j..], pat)
  {
    var v := rep[..|rep| - 1];
    forall j | 0 <= j < |rep|
      ensures !HasPrefix((rep + x)[j..], pat)
    {
      var y := (rep + x)[j..];
      if j == |rep| - 1 {
        assert y == [pat[0]] + x;
        ConsPrefix(y, pat[0], x, pat);
      } else {
        InertAt(v, pat, j);
        assert y[..|v| - j] == v[j..];
        BlockedPrefix(y, v[j..], pat);
      }
    }
  }

  /** Unless `pat` is immediately followed by the rest of another `pat`
      somewhere in the input, no `pat` survives the rewrite. */
  lemma {:induction false} ReplaceRemovesPattern(s: string, pat: string, rep: string)
    requires Respacing(pat, rep)
    requires !Contains(s, pat + pat[1..])
    ensures !Contains(ReplaceAll(s, pat, rep), pat)
    decreases |s|
  {
    if |s| == 0 {
    } else if HasPrefix(s, pat) {
      var rest := s[|pat|..];
      if Contains(rest, pat + pat[1..]) {
        ContainsSuffix(s, |pat|, pat + pat[1..]);
      }
      ReplaceRemovesPattern(rest, pat, rep);
      var x := ReplaceAll(rest, pat, rep);
      if HasPrefix(x, pat[1..]) {
        TailBack(rest, pat, rep);
      }
      RespacedFree(pat, rep, x);
      FreeAppend(rep, x, pat);
    } else {
      ReplaceRemovesPattern(s[1..], pat, rep);
      var x := ReplaceAll(s[1..], pat, rep);
      LiteralStep(s, pat, rep);
      ConsPrefix(ReplaceAll(s, pat, rep), s[0], x, pat);
      if HasPrefix(x, pat[1..]) {
        TailBack(s[1..], pat, rep);
        ConsPrefix(s, s[0], s[1..], pat);
      }
      FreeAppend([s[0]], x, pat);
    }
  }

  /** Replacing `rep` back by `pat` undoes the rewrite, provided the input
      held no `rep` of its own. */
  lemma {:induction false} ReplaceInverse(s: string, pat: string, rep: string)
    requires Respacing(pat, rep)
    requires !Contains(s, rep)
    ensures ReplaceAll(ReplaceAll(s, pat, rep), rep, pat) == s
    decreases |s|
  {
    if |s| == 0 {
    } else if HasPrefix(s, pat) {
      var rest := s[|pat|..];
      if Contains(rest, rep) {
        ContainsSuffix(s, |pat|, rep);
      }
      ReplaceInverse(rest, pat, rep);
      var x := ReplaceAll(rest, pat, rep);
      assert (rep + x)[..|rep|] == rep;
      assert (rep + x)[|rep|..] == x;
      assert s == pat + rest;
    } else {
      ReplaceInverse(s[1..], pat, rep);
      var out := ReplaceAll(s, pat, rep);
      if HasPrefix(out, rep) {
        RespacedHead(s, pat, rep);
      }
      LiteralStep(s, pat, rep);
      LiteralStep(out, rep, pat);
      assert out[1..] == ReplaceAll(s[1..], pat, rep);
      assert s == [s[0]] + s[1..];
    }
  }
}
