/** One plain segment of a pattern against one segment of a name. */
module Runs {
  import opened Text

  /** The runs of a segment with a gap, what a star stands for, between each and the next. */
  ghost function Weave(parts: seq<string>, gaps: seq<string>): string
    requires |parts| == |gaps| + 1
    decreases |parts|
  {
    if gaps == [] then parts[0]
    else parts[0] + gaps[0] + Weave(parts[1..], gaps[1..])
  }

  ghost predicate IsWeave(parts: seq<string>, gaps: seq<string>, s: string)
  {
    |parts| == |gaps| + 1 && s == Weave(parts, gaps)
  }

  /** `s` is the runs in order with some gaps between them. */
  ghost predicate Fits(parts: seq<string>, s: string)
  {
    exists gaps :: IsWeave(parts, gaps, s)
  }

  /** The first run is at the start, and after a gap that ends at `k` come the others. */
  ghost predicate Gap(parts: seq<string>, s: string, k: nat)
    requires |parts| > 1
    decreases |parts|, 0
  {
    |parts[0]| <= k <= |s| && Steps(parts[1..], s[k..])
  }

  /** `Fits`, one run at a time. */
  ghost predicate Steps(parts: seq<string>, s: string)
    requires parts != []
    decreases |parts|, 1
  {
    if |parts| == 1 then s == parts[0]
    else parts[0] <= s && exists k: nat :: Gap(parts, s, k)
  }

  lemma GapOf(parts: seq<string>, s: string) returns (k: nat)
    requires |parts| > 1 && Steps(parts, s)
    ensures parts[0] <= s && |parts[0]| <= k <= |s| && Steps(parts[1..], s[k..])
  {
    k :| Gap(parts, s, k);
  }

  lemma {:induction false} FitsToSteps(parts: seq<string>, gaps: seq<string>, s: string)
    requires IsWeave(parts, gaps, s)
    ensures Steps(parts, s)
    decreases |parts|
  {
    if gaps != [] {
      var k := |parts[0]| + |gaps[0]|;
      assert s[..|parts[0]|] == parts[0];
      assert s[k..] == Weave(parts[1..], gaps[1..]);
      FitsToSteps(parts[1..], gaps[1..], s[k..]);
      assert Gap(parts, s, k);
    }
  }

  lemma {:induction false} StepsToFits(parts: seq<string>, s: string) returns (gaps: seq<string>)
    requires parts != [] && Steps(parts, s)
    ensures IsWeave(parts, gaps, s)
    decreases |parts|
  {
    if |parts| == 1 {
      gaps := [];
    } else {
      var k := GapOf(parts, s);
      var rest := StepsToFits(parts[1..], s[k..]);
      var gap := s[|parts[0]|..k];
      gaps := [gap] + rest;
      assert gaps[1..] == rest;
      assert s == parts[0] + gap + s[k..];
    }
  }

  lemma FitsIsSteps(parts: seq<string>, s: string)
    requires parts != []
    ensures Fits(parts, s) <==> Steps(parts, s)
  {
    if Fits(parts, s) {
      var gaps :| IsWeave(parts, gaps, s);
      FitsToSteps(parts, gaps, s);
    }
    if Steps(parts, s) {
      var gaps := StepsToFits(parts, s);
    }
  }

  // ---------- the runs between the first and the last ----------

  /** The runs stand in `t` one after the other, none overlapping the next. */
  ghost predicate InOrder(runs: seq<string>, t: string)
    decreases |runs|
  {
    runs == [] || exists i: nat :: At(t, runs[0], i) && InOrder(runs[1..], t[i + |runs[0]|..])
  }

  lemma InOrderWithin(runs: seq<string>, t: string, k: nat)
    requires k <= |t| && InOrder(runs, t[k..])
    ensures InOrder(runs, t)
  {
    if runs != [] {
      var i: nat :| At(t[k..], runs[0], i) && InOrder(runs[1..], t[k..][i + |runs[0]|..]);
      assert t[k..][i + |runs[0]|..] == t[k + i + |runs[0]|..];
      assert t[k + i..k + i + |runs[0]|] == t[k..][i..i + |runs[0]|];
      assert At(t, runs[0], k + i);
    }
  }

  /**
   The leftmost place is always good enough: were the runs in order with the first of them
   further right, what follows it there also lies to the right of the leftmost place.
   */
  lemma LeftmostIsEnough(runs: seq<string>, t: string)
    requires runs != []
    ensures InOrder(runs, t) <==>
            Index(t, runs[0]) >= 0 && InOrder(runs[1..], t[Index(t, runs[0]) + |runs[0]|..])
  {
    var p := runs[0];
    var i := Index(t, p);
    assert i >= 0 ==> At(t, p, i);
    if InOrder(runs, t) {
      var j: nat :| At(t, p, j) && InOrder(runs[1..], t[j + |p|..]);
      assert i >= 0 && !(j < i);
      assert t[i + |p|..][j - i..] == t[j + |p|..];
      InOrderWithin(runs[1..], t[i + |p|..], j - i);
    }
  }

  /** The last run is at the end, and the others are in order in what stands before it. */
  ghost predicate Pinned(parts: seq<string>, u: string)
    requires parts != []
  {
    var last := parts[|parts| - 1];
    HasSuffix(u, last) && InOrder(parts[..|parts| - 1], u[..|u| - |last|])
  }

  lemma {:induction false} FloatingToPinned(parts: seq<string>, u: string, k: nat)
    requires parts != [] && k <= |u| && Steps(parts, u[k..])
    ensures Pinned(parts, u)
    decreases |parts|
  {
    var n := |parts| - 1;
    var last := parts[n];
    if n == 0 {
      assert |u| - |last| == k;
    } else {
      var j := GapOf(parts, u[k..]);
      var from := k + |parts[0]|;
      assert u[from..][j - |parts[0]|..] == u[k..][j..];
      FloatingToPinned(parts[1..], u[from..], j - |parts[0]|);
      PinnedBefore(parts, u, k);
    }
  }

  lemma PinnedBefore(parts: seq<string>, u: string, k: nat)
    requires |parts| > 1 && k + |parts[0]| <= |u| && parts[0] <= u[k..]
    requires Pinned(parts[1..], u[k + |parts[0]|..])
    ensures Pinned(parts, u)
  {
    var n := |parts| - 1;
    var p, last, from := parts[0], parts[n], k + |parts[0]|;
    var v := u[from..];
    assert parts[1..][n - 1] == last && parts[1..][..n - 1] == parts[..n][1..];
    assert v[|v| - |last|..] == u[|u| - |last|..];
    var t := u[..|u| - |last|];
    assert t[from..] == v[..|v| - |last|];
    assert t[k..from] == u[k..][..|p|];
    assert At(t, parts[..n][0], k);
  }

  lemma {:induction false} PinnedToFloating(parts: seq<string>, u: string) returns (k: nat)
    requires parts != [] && Pinned(parts, u)
    ensures k <= |u| && Steps(parts, u[k..])
    decreases |parts|
  {
    var n := |parts| - 1;
    var last := parts[n];
    if n == 0 {
      k := |u| - |last|;
    } else {
      var p := parts[0];
      var t := u[..|u| - |last|];
      assert parts[..n][0] == p;
      k :| At(t, p, k) && InOrder(parts[..n][1..], t[k + |p|..]);
      var v := u[k + |p|..];
      assert parts[..n][1..] == parts[1..][..n - 1];
      assert t[k + |p|..] == v[..|v| - |last|];
      assert v[|v| - |last|..] == u[|u| - |last|..];
      var j := PinnedToFloating(parts[1..], v);
      assert u[k..][|p| + j..] == v[j..];
      assert u[k..][..|p|] == t[k..k + |p|] == p;
      assert Gap(parts, u[k..], |p| + j);
    }
  }

  /** Both end runs pinned, and the others in order in what is left between them. */
  ghost predicate Sandwich(parts: seq<string>, s: string)
    requires |parts| > 1
  {
    var first, last := parts[0], parts[|parts| - 1];
    && |s| >= |first| + |last|
    && first <= s && HasSuffix(s, last)
    && InOrder(parts[1..|parts| - 1], s[|first|..|s| - |last|])
  }

  lemma SandwichIsPinned(parts: seq<string>, s: string)
    requires |parts| > 1 && parts[0] <= s
    ensures Sandwich(parts, s) <==> Pinned(parts[1..], s[|parts[0]|..])
  {
    var first, last, n := parts[0], parts[|parts| - 1], |parts| - 1;
    var v := s[|first|..];
    assert parts[1..][..n - 1] == parts[1..n] && parts[1..][n - 1] == last;
    if |s| >= |first| + |last| {
      assert v[..|v| - |last|] == s[|first|..|s| - |last|];
      assert v[|v| - |last|..] == s[|s| - |last|..];
    }
  }

  lemma SandwichIsFits(parts: seq<string>, s: string)
    requires |parts| > 1
    ensures Sandwich(parts, s) <==> Fits(parts, s)
  {
    FitsIsSteps(parts, s);
    if parts[0] <= s {
      SandwichIsPinned(parts, s);
      var m := |parts[0]|;
      if Sandwich(parts, s) {
        var k := PinnedToFloating(parts[1..], s[m..]);
        assert s[m..][k..] == s[m + k..];
        assert Gap(parts, s, m + k);
      }
      if Steps(parts, s) {
        var k := GapOf(parts, s);
        assert s[m..][k - m..] == s[k..];
        FloatingToPinned(parts[1..], s[m..], k - m);
      }
    }
  }

  /** `segment.match`. */
  method MatchSegment(parts: seq<string>, s: string) returns (r: bool)
    requires parts != []
    ensures r <==> Fits(parts, s)
  {
    FitsIsSteps(parts, s);
    if |parts| == 1 {
      return s == parts[0];
    }
    SandwichIsFits(parts, s);
    var n := |parts| - 1;
    var first, last := parts[0], parts[n];
    if |s| < |first| + |last| || !(first <= s) || !HasSuffix(s, last) {
      return false;
    }
    var t := s[|first|..|s| - |last|];
    for k := 1 to n
      invariant InOrder(parts[k..n], t) <==> Fits(parts, s)
    {
      var p := parts[k];
      assert parts[k..n][0] == p && parts[k..n][1..] == parts[k + 1..n];
      LeftmostIsEnough(parts[k..n], t);
      var i := Index(t, p);
      if i < 0 {
        return false;
      }
      t := t[i + |p|..];
    }
    return true;
  }
}
