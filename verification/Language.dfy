/**
 What a pattern means, apart from how it is written or matched: a list of items, each
 standing for stretches of a name's `/`-segments.
 */
module Language {

  /** `**`, or the set of single segments a plain segment of a pattern stands for. */
  datatype Item = Many | One(lang: iset<string>)

  /** The name segments from `lo` up to `hi` are a stretch the item at `i` stands for. */
  ghost predicate Covers(items: seq<Item>, ss: seq<string>, i: nat, lo: nat, hi: nat)
    requires i < |items|
  {
    match items[i]
    case Many => (if i == |items| - 1 then lo < hi else lo <= hi) && hi <= |ss|
    case One(lang) => lo < |ss| && hi == lo + 1 && ss[lo] in lang
  }

  /** `cuts` divides the name into one stretch for each item, in order. */
  ghost predicate IsCut(items: seq<Item>, ss: seq<string>, cuts: seq<nat>)
  {
    && |cuts| == |items| + 1
    && cuts[0] == 0
    && cuts[|items|] == |ss|
    && forall i :: 0 <= i < |items| ==> Covers(items, ss, i, cuts[i], cuts[i + 1])
  }

  /** The name is in the language of the items. */
  ghost predicate Denotes(items: seq<Item>, ss: seq<string>)
  {
    exists cuts :: IsCut(items, ss, cuts)
  }

  // ---------- the same language, item by item ----------

  /** The first item can take the first `k` segments. A `**` at the end takes at least one. */
  ghost predicate Takes(items: seq<Item>, ss: seq<string>, k: nat)
    requires items != []
  {
    match items[0]
    case Many => Least(items) <= k <= |ss|
    case One(lang) => k == 1 && ss != [] && ss[0] in lang
  }

  function Least(items: seq<Item>): nat
  {
    if |items| == 1 then 1 else 0
  }

  ghost predicate Matches(items: seq<Item>, ss: seq<string>)
    decreases |items|
  {
    if items == [] then ss == []
    else exists k: nat :: Takes(items, ss, k) && Matches(items[1..], ss[k..])
  }

  lemma {:induction false} CutIsMonotone(items: seq<Item>, ss: seq<string>, cuts: seq<nat>, j: nat)
    requires IsCut(items, ss, cuts) && 1 <= j <= |items|
    ensures cuts[1] <= cuts[j]
    decreases j
  {
    if j > 1 {
      CutIsMonotone(items, ss, cuts, j - 1);
      assert Covers(items, ss, j - 1, cuts[j - 1], cuts[j]);
    }
  }

  lemma {:induction false} CutMatches(items: seq<Item>, ss: seq<string>, cuts: seq<nat>)
    requires IsCut(items, ss, cuts)
    ensures Matches(items, ss)
    decreases |items|
  {
    if items != [] {
      var k := cuts[1];
      assert Covers(items, ss, 0, cuts[0], k);
      forall j | 1 <= j <= |items| ensures k <= cuts[j] {
        CutIsMonotone(items, ss, cuts, j);
      }
      var rest := seq(|items|, j requires 0 <= j < |items| => (cuts[j + 1] - k) as nat);
      forall i | 0 <= i < |items[1..]|
        ensures Covers(items[1..], ss[k..], i, rest[i], rest[i + 1])
      {
        assert Covers(items, ss, i + 1, cuts[i + 1], cuts[i + 2]);
      }
      CutMatches(items[1..], ss[k..], rest);
      assert Takes(items, ss, k);
    }
  }

  lemma {:induction false} MatchHasCut(items: seq<Item>, ss: seq<string>) returns (cuts: seq<nat>)
    requires Matches(items, ss)
    ensures IsCut(items, ss, cuts)
    decreases |items|
  {
    if items == [] {
      cuts := [0];
    } else {
      var k: nat :| Takes(items, ss, k) && Matches(items[1..], ss[k..]);
      var rest := MatchHasCut(items[1..], ss[k..]);
      cuts := [0] + seq(|rest|, j requires 0 <= j < |rest| => rest[j] + k);
      if |items| == 1 {
        assert rest == [0];
      }
      forall i | 0 <= i < |items| ensures Covers(items, ss, i, cuts[i], cuts[i + 1]) {
        if i > 0 {
          assert Covers(items[1..], ss[k..], i - 1, rest[i - 1], rest[i]);
        }
      }
    }
  }

  /** Trying every length for each `**` from the left finds a division of the name exactly when there is one. */
  lemma MatchesIsDenotes(items: seq<Item>, ss: seq<string>)
    ensures Matches(items, ss) <==> Denotes(items, ss)
  {
    if Matches(items, ss) {
      var cuts := MatchHasCut(items, ss);
    }
    if Denotes(items, ss) {
      var cuts :| IsCut(items, ss, cuts);
      CutMatches(items, ss, cuts);
    }
  }

  /** Items that stand for anything stand for at least one segment. */
  lemma {:induction false} EmptyNameIsNot(items: seq<Item>)
    requires items != []
    ensures !Matches(items, [])
    decreases |items|
  {
    var none: seq<string> := [];
    if Matches(items, none) {
      var k: nat :| Takes(items, none, k) && Matches(items[1..], none[k..]);
      assert none[k..] == none;
      EmptyNameIsNot(items[1..]);
    }
  }

  // ---------- a `**` after a `**` adds nothing ----------

  lemma {:induction false} DoubledMany(xs: seq<Item>, ys: seq<Item>, ss: seq<string>)
    ensures Matches(xs + [Many, Many] + ys, ss) <==> Matches(xs + [Many] + ys, ss)
    decreases |xs|
  {
    var two, one := xs + [Many, Many] + ys, xs + [Many] + ys;
    if xs == [] {
      assert two[1..] == one && one[1..] == ys;
      if Matches(two, ss) {
        var k: nat :| Takes(two, ss, k) && Matches(two[1..], ss[k..]);
        var j: nat :| Takes(one, ss[k..], j) && Matches(one[1..], ss[k..][j..]);
        assert ss[k..][j..] == ss[k + j..];
        assert Takes(one, ss, k + j);
      }
      if Matches(one, ss) {
        assert ss[0..] == ss;
        assert Takes(two, ss, 0);
      }
    } else {
      assert two[1..] == xs[1..] + [Many, Many] + ys && one[1..] == xs[1..] + [Many] + ys;
      assert two[0] == one[0] == xs[0];
      if Matches(two, ss) {
        var k: nat :| Takes(two, ss, k) && Matches(two[1..], ss[k..]);
        DoubledMany(xs[1..], ys, ss[k..]);
        assert Takes(one, ss, k);
      }
      if Matches(one, ss) {
        var k: nat :| Takes(one, ss, k) && Matches(one[1..], ss[k..]);
        DoubledMany(xs[1..], ys, ss[k..]);
        assert Takes(two, ss, k);
      }
    }
  }

  // ---------- one list of items after another ----------

  /** The first `k` segments match the first items, and the others match the rest. */
  ghost predicate Parts(xs: seq<Item>, ys: seq<Item>, ss: seq<string>, k: nat)
  {
    k <= |ss| && Matches(xs, ss[..k]) && Matches(ys, ss[k..])
  }

  lemma {:induction false} SplitMatch(xs: seq<Item>, ys: seq<Item>, ss: seq<string>) returns (k: nat)
    requires xs != [] && xs[|xs| - 1].One? && Matches(xs + ys, ss)
    ensures Parts(xs, ys, ss, k)
    decreases |xs|
  {
    var all := xs + ys;
    var first: nat :| Takes(all, ss, first) && Matches(all[1..], ss[first..]);
    assert all[1..] == xs[1..] + ys;
    if |xs| == 1 {
      k := 1;
      assert all[1..] == ys && ss[..1][1..] == [];
    } else {
      var j := SplitMatch(xs[1..], ys, ss[first..]);
      k := first + j;
      assert ss[..k][first..] == ss[first..][..j];
      assert ss[k..] == ss[first..][j..];
    }
    assert Takes(xs, ss[..k], first);
  }

  /** The other way round holds whatever the first items end in. */
  lemma {:induction false} JoinMatch(xs: seq<Item>, ys: seq<Item>, ss: seq<string>, k: nat)
    requires xs != [] && Parts(xs, ys, ss, k)
    ensures Matches(xs + ys, ss)
    decreases |xs|
  {
    var all := xs + ys;
    var first: nat :| Takes(xs, ss[..k], first) && Matches(xs[1..], ss[..k][first..]);
    assert all[1..] == xs[1..] + ys;
    if |xs| == 1 {
      assert |ss[..k][first..]| == 0;
      assert all[1..] == ys;
    } else {
      assert ss[first..][..k - first] == ss[..k][first..];
      assert ss[first..][k - first..] == ss[k..];
      JoinMatch(xs[1..], ys, ss[first..], k - first);
    }
    assert Takes(all, ss, first);
  }

  // ---------- the shortest name ----------

  /** How many segments the shortest name has. */
  function Shortest(items: seq<Item>): nat
  {
    if items == [] then 0
    else (if items[0].Many? then Least(items) else 1) + Shortest(items[1..])
  }

  lemma {:induction false} NoneShorter(items: seq<Item>, ss: seq<string>)
    requires Matches(items, ss)
    ensures Shortest(items) <= |ss|
    decreases |items|
  {
    if items != [] {
      var k: nat :| Takes(items, ss, k) && Matches(items[1..], ss[k..]);
      NoneShorter(items[1..], ss[k..]);
    }
  }

  /** Every plain item stands for some segment, and for none that holds a `/`. */
  ghost predicate Inhabited(items: seq<Item>)
  {
    forall i | 0 <= i < |items| && items[i].One? :: exists w :: w in items[i].lang && '/' !in w
  }

  lemma {:induction false} ShortestName(items: seq<Item>) returns (ss: seq<string>)
    requires Inhabited(items)
    ensures Matches(items, ss) && |ss| == Shortest(items)
    ensures forall i | 0 <= i < |ss| :: '/' !in ss[i]
    decreases |items|
  {
    if items == [] {
      ss := [];
    } else {
      forall i | 0 <= i < |items[1..]| && items[1..][i].One?
        ensures exists w :: w in items[1..][i].lang && '/' !in w
      {
        assert items[i + 1].One?;
      }
      var rest := ShortestName(items[1..]);
      if items[0].One? {
        var w :| w in items[0].lang && '/' !in w;
        ss := [w] + rest;
        assert ss[1..] == rest;
        assert Takes(items, ss, 1);
      } else if |items| == 1 {
        ss := [""] + rest;
        assert ss[1..] == rest;
        assert Takes(items, ss, 1);
      } else {
        ss := rest;
        assert ss[0..] == rest;
        assert Takes(items, ss, 0);
      }
    }
  }

  lemma {:induction false} ShortestOfConcat(xs: seq<Item>, ys: seq<Item>)
    requires xs != [] && ys != []
    ensures Shortest(xs + ys) == Shortest(xs) + Shortest(ys) - (if xs[|xs| - 1].Many? then 1 else 0)
    decreases |xs|
  {
    assert (xs + ys)[1..] == xs[1..] + ys;
    if |xs| == 1 {
      assert xs[1..] + ys == ys;
      assert Shortest(xs[1..]) == 0;
    } else {
      ShortestOfConcat(xs[1..], ys);
    }
  }

  // ---------- a wider item ----------

  /** Every stretch `a` stands for, `b` stands for too, wherever it is. */
  ghost predicate Wider(a: Item, b: Item)
  {
    b.Many? || (a.One? && a.lang <= b.lang)
  }

  lemma WiderKeeps(items: seq<Item>, i: nat, b: Item, ss: seq<string>)
    requires i < |items| && Wider(items[i], b) && Matches(items, ss)
    ensures Matches(items[i := b], ss)
  {
    var wide := items[i := b];
    var cuts := MatchHasCut(items, ss);
    forall j | 0 <= j < |wide| ensures Covers(wide, ss, j, cuts[j], cuts[j + 1]) {
      assert Covers(items, ss, j, cuts[j], cuts[j + 1]);
    }
    assert IsCut(wide, ss, cuts);
    CutMatches(wide, ss, cuts);
  }

  // ---------- only plain items, each for one segment ----------

  lemma {:induction false} Literal(items: seq<Item>, names: seq<string>, ss: seq<string>)
    requires |items| == |names|
    requires forall i | 0 <= i < |items| :: items[i] == One(iset{names[i]})
    ensures Matches(items, ss) <==> ss == names
    decreases |items|
  {
    if items != [] && ss != [] {
      Literal(items[1..], names[1..], ss[1..]);
      assert Takes(items, ss, 1) <==> ss[0] == names[0];
      assert ss == [ss[0]] + ss[1..] && names == [names[0]] + names[1..];
    }
  }
}
