/**
 What the text of a pattern stands for, read straight from the text and knowing nothing of
 runs, of collapsing or of the order in which a matcher tries things; and that reading a
 pattern and matching against it decide just that.
 */
module GlobMeaning {
  import opened Wrappers
  import opened Lists
  import opened Text
  import opened Language
  import opened Runs
  import opened Globs

  /** `s` is what the text of one plain segment stands for. */
  ghost predicate TextMatches(t: string, s: string)
    decreases |t|
  {
    if t == "" then s == ""
    else if t[0] == '\\' then |t| > 1 && s != "" && s[0] == t[1] && TextMatches(t[2..], s[1..])
    else if t[0] == '*' then exists k: nat :: k <= |s| && TextMatches(t[1..], s[k..])
    else s != "" && s[0] == t[0] && TextMatches(t[1..], s[1..])
  }

  ghost function TextItem(t: string): Item
  {
    if t == "**" then Many else One(iset s: string | TextMatches(t, s))
  }

  ghost function TextItems(texts: seq<string>): (items: seq<Item>)
    ensures |items| == |texts|
    ensures forall i :: 0 <= i < |texts| ==> items[i] == TextItem(texts[i])
  {
    seq(|texts|, i requires 0 <= i < |texts| => TextItem(texts[i]))
  }

  /** The pattern's segments divide the name's among them. */
  ghost predicate InLanguage(pattern: string, name: string)
  {
    Denotes(TextItems(Split(pattern, '/')), Split(name, '/'))
  }

  ghost predicate Accepted(pattern: string)
  {
    Parse(pattern).Success?
  }

  // ---------- one segment ----------

  lemma StepsAfterByte(c: char, runs: seq<string>, s: string)
    requires runs != []
    ensures Steps([[c] + runs[0]] + runs[1..], s) <==> s != "" && s[0] == c && Steps(runs, s[1..])
  {
    var more := [[c] + runs[0]] + runs[1..];
    assert more[1..] == runs[1..];
    if |runs| > 1 {
      if Steps(more, s) {
        var k := GapOf(more, s);
        assert s[1..][k - 1..] == s[k..];
        assert Gap(runs, s[1..], k - 1);
      }
      if s != "" && s[0] == c && Steps(runs, s[1..]) {
        var k := GapOf(runs, s[1..]);
        assert s[1..][k..] == s[k + 1..];
        assert Gap(more, s, k + 1);
      }
    } else if s != "" {
      assert s == [s[0]] + s[1..];
    }
  }

  lemma StepsAfterStar(runs: seq<string>, s: string)
    requires runs != []
    ensures Steps([""] + runs, s) <==> exists k: nat :: k <= |s| && Steps(runs, s[k..])
  {
    var more := [""] + runs;
    assert more[1..] == runs;
    if Steps(more, s) {
      var k := GapOf(more, s);
    }
    if k: nat :| k <= |s| && Steps(runs, s[k..]) {
      assert Gap(more, s, k);
    }
  }

  lemma AfterByteIs(c: char, runs: seq<string>)
    requires runs != []
    ensures After([], [c], Success(runs)) == Success([[c] + runs[0]] + runs[1..])
  {
    assert [] + [[c] + runs[0]] + runs[1..] == [[c] + runs[0]] + runs[1..];
  }

  lemma AfterStarIs(runs: seq<string>)
    requires runs != []
    ensures After([""], "", Success(runs)) == Success([""] + runs)
  {
    assert "" + runs[0] == runs[0];
    assert [""] + [runs[0]] + runs[1..] == [""] + runs;
  }

  /** The runs a text reads as stand for what the text stands for. */
  lemma {:induction false} RunsMeanText(t: string, s: string)
    requires ReadRuns(t).Success?
    ensures Steps(ReadRuns(t).value, s) <==> TextMatches(t, s)
    decreases |t|
  {
    if t != "" {
      var n := if t[0] == '\\' then 2 else 1;
      var runs := ReadRuns(t[n..]).value;
      if t[0] == '*' {
        forall k: nat | k <= |s| ensures Steps(runs, s[k..]) <==> TextMatches(t[1..], s[k..]) {
          RunsMeanText(t[1..], s[k..]);
        }
        AfterStarIs(runs);
        StepsAfterStar(runs, s);
      } else {
        var c := t[n - 1];
        AfterByteIs(c, runs);
        StepsAfterByte(c, runs, s);
        if s != "" {
          RunsMeanText(t[n..], s[1..]);
        }
      }
    }
  }

  lemma SegmentMeansText(t: string)
    requires ReadSegment(t).Success?
    ensures ItemOf(ReadSegment(t).value) == TextItem(t)
  {
    if t != "**" {
      var runs := ReadRuns(t).value;
      forall s: string ensures Fits(runs, s) <==> TextMatches(t, s) {
        FitsIsSteps(runs, s);
        RunsMeanText(t, s);
      }
    }
  }

  // ---------- a whole pattern ----------

  predicate AllRead(texts: seq<string>)
  {
    forall i :: 0 <= i < |texts| ==> ReadSegment(texts[i]).Success?
  }

  lemma ReadAllIs(texts: seq<string>)
    ensures ReadAll(texts).Success? <==> AllRead(texts)
    ensures ReadAll(texts).Success? ==>
              forall i :: 0 <= i < |texts| ==> ReadSegment(texts[i]) == Success(ReadAll(texts).value[i])
  {
    TryMapIs(texts, ReadSegment);
  }

  lemma ItemsOfRead(texts: seq<string>)
    requires ReadAll(texts).Success?
    ensures ItemsOf(ReadAll(texts).value) == TextItems(texts)
    ensures HasRuns(ReadAll(texts).value)
  {
    ReadAllIs(texts);
    forall i | 0 <= i < |texts| ensures ItemOf(ReadAll(texts).value[i]) == TextItem(texts[i]) {
      SegmentMeansText(texts[i]);
    }
  }

  lemma {:induction false} CollapseHasRuns(segs: seq<Segment>)
    requires HasRuns(segs)
    ensures HasRuns(Collapse(segs))
    decreases |segs|
  {
    if segs != [] {
      var init := segs[..|segs| - 1];
      assert HasRuns(init) by {
        forall i | 0 <= i < |init| && init[i].Plain? ensures init[i].parts != [] {
          assert init[i] == segs[i];
        }
      }
      CollapseHasRuns(init);
    }
  }

  lemma ItemsOfAppend(segs: seq<Segment>, seg: Segment, after: seq<Item>)
    ensures ItemsOf(segs + [seg]) + after == ItemsOf(segs) + ([ItemOf(seg)] + after)
  {
  }

  /** Whether one more segment is dropped or not, the names matched are the same. */
  lemma PushKeeps(kept: seq<Segment>, seg: Segment, after: seq<Item>, ss: seq<string>)
    ensures Matches(ItemsOf(Push(kept, seg)) + after, ss) <==>
            Matches(ItemsOf(kept) + ([ItemOf(seg)] + after), ss)
  {
    var n := |kept| - 1;
    if seg.Deep? && kept != [] && kept[n].Deep? {
      var front := ItemsOf(kept[..n]);
      ItemsOfAppend(kept[..n], kept[n], after);
      ItemsOfAppend(kept[..n], kept[n], [Many] + after);
      assert kept[..n] + [kept[n]] == kept;
      assert front + ([Many] + after) == front + [Many] + after;
      assert front + ([Many] + ([Many] + after)) == front + [Many, Many] + after;
      DoubledMany(front, after, ss);
    } else {
      ItemsOfAppend(kept, seg, after);
    }
  }

  /** Dropping each `**` that follows a `**` loses no name and gains none, whatever comes after. */
  lemma {:induction false} CollapseKeeps(segs: seq<Segment>, after: seq<Item>, ss: seq<string>)
    ensures Matches(ItemsOf(Collapse(segs)) + after, ss) <==> Matches(ItemsOf(segs) + after, ss)
    decreases |segs|
  {
    if segs != [] {
      var n := |segs| - 1;
      var init, last := segs[..n], segs[n];
      CollapseKeeps(init, [ItemOf(last)] + after, ss);
      PushKeeps(Collapse(init), last, after, ss);
      ItemsOfAppend(init, last, after);
      assert init + [last] == segs;
    }
  }

  lemma CollapseKeepsMeaning(segs: seq<Segment>, ss: seq<string>)
    ensures Denotes(ItemsOf(Collapse(segs)), ss) <==> Denotes(ItemsOf(segs), ss)
  {
    CollapseKeeps(segs, [], ss);
    assert ItemsOf(segs) + [] == ItemsOf(segs);
    assert ItemsOf(Collapse(segs)) + [] == ItemsOf(Collapse(segs));
    MatchesIsDenotes(ItemsOf(segs), ss);
    MatchesIsDenotes(ItemsOf(Collapse(segs)), ss);
  }

  /** What a pattern was read as stands for what its text stands for. */
  lemma ParsedMeansText(pattern: string, name: string)
    requires Accepted(pattern)
    ensures var segs := Parse(pattern).value.segs;
            HasRuns(segs) && (Denotes(ItemsOf(segs), Split(name, '/')) <==> InLanguage(pattern, name))
  {
    var texts := Split(pattern, '/');
    ItemsOfRead(texts);
    CollapseHasRuns(ReadAll(texts).value);
    CollapseKeepsMeaning(ReadAll(texts).value, Split(name, '/'));
  }

  /** `Glob.Match`: for a glob that was read, whether the name is in the language of its text. */
  method Match(g: Glob, name: string) returns (r: bool)
    requires HasRuns(g.segs)
    ensures r <==> Denotes(ItemsOf(g.segs), Split(name, '/'))
    ensures Parse(g.src) == Success(g) ==> (r <==> InLanguage(g.src, name))
  {
    ghost var calls;
    r, calls := MatchSegments(g.segs, Split(name, '/'));
    if Parse(g.src) == Success(g) {
      ParsedMeansText(g.src, name);
    }
  }

  /** The zero `Glob` matches no name, not even the empty one: splitting never gives no segment. */
  lemma ZeroGlobMatchesNothing(name: string)
    ensures !Denotes(ItemsOf([]), Split(name, '/'))
  {
    MatchesIsDenotes(ItemsOf([]), Split(name, '/'));
  }

  /** `InLanguage`, one item at a time. */
  lemma InLanguageIs(pattern: string, name: string)
    ensures InLanguage(pattern, name) <==> Matches(TextItems(Split(pattern, '/')), Split(name, '/'))
  {
    MatchesIsDenotes(TextItems(Split(pattern, '/')), Split(name, '/'));
  }

  lemma AcceptedIs(pattern: string)
    ensures Accepted(pattern) <==> AllRead(Split(pattern, '/'))
  {
    ReadAllIs(Split(pattern, '/'));
  }
}
