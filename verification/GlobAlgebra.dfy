/** How patterns behave when they are put together or made wider. */
module GlobAlgebra {
  import opened Text
  import opened Language
  import opened Globs
  import opened GlobMeaning

  /** The last segment of the pattern is a `**`. */
  predicate EndsDeep(pattern: string)
  {
    var texts := Split(pattern, '/');
    texts[|texts| - 1] == "**"
  }

  // ---------- one pattern after another ----------

  /** The name is one that `p` matches, a `/`, and one that `q` matches. */
  ghost predicate Pair(p: string, q: string, a: string, b: string, name: string)
  {
    name == a + "/" + b && InLanguage(p, a) && InLanguage(q, b)
  }

  ghost predicate IsPair(p: string, q: string, name: string)
  {
    exists a, b :: Pair(p, q, a, b, name)
  }

  /** `InLanguage`, for texts and names already split, one item at a time. */
  ghost predicate Named(texts: seq<string>, ss: seq<string>)
  {
    Matches(TextItems(texts), ss)
  }

  lemma NamedIs(pattern: string, name: string)
    ensures InLanguage(pattern, name) <==> Named(Split(pattern, '/'), Split(name, '/'))
  {
    InLanguageIs(pattern, name);
  }

  lemma TextItemsOfConcat(xs: seq<string>, ys: seq<string>)
    ensures TextItems(xs + ys) == TextItems(xs) + TextItems(ys)
  {
  }

  lemma AllReadOfConcat(xs: seq<string>, ys: seq<string>)
    ensures AllRead(xs + ys) <==> AllRead(xs) && AllRead(ys)
  {
    assert forall i :: 0 <= i < |xs| ==> (xs + ys)[i] == xs[i];
    assert forall i :: 0 <= i < |ys| ==> (xs + ys)[|xs| + i] == ys[i];
  }

  lemma AcceptedPair(p: string, q: string)
    ensures Accepted(p + "/" + q) <==> Accepted(p) && Accepted(q)
  {
    AcceptedIs(p);
    AcceptedIs(q);
    AcceptedIs(p + "/" + q);
    SplitOfConcat(p, '/', q);
    AllReadOfConcat(Split(p, '/'), Split(q, '/'));
  }

  lemma NamedJoin(xs: seq<string>, ys: seq<string>, sa: seq<string>, sb: seq<string>)
    requires xs != [] && Named(xs, sa) && Named(ys, sb)
    ensures Named(xs + ys, sa + sb)
  {
    TextItemsOfConcat(xs, ys);
    assert (sa + sb)[..|sa|] == sa && (sa + sb)[|sa|..] == sb;
    JoinMatch(TextItems(xs), TextItems(ys), sa + sb, |sa|);
  }

  lemma NamedSplit(xs: seq<string>, ys: seq<string>, ss: seq<string>) returns (k: nat)
    requires xs != [] && ys != [] && xs[|xs| - 1] != "**" && Named(xs + ys, ss)
    ensures 0 < k < |ss| && Named(xs, ss[..k]) && Named(ys, ss[k..])
  {
    TextItemsOfConcat(xs, ys);
    k := SplitMatch(TextItems(xs), TextItems(ys), ss);
    EmptyNameIsNot(TextItems(xs));
    EmptyNameIsNot(TextItems(ys));
  }

  lemma SplitOfPart(ss: seq<string>, lo: nat, hi: nat)
    requires Free(ss, '/') && lo < hi <= |ss|
    ensures Split(Join(ss[lo..hi], '/'), '/') == ss[lo..hi]
  {
    assert Free(ss[lo..hi], '/');
    SplitOfJoin(ss[lo..hi], '/');
  }

  lemma JoinHalves(ss: seq<string>, k: nat)
    requires 0 < k < |ss|
    ensures Join(ss, '/') == Join(ss[..k], '/') + "/" + Join(ss[k..], '/')
  {
    JoinOfConcat(ss[..k], ss[k..], '/');
    assert ss[..k] + ss[k..] == ss;
  }

  lemma PairMatches(p: string, q: string, a: string, b: string)
    requires InLanguage(p, a) && InLanguage(q, b)
    ensures InLanguage(p + "/" + q, a + "/" + b)
  {
    NamedIs(p, a);
    NamedIs(q, b);
    NamedIs(p + "/" + q, a + "/" + b);
    SplitOfConcat(p, '/', q);
    SplitOfConcat(a, '/', b);
    NamedJoin(Split(p, '/'), Split(q, '/'), Split(a, '/'), Split(b, '/'));
  }

  lemma NamedHalves(xs: seq<string>, ys: seq<string>, name: string) returns (a: string, b: string)
    requires xs != [] && ys != [] && xs[|xs| - 1] != "**" && Named(xs + ys, Split(name, '/'))
    ensures name == a + "/" + b && Named(xs, Split(a, '/')) && Named(ys, Split(b, '/'))
  {
    var ss := Split(name, '/');
    var k := NamedSplit(xs, ys, ss);
    SplitSpec(name, '/');
    JoinHalves(ss, k);
    SplitOfPart(ss, 0, k);
    SplitOfPart(ss, k, |ss|);
    assert ss[0..k] == ss[..k] && ss[k..|ss|] == ss[k..];
    a, b := Join(ss[..k], '/'), Join(ss[k..], '/');
  }

  lemma MatchIsPair(p: string, q: string, name: string) returns (a: string, b: string)
    requires !EndsDeep(p) && InLanguage(p + "/" + q, name)
    ensures Pair(p, q, a, b, name)
  {
    NamedIs(p + "/" + q, name);
    SplitOfConcat(p, '/', q);
    a, b := NamedHalves(Split(p, '/'), Split(q, '/'), name);
    NamedIs(p, a);
    NamedIs(q, b);
  }

  // What some name is matched by: a text without stars and escapes.

  lemma {:induction false} TextIsInhabited(t: string) returns (w: string)
    requires ReadRuns(t).Success? && '/' !in t
    ensures TextMatches(t, w) && '/' !in w
    decreases |t|
  {
    if t == "" {
      w := "";
    } else {
      var n := if t[0] == '\\' then 2 else 1;
      w := TextIsInhabited(t[n..]);
      if t[0] == '*' {
        assert w[0..] == w;
      } else {
        w := [t[n - 1]] + w;
      }
    }
  }

  lemma TextsAreInhabited(texts: seq<string>)
    requires AllRead(texts) && Free(texts, '/')
    ensures Inhabited(TextItems(texts))
  {
    forall i | 0 <= i < |texts| && TextItem(texts[i]).One?
      ensures exists w :: w in TextItem(texts[i]).lang && '/' !in w
    {
      var w := TextIsInhabited(texts[i]);
    }
  }

  /** The shortest name of two lists of texts of which the first ends in `**`. */
  lemma NamedAbsorbs(xs: seq<string>, ys: seq<string>) returns (ss: seq<string>)
    requires xs != [] && ys != [] && AllRead(xs + ys) && Free(xs + ys, '/')
    requires xs[|xs| - 1] == "**"
    ensures ss != [] && Free(ss, '/') && Named(xs + ys, ss)
    ensures forall sa, sb :: Named(xs, sa) && Named(ys, sb) ==> ss != sa + sb
  {
    TextsAreInhabited(xs + ys);
    ss := ShortestName(TextItems(xs + ys));
    EmptyNameIsNot(TextItems(xs + ys));
    TextItemsOfConcat(xs, ys);
    ShortestOfConcat(TextItems(xs), TextItems(ys));
    forall sa, sb | Named(xs, sa) && Named(ys, sb) ensures ss != sa + sb {
      NoneShorter(TextItems(xs), sa);
      NoneShorter(TextItems(ys), sb);
    }
  }

  /**
   After a pattern that ends in `**` there is always a name that does not fall in two: there
   the `**` had to take a segment, and here, no longer the last, it need not.
   */
  lemma DeepEndAbsorbs(p: string, q: string) returns (name: string)
    requires EndsDeep(p) && Accepted(p) && Accepted(q)
    ensures InLanguage(p + "/" + q, name)
    ensures forall a, b :: !Pair(p, q, a, b, name)
  {
    var xs, ys := Split(p, '/'), Split(q, '/');
    AcceptedIs(p);
    AcceptedIs(q);
    AllReadOfConcat(xs, ys);
    SplitSpec(p, '/');
    SplitSpec(q, '/');
    var ss := NamedAbsorbs(xs, ys);
    SplitOfJoin(ss, '/');
    name := Join(ss, '/');
    SplitOfConcat(p, '/', q);
    NamedIs(p + "/" + q, name);
    forall a, b ensures !Pair(p, q, a, b, name) {
      SplitOfConcat(a, '/', b);
      NamedIs(p, a);
      NamedIs(q, b);
    }
  }

  /**
   Patterns compose, for every name, exactly when the first does not end in `**`.
   */
  lemma PatternsCompose(p: string, q: string)
    requires Accepted(p) && Accepted(q)
    ensures (forall name :: InLanguage(p + "/" + q, name) <==> IsPair(p, q, name)) <==> !EndsDeep(p)
  {
    if EndsDeep(p) {
      var name := DeepEndAbsorbs(p, q);
    } else {
      forall name ensures InLanguage(p + "/" + q, name) <==> IsPair(p, q, name) {
        if InLanguage(p + "/" + q, name) {
          var a, b := MatchIsPair(p, q, name);
        }
        if a, b :| Pair(p, q, a, b, name) {
          PairMatches(p, q, a, b);
        }
      }
    }
  }

  lemma DeepCovers(ss: seq<string>)
    requires ss != []
    ensures Denotes(TextItems(["**"]), ss)
  {
    assert IsCut(TextItems(["**"]), ss, [0, |ss|]);
  }

  lemma DeepMatchesAll(name: string)
    ensures Accepted("**") && InLanguage("**", name)
  {
    SplitWithout("**", '/');
    AcceptedIs("**");
    DeepCovers(Split(name, '/'));
  }

  // `p` followed by a segment `**` is what is under a name `p` matches, at any depth.
  lemma UnderPattern(p: string, name: string)
    requires Accepted(p) && !EndsDeep(p)
    ensures InLanguage(p + "/" + "**", name) <==> exists a, b :: name == a + "/" + b && InLanguage(p, a)
  {
    if InLanguage(p + "/" + "**", name) {
      var a, b := MatchIsPair(p, "**", name);
    }
    if a, b :| name == a + "/" + b && InLanguage(p, a) {
      DeepMatchesAll(b);
      PairMatches(p, "**", a, b);
    }
  }

  // ---------- a wider segment ----------

  /** The pattern with the text of its segment `i` replaced. */
  function Replace(pattern: string, i: nat, t: string): string
    requires i < |Split(pattern, '/')|
  {
    Join(Split(pattern, '/')[i := t], '/')
  }

  lemma NamedWider(texts: seq<string>, i: nat, t: string, ss: seq<string>)
    requires i < |texts| && Wider(TextItem(texts[i]), TextItem(t)) && Named(texts, ss)
    ensures Named(texts[i := t], ss)
  {
    assert TextItems(texts[i := t]) == TextItems(texts)[i := TextItem(t)];
    WiderKeeps(TextItems(texts), i, TextItem(t), ss);
  }

  lemma SplitOfReplace(pattern: string, i: nat, t: string)
    requires i < |Split(pattern, '/')| && '/' !in t
    ensures Split(Replace(pattern, i, t), '/') == Split(pattern, '/')[i := t]
  {
    SplitSpec(pattern, '/');
    SplitOfJoin(Split(pattern, '/')[i := t], '/');
  }

  /** A segment that stands for all it did and more, wherever it is, keeps the names the pattern had. */
  lemma WiderSegmentKeeps(pattern: string, i: nat, t: string, name: string)
    requires i < |Split(pattern, '/')| && '/' !in t && ReadSegment(t).Success?
    requires Wider(TextItem(Split(pattern, '/')[i]), TextItem(t))
    requires Accepted(pattern) && InLanguage(pattern, name)
    ensures Accepted(Replace(pattern, i, t)) && InLanguage(Replace(pattern, i, t), name)
  {
    SplitOfReplace(pattern, i, t);
    AcceptedIs(pattern);
    AcceptedIs(Replace(pattern, i, t));
    NamedIs(pattern, name);
    NamedIs(Replace(pattern, i, t), name);
    NamedWider(Split(pattern, '/'), i, t, Split(name, '/'));
  }

  /** Any segment can be widened to `**`. */
  lemma DeepIsWider(pattern: string, i: nat, name: string)
    requires i < |Split(pattern, '/')| && Accepted(pattern) && InLanguage(pattern, name)
    ensures Accepted(Replace(pattern, i, "**")) && InLanguage(Replace(pattern, i, "**"), name)
  {
    WiderSegmentKeeps(pattern, i, "**", name);
  }

  lemma StarMatchesAll(s: string)
    ensures TextMatches("*", s)
  {
    assert s[|s|..] == "";
    assert "*"[1..] == "";
  }

  /** Any segment but `**` can be widened to `*`. */
  lemma StarIsWider(pattern: string, i: nat, name: string)
    requires i < |Split(pattern, '/')| && Accepted(pattern) && InLanguage(pattern, name)
    requires Split(pattern, '/')[i] != "**"
    ensures Accepted(Replace(pattern, i, "*")) && InLanguage(Replace(pattern, i, "*"), name)
  {
    forall s: string ensures TextMatches("*", s) {
      StarMatchesAll(s);
    }
    assert ReadRuns("*").Success? by { assert "*"[1..] == ""; }
    WiderSegmentKeeps(pattern, i, "*", name);
  }
}
