/** Patterns: how they are read, and how a name is matched against one. */
module Globs {
  import opened Wrappers
  import opened Lists
  import opened Text
  import opened Language
  import opened Runs

  /** A `**`, or the plain runs between the stars of a segment. */
  datatype Segment = Deep | Plain(parts: seq<string>)

  datatype Glob = Glob(src: string, segs: seq<Segment>)

  datatype GlobError = NothingAfterBackslash | StarsNotAlone

  // ---------- reading one segment ----------

  type Reading = r: Result<seq<string>, GlobError> | r.Success? ==> r.value != []
    witness Failure(StarsNotAlone)

  /** What a segment reads as once `parts` and then `cur` are read and what follows reads as `r`. */
  function After(parts: seq<string>, cur: string, r: Reading): Reading
  {
    match r
    case Failure(_) => r
    case Success(runs) => Success(parts + [cur + runs[0]] + runs[1..])
  }

  function ReadRuns(s: string): Reading
    decreases |s|
  {
    if s == "" then Success([""])
    else if s[0] == '\\' then
      if |s| == 1 then Failure(NothingAfterBackslash) else After([], [s[1]], ReadRuns(s[2..]))
    else if s[0] == '*' then
      if |s| > 1 && s[1] == '*' then Failure(StarsNotAlone) else After([""], "", ReadRuns(s[1..]))
    else After([], [s[0]], ReadRuns(s[1..]))
  }

  lemma AfterByte(parts: seq<string>, cur: string, c: char, r: Reading)
    ensures After(parts, cur, After([], [c], r)) == After(parts, cur + [c], r)
  {
    if r.Success? {
      assert cur + ([c] + r.value[0]) == cur + [c] + r.value[0];
    }
  }

  lemma AfterStar(parts: seq<string>, cur: string, r: Reading)
    ensures After(parts, cur, After([""], "", r)) == After(parts + [cur], "", r)
  {
    if r.Success? {
      var runs := [""] + ["" + r.value[0]] + r.value[1..];
      assert runs[1..] == ["" + r.value[0]] + r.value[1..];
      assert cur + runs[0] == cur;
      assert parts + [cur] + runs[1..] == parts + [cur] + ["" + r.value[0]] + r.value[1..];
    }
  }

  lemma AfterNothing(r: Reading)
    ensures After([], "", r) == r
  {
    if r.Success? {
      assert "" + r.value[0] == r.value[0];
      assert [] + [r.value[0]] + r.value[1..] == r.value;
    }
  }

  lemma AfterAll(parts: seq<string>, cur: string)
    ensures After(parts, cur, Success([""])) == Success(parts + [cur])
  {
    assert cur + "" == cur;
    assert parts + [cur] + [""][1..] == parts + [cur];
  }

  /** The loop of `ParseGlob` over the bytes of a segment that is not `**`. */
  method ParseSegment(s: string) returns (r: Reading)
    ensures r == ReadRuns(s)
  {
    var parts: seq<string>, cur := [], "";
    var i := 0;
    AfterNothing(ReadRuns(s));
    assert s[0..] == s;
    while i < |s|
      invariant 0 <= i <= |s|
      invariant ReadRuns(s) == After(parts, cur, ReadRuns(s[i..]))
    {
      var c := s[i];
      ghost var rest := s[i..];
      assert rest[0] == c && rest[1..] == s[i + 1..];
      if c == '\\' {
        if i + 1 == |s| {
          return Failure(NothingAfterBackslash);
        }
        i := i + 1;
        AfterByte(parts, cur, s[i], ReadRuns(s[i + 1..]));
        assert rest[2..] == s[i + 1..];
        cur := cur + [s[i]];
      } else if c == '*' {
        if i + 1 < |s| && s[i + 1] == '*' {
          return Failure(StarsNotAlone);
        }
        AfterStar(parts, cur, ReadRuns(s[i + 1..]));
        parts, cur := parts + [cur], "";
      } else {
        AfterByte(parts, cur, c, ReadRuns(s[i + 1..]));
        cur := cur + [c];
      }
      i := i + 1;
    }
    AfterAll(parts, cur);
    return Success(parts + [cur]);
  }

  // ---------- reading a pattern ----------

  /** Each plain segment has a run, without which it could not be matched at all. */
  ghost predicate HasRuns(segs: seq<Segment>)
  {
    forall i :: 0 <= i < |segs| && segs[i].Plain? ==> segs[i].parts != []
  }

  function ReadSegment(t: string): Result<Segment, GlobError>
  {
    if t == "**" then Success(Deep)
    else match ReadRuns(t)
      case Failure(e) => Failure(e)
      case Success(parts) => Success(Plain(parts))
  }

  /** Every segment as it is written, or the error of the first that is not one. */
  function ReadAll(texts: seq<string>): (r: Result<seq<Segment>, GlobError>)
    ensures r.Success? ==> |r.value| == |texts|
  {
    TryMap(texts, ReadSegment)
  }

  /** One more segment, which is dropped when it is a `**` after a `**`. */
  function Push(segs: seq<Segment>, seg: Segment): seq<Segment>
  {
    if seg.Deep? && segs != [] && segs[|segs| - 1].Deep? then segs else segs + [seg]
  }

  function Collapse(segs: seq<Segment>): seq<Segment>
  {
    if segs == [] then [] else Push(Collapse(segs[..|segs| - 1]), segs[|segs| - 1])
  }

  /** What is read keeps the text it was read from. */
  function Parse(pattern: string): (r: Result<Glob, GlobError>)
    ensures r.Success? ==> r.value.src == pattern
  {
    match ReadAll(Split(pattern, '/'))
    case Failure(e) => Failure(e)
    case Success(segs) => Success(Glob(pattern, Collapse(segs)))
  }

  /** `segs` is what the first `k` texts of a pattern are read as. */
  ghost predicate SoFar(texts: seq<string>, k: nat, segs: seq<Segment>)
    requires k <= |texts|
  {
    ReadAll(texts[..k]).Success? && segs == Collapse(ReadAll(texts[..k]).value)
  }

  lemma SoFarStep(texts: seq<string>, k: nat, segs: seq<Segment>, seg: Segment)
    requires k < |texts| && SoFar(texts, k, segs) && ReadSegment(texts[k]) == Success(seg)
    ensures SoFar(texts, k + 1, Push(segs, seg))
  {
    var read := ReadAll(texts[..k]).value;
    TryMapStep([], texts, k, ReadSegment);
    assert [] + texts[..k] == texts[..k] && [] + texts[..k + 1] == texts[..k + 1];
    assert (read + [seg])[..k] == read;
  }

  lemma SoFarError(texts: seq<string>, k: nat, segs: seq<Segment>)
    requires k < |texts| && SoFar(texts, k, segs) && ReadSegment(texts[k]).Failure?
    ensures ReadAll(texts) == Failure(ReadSegment(texts[k]).error)
  {
    TryMapIs(texts[..k], ReadSegment);
    TryMapFails(texts, k, ReadSegment);
  }

  method ParseGlob(pattern: string) returns (r: Result<Glob, GlobError>)
    ensures r == Parse(pattern)
    ensures r.Success? ==> r.value.src == pattern && HasRuns(r.value.segs)
  {
    var segs: seq<Segment> := [];
    var texts := Split(pattern, '/');
    for k := 0 to |texts|
      invariant SoFar(texts, k, segs) && HasRuns(segs)
    {
      var s := texts[k];
      if s == "**" {
        SoFarStep(texts, k, segs, Deep);
        var n := |segs|;
        if n > 0 && segs[n - 1].Deep? {
          continue;
        }
        segs := segs + [Deep];
        continue;
      }
      var parts := ParseSegment(s);
      if parts.Failure? {
        SoFarError(texts, k, segs);
        return Failure(parts.error);
      }
      SoFarStep(texts, k, segs, Plain(parts.value));
      segs := segs + [Plain(parts.value)];
    }
    assert texts[..|texts|] == texts;
    return Success(Glob(pattern, segs));
  }

  // ---------- what segments stand for ----------

  ghost function ItemOf(seg: Segment): Item
  {
    match seg
    case Deep => Many
    case Plain(parts) => One(iset s: string | Fits(parts, s))
  }

  ghost function ItemsOf(segs: seq<Segment>): (items: seq<Item>)
    ensures |items| == |segs|
    ensures forall i :: 0 <= i < |segs| ==> items[i] == ItemOf(segs[i])
  {
    seq(|segs|, i requires 0 <= i < |segs| => ItemOf(segs[i]))
  }

  // ---------- matching ----------

  function Pow(base: nat, e: nat): nat
  {
    if e == 0 then 1 else base * Pow(base, e - 1)
  }

  lemma {:induction false} PowGrows(a: nat, b: nat, e: nat)
    requires 1 <= a <= b
    ensures 1 <= Pow(a, e) <= Pow(b, e)
  {
    if e > 0 {
      PowGrows(a, b, e - 1);
      Times(a, b, Pow(a, e - 1), Pow(b, e - 1));
    }
  }

  lemma Times(a: nat, b: nat, x: nat, y: nat)
    requires a <= b && x <= y
    ensures a * x <= b * y
    ensures a >= 1 ==> x <= a * x
  {
    assert a * x <= b * x by { assert (b - a) * x >= 0; }
    assert b * x <= b * y by { assert b * (y - x) >= 0; }
    assert a >= 1 ==> (a - 1) * x >= 0;
  }

  lemma OneMore(i: nat, b: nat, n: nat)
    requires i < n
    ensures i * b + b == (i + 1) * b <= n * b
  {
    Times(i + 1, n, b, b);
  }

  function DeepCount(segs: seq<Segment>): nat
  {
    if segs == [] then 0 else (if segs[0].Deep? then 1 else 0) + DeepCount(segs[1..])
  }

  lemma {:induction false} DeepCountOfAppend(segs: seq<Segment>, seg: Segment)
    ensures DeepCount(segs + [seg]) == DeepCount(segs) + if seg.Deep? then 1 else 0
    decreases |segs|
  {
    if segs == [] {
      assert DeepCount([seg][1..]) == 0;
      assert segs + [seg] == [seg];
    } else {
      assert (segs + [seg])[1..] == segs[1..] + [seg];
      DeepCountOfAppend(segs[1..], seg);
    }
  }

  /** It counts the places of the `**`s. */
  lemma {:induction false} DeepCountIs(segs: seq<Segment>)
    ensures DeepCount(segs) == |set i | 0 <= i < |segs| && segs[i].Deep?|
    decreases |segs|
  {
    var places := set i | 0 <= i < |segs| && segs[i].Deep?;
    if segs == [] {
      assert places == {};
    } else {
      var n := |segs| - 1;
      var init := segs[..n];
      var before := set i | 0 <= i < |init| && init[i].Deep?;
      DeepCountIs(init);
      DeepCountOfAppend(init, segs[n]);
      assert init + [segs[n]] == segs;
      assert places == before + if segs[n].Deep? then {n} else {};
    }
  }

  /** The most calls that matching `n` name segments takes. */
  function Budget(segs: seq<Segment>, n: nat): nat
  {
    (|segs| + 1) * Pow(n + 1, DeepCount(segs))
  }

  lemma BudgetGrows(segs: seq<Segment>, n: nat, m: nat)
    requires n <= m
    ensures 1 <= Budget(segs, n) <= Budget(segs, m)
  {
    PowGrows(n + 1, m + 1, DeepCount(segs));
    Times(|segs| + 1, |segs| + 1, Pow(n + 1, DeepCount(segs)), Pow(m + 1, DeepCount(segs)));
  }

  lemma BudgetOfStep(segs: seq<Segment>, n: nat)
    requires segs != []
    ensures 1 + (if segs[0].Deep? then n + 1 else 1) * Budget(segs[1..], n) <= Budget(segs, n)
  {
    var d := DeepCount(segs[1..]);
    var p := Pow(n + 1, d);
    PowGrows(n + 1, n + 1, d);
    PowGrows(n + 1, n + 1, DeepCount(segs));
    assert Budget(segs[1..], n) == |segs| * p;
    if segs[0].Deep? {
      assert (n + 1) * (|segs| * p) == |segs| * ((n + 1) * p);
    }
    assert Budget(segs, n) == |segs| * Pow(n + 1, DeepCount(segs)) + Pow(n + 1, DeepCount(segs));
  }

  /** `matchSegments`. `calls` counts it and every call it leads to. */
  method MatchSegments(ps: seq<Segment>, ss: seq<string>) returns (r: bool, ghost calls: nat)
    requires HasRuns(ps)
    ensures r <==> Denotes(ItemsOf(ps), ss)
    ensures 1 <= calls <= Budget(ps, |ss|)
    decreases |ps|
  {
    ghost var items := ItemsOf(ps);
    MatchesIsDenotes(items, ss);
    BudgetGrows(ps, |ss|, |ss|);
    calls := 1;
    if |ps| == 0 {
      return |ss| == 0, calls;
    }
    assert ItemsOf(ps[1..]) == items[1..];
    BudgetOfStep(ps, |ss|);
    if ps[0].Deep? {
      var least := 0;
      if |ps| == 1 {
        least := 1;
      }
      var i := least;
      ghost var each := Budget(ps[1..], |ss|);
      while i <= |ss|
        invariant least <= i
        invariant forall k :: least <= k < i && k <= |ss| ==> !Matches(items[1..], ss[k..])
        invariant i <= |ss| + 1 && calls <= 1 + i * each
      {
        var found, more := MatchSegments(ps[1..], ss[i..]);
        MatchesIsDenotes(items[1..], ss[i..]);
        BudgetGrows(ps[1..], |ss[i..]|, |ss|);
        calls := calls + more;
        OneMore(i, each, |ss| + 1);
        if found {
          assert Takes(items, ss, i);
          return true, calls;
        }
        i := i + 1;
      }
      return false, calls;
    }
    if |ss| == 0 {
      return false, calls;
    }
    var head := MatchSegment(ps[0].parts, ss[0]);
    if !head {
      return false, calls;
    }
    var rest, more := MatchSegments(ps[1..], ss[1..]);
    MatchesIsDenotes(items[1..], ss[1..]);
    BudgetGrows(ps[1..], |ss| - 1, |ss|);
    assert Takes(items, ss, 1);
    return rest, calls + more;
  }
}
