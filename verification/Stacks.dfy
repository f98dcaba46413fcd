/** Servers in front of servers: stacking them, and looking into a stack. */
module Stacks {
  import opened Wrappers
  import opened Lists

  /**
   A Go interface value: nil, a server that answers by itself, or a middleware with the
   server behind it. `impl` is everything else about a server, its dynamic type among it.
   */
  datatype Server<L> = Nil | Sink(impl: L) | Middleware(impl: L, next: Server<L>)

  type Stack<L> = seq<Server<L>>

  // ---------- looking into a stack ----------

  /** `s` and the servers behind it, from the outermost to the last. */
  function Walk<L>(s: Server<L>): Stack<L>
  {
    match s
    case Nil => []
    case Sink(_) => [s]
    case Middleware(_, next) => [s] + Walk(next)
  }

  /** `Overlay.Next`, and that of any other middleware. */
  function Next<L>(s: Server<L>): Server<L>
    requires s.Middleware?
  {
    s.next
  }

  /** The consumer wanted more after the first `n` servers, and after each before them. */
  predicate Wanted<L>(seen: Stack<L>, n: int, wantsMore: Stack<L> -> bool)
    requires n <= |seen|
  {
    forall k :: 0 < k <= n ==> wantsMore(seen[..k])
  }

  lemma WantedStep<L>(seen: Stack<L>, s: Server<L>, wantsMore: Stack<L> -> bool)
    requires Wanted(seen, |seen|, wantsMore)
    ensures Wanted(seen + [s], |seen|, wantsMore)
    ensures wantsMore(seen + [s]) ==> Wanted(seen + [s], |seen| + 1, wantsMore)
  {
    var more := seen + [s];
    assert more[..|more|] == more;
    assert forall k :: 0 <= k <= |seen| ==> more[..k] == seen[..k];
  }

  lemma WantedFewer<L>(seen: Stack<L>, wantsMore: Stack<L> -> bool)
    requires Wanted(seen, |seen|, wantsMore)
    ensures Wanted(seen, |seen| - 1, wantsMore)
  {
  }

  lemma WalkStep<L>(seen: Stack<L>, s: Server<L>)
    requires s != Nil
    ensures s.Middleware? ==> seen + Walk(s) == seen + [s] + Walk(s.next)
    ensures !s.Middleware? ==> seen + Walk(s) == seen + [s]
  {
    if s.Middleware? {
      Associative(seen, [s], Walk(s.next));
    }
  }

  /**
   `Iter`. The consumer is asked after each server whether it wants more, and may go by all
   it has seen; what it is given is the walk, up to the first server after which it does not.
   */
  method Iter<L>(from: Server<L>, wantsMore: Stack<L> -> bool) returns (seen: Stack<L>)
    ensures seen <= Walk(from)
    ensures Wanted(seen, |seen| - 1, wantsMore)
    ensures seen == Walk(from) || (seen != [] && !wantsMore(seen))
  {
    var s := from;
    seen := [];
    while s != Nil
      invariant Walk(from) == seen + Walk(s)
      invariant Wanted(seen, |seen|, wantsMore)
      decreases s
    {
      WantedStep(seen, s, wantsMore);
      WalkStep(seen, s);
      seen := seen + [s];
      if !wantsMore(seen) {
        return;
      }
      if !s.Middleware? {
        return;
      }
      s := Next(s);
    }
    assert seen + [] == seen;
    WantedFewer(seen, wantsMore);
  }

  /** The outermost server of a walk that is a `T`. */
  function FirstOf<L>(servers: Stack<L>, isT: Server<L> -> bool): (r: Option<Server<L>>)
  {
    if servers == [] then None
    else if isT(servers[0]) then Some(servers[0])
    else FirstOf(servers[1..], isT)
  }

  /** `Find`. */
  method Find<L>(from: Server<L>, isT: Server<L> -> bool) returns (r: Option<Server<L>>)
    ensures r == FirstOf(Walk(from), isT)
  {
    var s := from;
    while s != Nil
      invariant FirstOf(Walk(from), isT) == FirstOf(Walk(s), isT)
      decreases s
    {
      if isT(s) {
        return Some(s);
      }
      if !s.Middleware? {
        return None;
      }
      s := Next(s);
    }
    return None;
  }

  /** The last of a walk; the walk of nil is empty and ends at nil. */
  function LastOf<L>(s: Server<L>): Server<L>
  {
    if Walk(s) == [] then Nil else Walk(s)[|Walk(s)| - 1]
  }

  /** `SinkOf`. */
  method SinkOf<L>(from: Server<L>) returns (r: Server<L>)
    ensures r == LastOf(from)
  {
    r := from;
    var s := from;
    while s != Nil
      invariant LastOf(s) == if s == Nil then Nil else LastOf(from)
      invariant s == Nil ==> r == LastOf(from)
      decreases s
    {
      r := s;
      if !s.Middleware? {
        return;
      }
      s := Next(s);
    }
  }

  lemma {:induction false} FirstOfIs<L>(servers: Stack<L>, isT: Server<L> -> bool)
    ensures match FirstOf(servers, isT)
            case None => forall i :: 0 <= i < |servers| ==> !isT(servers[i])
            case Some(s) => exists i :: 0 <= i < |servers| && servers[i] == s && isT(s) &&
                                        forall j :: 0 <= j < i ==> !isT(servers[j])
    decreases |servers|
  {
    if servers != [] && !isT(servers[0]) {
      FirstOfIs(servers[1..], isT);
      assert forall i :: 0 < i < |servers| ==> servers[i] == servers[1..][i - 1];
      if FirstOf(servers, isT).Some? {
        var i :| 0 <= i < |servers[1..]| && servers[1..][i] == FirstOf(servers, isT).value &&
                 forall j :: 0 <= j < i ==> !isT(servers[1..][j]);
        assert servers[i + 1] == FirstOf(servers, isT).value;
      }
    }
  }

  lemma {:induction false} FirstOfConcat<L>(xs: Stack<L>, ys: Stack<L>, isT: Server<L> -> bool)
    ensures FirstOf(xs + ys, isT) ==
            if FirstOf(xs, isT).Some? then FirstOf(xs, isT) else FirstOf(ys, isT)
    decreases |xs|
  {
    if xs == [] {
      assert xs + ys == ys;
    } else {
      assert (xs + ys)[1..] == xs[1..] + ys;
      FirstOfConcat(xs[1..], ys, isT);
    }
  }

  // ---------- building a stack ----------

  /** A builder, opaque: it may look at the world and change it, and it may fail. */
  datatype Builder<!W, !L> = Builder(build: (W, Server<L>) -> (W, Result<Server<L>, string>))

  /** Which builder failed, and with what. */
  datatype BuildError = BuildError(index: nat, text: string)

  class World<W> {
    var state: W

    constructor (w: W)
      ensures state == w
    {
      state := w;
    }

    method BuildOne<L>(b: Builder<W, L>, next: Server<L>) returns (r: Result<Server<L>, string>)
      modifies this
      ensures (state, r) == b.build(old(state), next)
    {
      var built := b.build(state, next);
      state, r := built.0, built.1;
    }

    /**
     `Build`. The builders that ran are the one that failed, if any did, and those before
     it: `stages` are the sink and what each of the others built, `worlds` the worlds they
     built it in.
     */
    method Build<L>(sink: Server<L>, mws: seq<Builder<W, L>>)
      returns (r: Result<Server<L>, BuildError>, ghost worlds: seq<W>, ghost stages: Stack<L>)
      modifies this
      ensures IsRun(sink, mws, old(state), worlds, stages)
      ensures Outcome(mws, worlds, stages, state, r)
    {
      var s := sink;
      worlds, stages := [state], [sink];
      for i := 0 to |mws|
        invariant |worlds| == |stages| == i + 1 && s == stages[i] && state == worlds[i]
        invariant IsRun(sink, mws, old(state), worlds, stages)
      {
        var v := BuildOne(mws[i], s);
        if v.Failure? {
          return Failure(BuildError(i, v.error)), worlds, stages;
        }
        RunStep(sink, mws, old(state), worlds, stages, state, v.value);
        s := v.value;
        worlds, stages := worlds + [state], stages + [s];
      }
      return Success(s), worlds, stages;
    }
  }

  /** The builder at `k` was given stage `k` and built the next. */
  ghost predicate Built<W, L>(mws: seq<Builder<W, L>>, worlds: seq<W>, stages: Stack<L>, k: nat)
    requires |worlds| == |stages| && k + 1 < |stages| <= |mws| + 1
  {
    mws[k].build(worlds[k], stages[k]) == (worlds[k + 1], Success(stages[k + 1]))
  }

  ghost predicate IsRun<W, L>(sink: Server<L>, mws: seq<Builder<W, L>>, w: W, worlds: seq<W>, stages: Stack<L>)
  {
    && |worlds| == |stages| && 1 <= |stages| <= |mws| + 1
    && worlds[0] == w && stages[0] == sink
    && forall k :: 0 <= k < |stages| - 1 ==> Built(mws, worlds, stages, k)
  }

  lemma RunStep<W, L>(
    sink: Server<L>, mws: seq<Builder<W, L>>, w: W, worlds: seq<W>, stages: Stack<L>, w': W, v: Server<L>)
    requires IsRun(sink, mws, w, worlds, stages) && |stages| <= |mws|
    requires mws[|stages| - 1].build(worlds[|stages| - 1], stages[|stages| - 1]) == (w', Success(v))
    ensures IsRun(sink, mws, w, worlds + [w'], stages + [v])
  {
    var ws, ss, n := worlds + [w'], stages + [v], |stages| - 1;
    forall k | 0 <= k <= n ensures Built(mws, ws, ss, k) {
      assert k < n ==> Built(mws, worlds, stages, k);
    }
  }

  /** All builders succeeded, or the first that was yet to run failed and left this world. */
  ghost predicate Outcome<W, L>(
    mws: seq<Builder<W, L>>, worlds: seq<W>, stages: Stack<L>, w: W, r: Result<Server<L>, BuildError>)
    requires |worlds| == |stages| && 1 <= |stages| <= |mws| + 1
  {
    var n := |stages| - 1;
    match r
    case Success(v) => n == |mws| && v == stages[n] && w == worlds[n]
    case Failure(e) => n < |mws| && e.index == n && mws[n].build(worlds[n], stages[n]) == (w, Failure(e.text))
  }

  lemma {:induction false} RunsAgree<W, L>(
    sink: Server<L>, mws: seq<Builder<W, L>>, w: W,
    ws: seq<W>, ss: Stack<L>, vs: seq<W>, ts: Stack<L>, k: nat)
    requires IsRun(sink, mws, w, ws, ss) && IsRun(sink, mws, w, vs, ts)
    requires k < |ss| && k < |ts|
    ensures ws[k] == vs[k] && ss[k] == ts[k]
    decreases k
  {
    if k > 0 {
      RunsAgree(sink, mws, w, ws, ss, vs, ts, k - 1);
      assert Built(mws, ws, ss, k - 1) && Built(mws, vs, ts, k - 1);
    }
  }

  /** From one sink, one list of builders and one world there is one outcome. */
  lemma OutcomeIsUnique<W, L>(
    sink: Server<L>, mws: seq<Builder<W, L>>, w: W,
    ws: seq<W>, ss: Stack<L>, x: W, q: Result<Server<L>, BuildError>,
    vs: seq<W>, ts: Stack<L>, y: W, r: Result<Server<L>, BuildError>)
    requires IsRun(sink, mws, w, ws, ss) && Outcome(mws, ws, ss, x, q)
    requires IsRun(sink, mws, w, vs, ts) && Outcome(mws, vs, ts, y, r)
    ensures x == y && q == r && |ss| == |ts|
  {
    var n := (if |ss| < |ts| then |ss| else |ts|) - 1;
    RunsAgree(sink, mws, w, ws, ss, vs, ts, n);
    assert n < |ss| - 1 ==> Built(mws, ws, ss, n);
    assert n < |ts| - 1 ==> Built(mws, vs, ts, n);
  }

  // ---------- one list of builders after another ----------

  lemma BuiltShift<W, L>(
    xs: seq<Builder<W, L>>, ys: seq<Builder<W, L>>,
    ws: seq<W>, ss: Stack<L>, vs: seq<W>, ts: Stack<L>, k: nat)
    requires |ws| == |ss| == |xs| + 1 && 1 <= |vs| == |ts| <= |ys| + 1
    requires ws[|xs|] == vs[0] && ss[|xs|] == ts[0]
    requires k + 1 < |ss + ts[1..]|
    ensures Built(xs + ys, ws + vs[1..], ss + ts[1..], k) <==>
            if k < |xs| then Built(xs, ws, ss, k) else Built(ys, vs, ts, k - |xs|)
  {
    var n := |xs|;
    assert forall j :: n <= j < n + |ts| ==> (ss + ts[1..])[j] == ts[j - n] && (ws + vs[1..])[j] == vs[j - n];
    assert (xs + ys)[k] == if k < n then xs[k] else ys[k - n];
  }

  lemma RunGoesOn<W, L>(
    sink: Server<L>, xs: seq<Builder<W, L>>, ys: seq<Builder<W, L>>, w: W,
    ws: seq<W>, ss: Stack<L>, vs: seq<W>, ts: Stack<L>)
    requires IsRun(sink, xs, w, ws, ss) && |ss| == |xs| + 1
    requires IsRun(ss[|xs|], ys, ws[|xs|], vs, ts)
    ensures IsRun(sink, xs + ys, w, ws + vs[1..], ss + ts[1..])
  {
    forall k | 0 <= k < |ss + ts[1..]| - 1 ensures Built(xs + ys, ws + vs[1..], ss + ts[1..], k) {
      BuiltShift(xs, ys, ws, ss, vs, ts, k);
      assert k < |xs| ==> Built(xs, ws, ss, k);
      assert k >= |xs| ==> Built(ys, vs, ts, k - |xs|);
    }
  }

  lemma FailureStands<W, L>(
    sink: Server<L>, xs: seq<Builder<W, L>>, ys: seq<Builder<W, L>>, w: W,
    ws: seq<W>, ss: Stack<L>, x: W, q: Result<Server<L>, BuildError>)
    requires IsRun(sink, xs, w, ws, ss) && Outcome(xs, ws, ss, x, q) && q.Failure?
    ensures IsRun(sink, xs + ys, w, ws, ss) && Outcome(xs + ys, ws, ss, x, q)
  {
    forall k | 0 <= k < |ss| - 1 ensures Built(xs + ys, ws, ss, k) {
      assert Built(xs, ws, ss, k);
    }
  }

  /** The outcome of building with builders that come after `n` others. */
  function Shifted<L>(r: Result<Server<L>, BuildError>, n: nat): Result<Server<L>, BuildError>
  {
    match r
    case Success(_) => r
    case Failure(e) => Failure(e.(index := e.index + n))
  }

  /**
   Building with the builders of two lists: a failure among the first is the failure of
   both, and the others do not run; else the others go on from what the first built, and
   their outcome is that of both.
   */
  lemma RunOfConcat<W, L>(
    sink: Server<L>, xs: seq<Builder<W, L>>, ys: seq<Builder<W, L>>, w: W,
    ws: seq<W>, ss: Stack<L>, x: W, q: Result<Server<L>, BuildError>,
    vs: seq<W>, ts: Stack<L>, y: W, r: Result<Server<L>, BuildError>)
    requires IsRun(sink, xs, w, ws, ss) && Outcome(xs, ws, ss, x, q)
    requires q.Success? ==> IsRun(q.value, ys, x, vs, ts) && Outcome(ys, vs, ts, y, r)
    ensures if q.Failure?
            then IsRun(sink, xs + ys, w, ws, ss) && Outcome(xs + ys, ws, ss, x, q)
            else IsRun(sink, xs + ys, w, ws + vs[1..], ss + ts[1..])
                 && Outcome(xs + ys, ws + vs[1..], ss + ts[1..], y, Shifted(r, |xs|))
  {
    if q.Failure? {
      FailureStands(sink, xs, ys, w, ws, ss, x, q);
    } else {
      RunGoesOn(sink, xs, ys, w, ws, ss, vs, ts);
      var n := |ts| - 1;
      assert (ss + ts[1..])[|xs| + n] == ts[n] && (ws + vs[1..])[|xs| + n] == vs[n];
      assert n < |ys| ==> (xs + ys)[|xs| + n] == ys[n];
    }
  }

  // ---------- the stack that was built ----------

  /** Every builder put one server in front of the one it was given. */
  ghost predicate EachWraps<L>(stages: Stack<L>)
  {
    forall k :: 0 < k < |stages| ==> stages[k].Middleware? && stages[k].next == stages[k - 1]
  }

  /** Whatever it is given in whatever world, what the builder builds has that as its next. */
  ghost predicate Wraps<W(!new), L(!new)>(b: Builder<W, L>)
  {
    forall w: W, next: Server<L> :: WrapsIn(b, w, next)
  }

  ghost predicate WrapsIn<W, L>(b: Builder<W, L>, w: W, next: Server<L>)
  {
    var r := b.build(w, next).1;
    r.Success? ==> r.value.Middleware? && r.value.next == next
  }

  lemma WrappersWrap<W(!new), L(!new)>(
    sink: Server<L>, mws: seq<Builder<W, L>>, w: W, worlds: seq<W>, stages: Stack<L>)
    requires IsRun(sink, mws, w, worlds, stages)
    requires forall k :: 0 <= k < |mws| ==> Wraps(mws[k])
    ensures EachWraps(stages)
  {
    forall k | 0 < k < |stages| ensures stages[k].Middleware? && stages[k].next == stages[k - 1] {
      assert Built(mws, worlds, stages, k - 1);
      assert Wraps(mws[k - 1]) && WrapsIn(mws[k - 1], worlds[k - 1], stages[k - 1]);
    }
  }

  function Reverse<L>(servers: Stack<L>): Stack<L>
  {
    if servers == [] then [] else Reverse(servers[1..]) + [servers[0]]
  }

  lemma {:induction false} ReverseOfConcat<L>(xs: Stack<L>, ys: Stack<L>)
    ensures Reverse(xs + ys) == Reverse(ys) + Reverse(xs)
    decreases |xs|
  {
    if xs == [] {
      assert xs + ys == ys;
    } else {
      assert (xs + ys)[1..] == xs[1..] + ys;
      ReverseOfConcat(xs[1..], ys);
    }
  }

  /** The last builder's server is the outermost, and behind the first builder's is the sink's own walk. */
  lemma {:induction false} WalkOfBuilt<L>(stages: Stack<L>)
    requires stages != [] && EachWraps(stages)
    ensures Walk(stages[|stages| - 1]) == Reverse(stages[1..]) + Walk(stages[0])
    decreases |stages|
  {
    var n := |stages| - 1;
    if n > 0 {
      var init, last := stages[..n], stages[n];
      WalkOfBuilt(init);
      assert last.next == init[n - 1];
      ReverseOfConcat(init[1..], [last]);
      assert stages[1..] == init[1..] + [last];
      assert Reverse([last]) == [last];
      Associative([last], Reverse(init[1..]), Walk(init[0]));
    }
  }

  /** `Find` asks the built servers first, the last built before the others, and then the sink's stack. */
  lemma FindInBuilt<L>(stages: Stack<L>, isT: Server<L> -> bool)
    requires stages != [] && EachWraps(stages)
    ensures var found := FirstOf(Reverse(stages[1..]), isT);
            FirstOf(Walk(stages[|stages| - 1]), isT) ==
            if found.Some? then found else FirstOf(Walk(stages[0]), isT)
  {
    WalkOfBuilt(stages);
    FirstOfConcat(Reverse(stages[1..]), Walk(stages[0]), isT);
  }

  lemma WalkOfLast<L>(s: Server<L>)
    ensures s != Nil ==> Walk(s) != [] && LastOf(s) != Nil && |Walk(LastOf(s))| == 1
    ensures s.Middleware? && s.next != Nil ==> LastOf(s) == LastOf(s.next)
    decreases s
  {
    if s.Middleware? && s.next != Nil {
      WalkOfLast(s.next);
    }
  }

  /** The stack ends where the sink's own stack does, unless something was built in front of nil. */
  lemma SinkOfBuilt<L>(stages: Stack<L>)
    requires stages != [] && EachWraps(stages)
    ensures LastOf(stages[|stages| - 1]) == LastOf(stages[0]) <==> stages[0] != Nil || |stages| == 1
  {
    WalkOfBuilt(stages);
    WalkOfLast(stages[0]);
    WalkOfLast(stages[|stages| - 1]);
  }

  /** Every builder put servers of its own, any number of them, in front of what it was given. */
  ghost predicate EachAdds<L>(stages: Stack<L>, layers: seq<Stack<L>>)
  {
    && |stages| == |layers| + 1
    && forall k :: 0 <= k < |layers| ==> Walk(stages[k + 1]) == layers[k] + Walk(stages[k])
  }

  /** The layers from the last to the first. */
  function Piled<L>(layers: seq<Stack<L>>): Stack<L>
  {
    if layers == [] then [] else layers[|layers| - 1] + Piled(layers[..|layers| - 1])
  }

  /** Whatever each builder adds, the walk is what they added, the last first, and then the sink's own walk. */
  lemma {:induction false} WalkOfLayers<L>(stages: Stack<L>, layers: seq<Stack<L>>)
    requires EachAdds(stages, layers)
    ensures Walk(stages[|layers|]) == Piled(layers) + Walk(stages[0])
    ensures stages[0] != Nil ==> LastOf(stages[|layers|]) == LastOf(stages[0])
    decreases |layers|
  {
    var n := |layers|;
    if n > 0 {
      var init := layers[..n - 1];
      WalkOfLayers(stages[..n], init);
      assert Walk(stages[n]) == layers[n - 1] + Walk(stages[n - 1]);
      Associative(layers[n - 1], Piled(init), Walk(stages[0]));
    }
    WalkOfLast(stages[0]);
  }

  /** What a stack ends at is the very server it was built on exactly when that has nothing behind it. */
  lemma SinkIsItself<L>(s: Server<L>)
    ensures LastOf(s) == s <==> !(s.Middleware? && s.next != Nil)
  {
    WalkOfLast(s);
    if s.Middleware? && s.next != Nil {
      WalkOfLast(s.next);
      assert |Walk(s)| > 1;
    }
  }

  /**
   When each builder wraps what it is given, what the stack ends at is the server it was
   built on exactly when that server has nothing behind it and is not a nil that something
   was built in front of.
   */
  lemma SinkIsWhatWasGiven<L>(stages: Stack<L>)
    requires stages != [] && EachWraps(stages)
    ensures LastOf(stages[|stages| - 1]) == stages[0] <==>
            (stages[0] != Nil || |stages| == 1) && !(stages[0].Middleware? && stages[0].next != Nil)
  {
    SinkOfBuilt(stages);
    SinkIsItself(stages[0]);
    WalkOfBuilt(stages);
    WalkOfLast(stages[0]);
    WalkOfLast(stages[|stages| - 1]);
  }

  /** A stack used as a sink: what is found is the end of that stack, not the stack. */
  lemma StackAsSink<L>(end: L, behind: L, front: L)
    ensures var sink := Middleware(behind, Sink(end));
            var top := Middleware(front, sink);
            EachWraps([sink, top]) && LastOf(top) == Sink(end) != sink
  {
    var sink := Middleware(behind, Sink(end));
    assert Walk(sink) == [sink, Sink(end)];
    assert Walk(Middleware(front, sink)) == [Middleware(front, sink)] + [sink, Sink(end)];
  }

  /** A nil sink: what is found is the first server built. */
  lemma NilAsSink<L>(front: L)
    ensures var top: Server<L> := Middleware(front, Nil);
            EachWraps([Nil, top]) && LastOf(top) == top != Nil
  {
    var top: Server<L> := Middleware(front, Nil);
    assert Walk(top) == [top];
  }

  /** What `Build` gives back when every builder wraps, seen by `Iter` and by `SinkOf`. */
  lemma BuiltByWrappers<W(!new), L(!new)>(
    sink: Server<L>, mws: seq<Builder<W, L>>, w: W, worlds: seq<W>, stages: Stack<L>, x: W, v: Server<L>)
    requires IsRun(sink, mws, w, worlds, stages) && Outcome(mws, worlds, stages, x, Success(v))
    requires forall k :: 0 <= k < |mws| ==> Wraps(mws[k])
    ensures |stages| == |mws| + 1 && Walk(v) == Reverse(stages[1..]) + Walk(sink)
    ensures LastOf(v) == sink <==> (sink != Nil || mws == []) && !(sink.Middleware? && sink.next != Nil)
  {
    WrappersWrap(sink, mws, w, worlds, stages);
    WalkOfBuilt(stages);
    SinkIsWhatWasGiven(stages);
  }
}
