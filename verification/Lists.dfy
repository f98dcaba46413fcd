/** Doing something to every element of a list, in order. */
module Lists {
  import opened Wrappers

  lemma Associative<A>(xs: seq<A>, ys: seq<A>, zs: seq<A>)
    ensures xs + (ys + zs) == xs + ys + zs
  {
  }

  // ---------- what each element yields, one after the other ----------

  function FlatMap<A, B>(xs: seq<A>, f: A -> seq<B>): seq<B>
  {
    if xs == [] then [] else FlatMap(xs[..|xs| - 1], f) + f(xs[|xs| - 1])
  }

  lemma FlatMapStep<A, B>(xs: seq<A>, n: nat, f: A -> seq<B>)
    requires n < |xs|
    ensures FlatMap(xs[..n + 1], f) == FlatMap(xs[..n], f) + f(xs[n])
  {
    assert xs[..n + 1][..n] == xs[..n];
  }

  lemma {:induction false} FlatMapOfConcat<A, B>(xs: seq<A>, ys: seq<A>, f: A -> seq<B>)
    ensures FlatMap(xs + ys, f) == FlatMap(xs, f) + FlatMap(ys, f)
    decreases |ys|
  {
    if ys == [] {
      assert xs + ys == xs;
    } else {
      var n := |ys| - 1;
      assert (xs + ys)[..|xs + ys| - 1] == xs + ys[..n];
      FlatMapOfConcat(xs, ys[..n], f);
    }
  }

  lemma FlatMapCut<A, B>(xs: seq<A>, n: nat, f: A -> seq<B>)
    requires n <= |xs|
    ensures FlatMap(xs, f) == FlatMap(xs[..n], f) + FlatMap(xs[n..], f)
  {
    var front, back := xs[..n], xs[n..];
    assert front + back == xs;
    FlatMapOfConcat(front, back, f);
  }

  lemma FlatMapFirst<A, B>(xs: seq<A>, f: A -> seq<B>)
    requires xs != []
    ensures FlatMap(xs, f) == f(xs[0]) + FlatMap(xs[1..], f)
  {
    FlatMapOfConcat([xs[0]], xs[1..], f);
    FlatMapOfOne(xs[0], f);
    assert [xs[0]] + xs[1..] == xs;
  }

  lemma FlatMapOfOne<A, B>(x: A, f: A -> seq<B>)
    ensures FlatMap([x], f) == f(x)
  {
    assert [x][..0] == [];
  }

  /** Elements that each yield themselves alone. */
  lemma {:induction false} FlatMapFixed<A>(xs: seq<A>, f: A -> seq<A>)
    requires forall i :: 0 <= i < |xs| ==> f(xs[i]) == [xs[i]]
    ensures FlatMap(xs, f) == xs
    decreases |xs|
  {
    if xs != [] {
      var n := |xs| - 1;
      FlatMapFixed(xs[..n], f);
      assert xs == xs[..n] + [xs[n]];
    }
  }

  /** What all that is yielded is like. */
  lemma {:induction false} FlatMapAll<A, B>(xs: seq<A>, f: A -> seq<B>, good: B -> bool)
    requires forall i, y :: 0 <= i < |xs| && y in f(xs[i]) ==> good(y)
    ensures forall y :: y in FlatMap(xs, f) ==> good(y)
    decreases |xs|
  {
    if xs != [] {
      var n := |xs| - 1;
      assert forall i :: 0 <= i < n ==> xs[..n][i] == xs[i];
      FlatMapAll(xs[..n], f, good);
    }
  }

  // ---------- what each element becomes, up to the first that cannot ----------

  function Then<B, E>(r: Result<seq<B>, E>, s: Result<B, E>): Result<seq<B>, E>
  {
    match r
    case Failure(e) => Failure(e)
    case Success(ys) =>
      match s
      case Failure(e) => Failure(e)
      case Success(y) => Success(ys + [y])
  }

  function TryMap<A, B, E>(xs: seq<A>, f: A -> Result<B, E>): (r: Result<seq<B>, E>)
    ensures r.Success? ==> |r.value| == |xs|
  {
    if xs == [] then Success([]) else Then(TryMap(xs[..|xs| - 1], f), f(xs[|xs| - 1]))
  }

  lemma TryMapStep<A, B, E>(xs: seq<A>, ys: seq<A>, n: nat, f: A -> Result<B, E>)
    requires n < |ys|
    ensures TryMap(xs + ys[..n + 1], f) == Then(TryMap(xs + ys[..n], f), f(ys[n]))
  {
    var all := xs + ys[..n + 1];
    assert all[..|all| - 1] == xs + ys[..n];
  }

  lemma TryMapNext<A, B, E>(xs: seq<A>, n: nat, f: A -> Result<B, E>)
    requires n < |xs|
    ensures TryMap(xs[..n + 1], f) == Then(TryMap(xs[..n], f), f(xs[n]))
  {
    assert xs[..n + 1][..n] == xs[..n];
  }

  /** An error stands whatever comes after it. */
  lemma {:induction false} TryMapStands<A, B, E>(xs: seq<A>, more: seq<A>, f: A -> Result<B, E>)
    requires TryMap(xs, f).Failure?
    ensures TryMap(xs + more, f) == TryMap(xs, f)
    decreases |more|
  {
    if more == [] {
      assert xs + more == xs;
    } else {
      var n := |more| - 1;
      TryMapStep(xs, more, n, f);
      assert more[..n + 1] == more;
      TryMapStands(xs, more[..n], f);
    }
  }

  /** One turn of a loop over `ys` that has come to `n`, with `got` so far. */
  lemma TryMapTurn<A, B, E>(xs: seq<A>, ys: seq<A>, n: nat, f: A -> Result<B, E>, got: seq<B>)
    requires n < |ys| && TryMap(xs + ys[..n], f) == Success(got)
    ensures f(ys[n]).Success? ==> TryMap(xs + ys[..n + 1], f) == Success(got + [f(ys[n]).value])
    ensures f(ys[n]).Failure? ==> TryMap(xs + ys, f) == Failure(f(ys[n]).error)
  {
    TryMapStep(xs, ys, n, f);
    if f(ys[n]).Failure? {
      TryMapStands(xs + ys[..n + 1], ys[n + 1..], f);
      assert xs + ys[..n + 1] + ys[n + 1..] == xs + ys;
    }
  }

  predicate AllSucceed<A, B, E>(xs: seq<A>, f: A -> Result<B, E>)
  {
    forall i :: 0 <= i < |xs| ==> f(xs[i]).Success?
  }

  /** All succeed exactly when each does, and each becomes what it would alone. */
  lemma {:induction false} TryMapIs<A, B, E>(xs: seq<A>, f: A -> Result<B, E>)
    ensures TryMap(xs, f).Success? <==> AllSucceed(xs, f)
    ensures TryMap(xs, f).Success? ==>
              forall i :: 0 <= i < |xs| ==> f(xs[i]) == Success(TryMap(xs, f).value[i])
    decreases |xs|
  {
    if xs != [] {
      var n := |xs| - 1;
      TryMapIs(xs[..n], f);
      assert forall i :: 0 <= i < n ==> xs[..n][i] == xs[i];
    }
  }

  /** Otherwise the error is that of the first that does not. */
  lemma TryMapFails<A, B, E>(xs: seq<A>, k: nat, f: A -> Result<B, E>)
    requires k < |xs| && AllSucceed(xs[..k], f) && f(xs[k]).Failure?
    ensures TryMap(xs, f) == Failure(f(xs[k]).error)
  {
    TryMapIs(xs[..k], f);
    TryMapNext(xs, k, f);
    TryMapStands(xs[..k + 1], xs[k + 1..], f);
    assert xs[..k + 1] + xs[k + 1..] == xs;
  }
}
