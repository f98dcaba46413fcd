/** Asking one authenticator after another. */
module Chains {
  import opened Wrappers

  /** `errors.Is` sees through the errors that an error wraps. */
  datatype Error = NotMine | Unauthenticated | Other(text: string) | Wrap(text: string, inner: seq<Error>)

  predicate Is(e: Error, target: Error)
    decreases e
  {
    e == target || (e.Wrap? && exists i :: 0 <= i < |e.inner| && Is(e.inner[i], target))
  }

  /** Following the errors wrapped at the indices of `path`, one inside the other, leads to `target`. */
  ghost predicate LeadsTo(e: Error, path: seq<nat>, target: Error)
    decreases |path|
  {
    if path == [] then e == target
    else e.Wrap? && path[0] < |e.inner| && LeadsTo(e.inner[path[0]], path[1..], target)
  }

  /** The error is the target or wraps it, at whatever depth. */
  ghost predicate Holds(e: Error, target: Error)
  {
    exists path :: LeadsTo(e, path, target)
  }

  lemma {:induction false} IsHasPath(e: Error, target: Error) returns (path: seq<nat>)
    requires Is(e, target)
    ensures LeadsTo(e, path, target)
    decreases e
  {
    if e == target {
      path := [];
    } else {
      var i :| 0 <= i < |e.inner| && Is(e.inner[i], target);
      var rest := IsHasPath(e.inner[i], target);
      path := [i as nat] + rest;
      assert path[1..] == rest;
    }
  }

  lemma {:induction false} PathHasIs(e: Error, path: seq<nat>, target: Error)
    requires LeadsTo(e, path, target)
    ensures Is(e, target)
    decreases |path|
  {
    if path != [] {
      PathHasIs(e.inner[path[0]], path[1..], target);
    }
  }

  /** Looking into each wrapped error in turn finds the target exactly when there is a way to it. */
  lemma IsExactly(e: Error, target: Error)
    ensures Is(e, target) <==> Holds(e, target)
  {
    if Is(e, target) {
      var path := IsHasPath(e, target);
    }
    if path :| LeadsTo(e, path, target) {
      PathHasIs(e, path, target);
    }
  }

  /** A claim is any JSON value; nothing here looks into one. */
  datatype Claim =
    | Null | Flag(b: bool) | Number(n: real) | Text(s: string)
    | List(elems: seq<Claim>) | Object(fields: map<string, Claim>)

  datatype Subject = Subject(
    id: string, provider: string, claims: map<string, Claim>, credentialExpiry: int, via: string)

  const ZERO_SUBJECT := Subject("", "", map[], 0, "")

  /** Go returns both; the subject next to an error is whatever it is. */
  datatype Reply = Reply(subject: Subject, err: Option<Error>)

  datatype Credential = Credential(username: string, password: string)

  /**
   An authenticator, opaque: what it answers and what it does to the world around it, its
   own state, the database, the clock and any other authenticator's state among it.
   */
  datatype Authenticator<!W> = Authenticator(
    authenticate: (W, Credential) -> (W, Reply),
    kind: Option<string>)

  class World<W> {
    var state: W

    constructor (w: W)
      ensures state == w
    {
      state := w;
    }

    method Authenticate(a: Authenticator<W>, c: Credential) returns (r: Reply)
      modifies this
      ensures (state, r) == a.authenticate(old(state), c)
    {
      var answer := a.authenticate(state, c);
      state, r := answer.0, answer.1;
    }

    /**
     `ask`. Whether and why the authenticator refuses is passed on, with no subject; of a
     subject it accepts nothing changes but an empty `via`, which becomes its kind.
     */
    method Ask(a: Authenticator<W>, c: Credential) returns (r: Reply)
      modifies this
      ensures (state, r) == Asked(a, c, old(state))
      ensures var answer := a.authenticate(old(state), c).1;
              && r.err == answer.err
              && (r.err.Some? ==> r.subject == ZERO_SUBJECT)
              && (r.err.None? ==> SameButVia(r.subject, answer.subject))
              && (r.err.None? && answer.subject.via != "" ==> r.subject == answer.subject)
              && (r.err.None? && answer.subject.via == "" && a.kind.Some? ==> r.subject.via == a.kind.value)
    {
      r := Authenticate(a, c);
      if r.err.Some? {
        return Reply(ZERO_SUBJECT, r.err);
      }
      var s := r.subject;
      if a.kind.Some? && s.via == "" {
        s := s.(via := a.kind.value);
      }
      return Reply(s, None);
    }

    /**
     `Chain.Authenticate`. The authenticators asked are the first `asked` and no others:
     each but the last declined, and the last decided unless it is the last of the chain.
     */
    method AuthenticateChain(chain: seq<Authenticator<W>>, c: Credential)
      returns (r: Reply, ghost asked: nat)
      modifies this
      ensures asked <= |chain| && state == After(chain[..asked], c, old(state))
      ensures Decision(chain, c, old(state), asked, r)
      ensures (state, r) == Run(chain, c, old(state))
    {
      for i := 0 to |chain|
        invariant state == After(chain[..i], c, old(state))
        invariant AllDecline(chain[..i], c, old(state))
      {
        r := Ask(chain[i], c);
        AfterStep(chain, i, c, old(state));
        if r.err.Some? {
          IsExactly(r.err.value, NotMine);
        }
        if r.err.Some? && Is(r.err.value, NotMine) {
          AllDeclineStep(chain, i, c, old(state));
          continue;
        }
        asked := i + 1;
        DecisionIsRun(chain, c, old(state), asked, r);
        return r, asked;
      }
      assert chain[..|chain|] == chain;
      r, asked := Reply(ZERO_SUBJECT, Some(Unauthenticated)), |chain|;
      DecisionIsRun(chain, c, old(state), asked, r);
    }
  }

  // ---------- one authenticator ----------

  /** The answer of one authenticator, with the kind that accepted the credential on the subject. */
  function Asked<W>(a: Authenticator<W>, c: Credential, w: W): (W, Reply)
  {
    var (w', r) := a.authenticate(w, c);
    if r.err.Some? then (w', Reply(ZERO_SUBJECT, r.err))
    else if a.kind.Some? && r.subject.via == "" then (w', Reply(r.subject.(via := a.kind.value), None))
    else (w', Reply(r.subject, None))
  }

  predicate SameButVia(s: Subject, t: Subject)
  {
    s.(via := "") == t.(via := "")
  }

  /** The name is not known to whoever answered: the error says so, or an error that it wraps does. */
  ghost predicate Declines(r: Reply)
  {
    r.err.Some? && Holds(r.err.value, NotMine)
  }

  // ---------- the chain, by what each member would do ----------

  /** The world after every one of the members was asked, whatever they answered. */
  function After<W>(members: seq<Authenticator<W>>, c: Credential, w: W): W
  {
    if members == [] then w
    else Asked(members[|members| - 1], c, After(members[..|members| - 1], c, w)).0
  }

  /** What the member at `k` answers when those before it were asked before it. */
  function Answer<W>(chain: seq<Authenticator<W>>, k: nat, c: Credential, w: W): Reply
    requires k < |chain|
  {
    Asked(chain[k], c, After(chain[..k], c, w)).1
  }

  ghost predicate DeclinesAt<W>(chain: seq<Authenticator<W>>, k: nat, c: Credential, w: W)
    requires k < |chain|
  {
    Declines(Answer(chain, k, c, w))
  }

  ghost predicate AllDecline<W>(members: seq<Authenticator<W>>, c: Credential, w: W)
  {
    forall k :: 0 <= k < |members| ==> DeclinesAt(members, k, c, w)
  }

  /**
   The first `asked` members were asked and `r` is the decision: the answer of the first
   that did not decline, or that the credential is wrong when there is none.
   */
  ghost predicate Decision<W>(chain: seq<Authenticator<W>>, c: Credential, w: W, asked: nat, r: Reply)
  {
    asked <= |chain| &&
    ( || (asked > 0 && AllDecline(chain[..asked - 1], c, w)
          && r == Answer(chain, asked - 1, c, w) && !Declines(r))
      || (asked == |chain| && AllDecline(chain, c, w)
          && r == Reply(ZERO_SUBJECT, Some(Unauthenticated))) )
  }

  lemma AfterStep<W>(chain: seq<Authenticator<W>>, k: nat, c: Credential, w: W)
    requires k < |chain|
    ensures After(chain[..k + 1], c, w) == Asked(chain[k], c, After(chain[..k], c, w)).0
  {
    assert chain[..k + 1][..k] == chain[..k];
  }

  lemma AnswerWithin<W>(chain: seq<Authenticator<W>>, n: nat, k: nat, c: Credential, w: W)
    requires k < n <= |chain|
    ensures Answer(chain[..n], k, c, w) == Answer(chain, k, c, w)
  {
    assert chain[..n][..k] == chain[..k];
  }

  lemma AllDeclineStep<W>(chain: seq<Authenticator<W>>, k: nat, c: Credential, w: W)
    requires k < |chain|
    ensures AllDecline(chain[..k + 1], c, w) <==> AllDecline(chain[..k], c, w) && DeclinesAt(chain, k, c, w)
  {
    var long, short := chain[..k + 1], chain[..k];
    AnswerWithin(chain, k + 1, k, c, w);
    assert DeclinesAt(long, k, c, w) <==> DeclinesAt(chain, k, c, w);
    forall j | 0 <= j < k ensures DeclinesAt(long, j, c, w) <==> DeclinesAt(short, j, c, w) {
      AnswerWithin(chain, k + 1, j, c, w);
      AnswerWithin(chain, k, j, c, w);
    }
    if AllDecline(long, c, w) {
      forall j | 0 <= j < k ensures DeclinesAt(short, j, c, w) {
        assert DeclinesAt(long, j, c, w);
      }
    }
    if AllDecline(short, c, w) && DeclinesAt(chain, k, c, w) {
      forall j | 0 <= j <= k ensures DeclinesAt(long, j, c, w) {
        assert j < k ==> DeclinesAt(short, j, c, w);
      }
    }
  }

  // ---------- the chain, from its first member on ----------

  ghost function Run<W>(chain: seq<Authenticator<W>>, c: Credential, w: W): (W, Reply)
  {
    if chain == [] then (w, Reply(ZERO_SUBJECT, Some(Unauthenticated)))
    else
      var (w', r) := Asked(chain[0], c, w);
      if Declines(r) then Run(chain[1..], c, w') else (w', r)
  }

  lemma {:induction false} AfterFirst<W>(chain: seq<Authenticator<W>>, c: Credential, w: W)
    requires chain != []
    ensures After(chain, c, w) == After(chain[1..], c, Asked(chain[0], c, w).0)
    decreases |chain|
  {
    var n := |chain| - 1;
    if n == 0 {
      assert chain[..0] == [];
    } else {
      AfterFirst(chain[..n], c, w);
      assert chain[1..][..n - 1] == chain[..n][1..];
    }
  }

  lemma AnswerFirst<W>(chain: seq<Authenticator<W>>, k: nat, c: Credential, w: W)
    requires k + 1 < |chain|
    ensures Answer(chain, k + 1, c, w) == Answer(chain[1..], k, c, Asked(chain[0], c, w).0)
  {
    AfterFirst(chain[..k + 1], c, w);
    assert chain[..k + 1][1..] == chain[1..][..k];
  }

  lemma AllDeclineFirst<W>(chain: seq<Authenticator<W>>, c: Credential, w: W)
    requires chain != [] && AllDecline(chain, c, w)
    ensures Declines(Asked(chain[0], c, w).1)
    ensures AllDecline(chain[1..], c, Asked(chain[0], c, w).0)
  {
    assert DeclinesAt(chain, 0, c, w) && chain[..0] == [];
    forall k | 0 <= k < |chain[1..]|
      ensures DeclinesAt(chain[1..], k, c, Asked(chain[0], c, w).0)
    {
      assert DeclinesAt(chain, k + 1, c, w);
      AnswerFirst(chain, k, c, w);
    }
  }

  /** The answer of the first member that does not decline is the decision. */
  lemma {:induction false} FirstThatKnows<W>(chain: seq<Authenticator<W>>, c: Credential, w: W, k: nat)
    requires k < |chain| && AllDecline(chain[..k], c, w) && !DeclinesAt(chain, k, c, w)
    ensures Run(chain, c, w) == (After(chain[..k + 1], c, w), Answer(chain, k, c, w))
    decreases |chain|
  {
    AfterFirst(chain[..k + 1], c, w);
    assert chain[..k + 1][1..] == chain[1..][..k];
    if k == 0 {
      assert chain[..0] == [];
    } else {
      AllDeclineFirst(chain[..k], c, w);
      AnswerFirst(chain, k - 1, c, w);
      assert chain[..k][1..] == chain[1..][..k - 1];
      FirstThatKnows(chain[1..], c, Asked(chain[0], c, w).0, k - 1);
    }
  }

  lemma {:induction false} NobodyKnows<W>(chain: seq<Authenticator<W>>, c: Credential, w: W)
    requires AllDecline(chain, c, w)
    ensures Run(chain, c, w) == (After(chain, c, w), Reply(ZERO_SUBJECT, Some(Unauthenticated)))
    decreases |chain|
  {
    if chain != [] {
      AllDeclineFirst(chain, c, w);
      AfterFirst(chain, c, w);
      NobodyKnows(chain[1..], c, Asked(chain[0], c, w).0);
    }
  }

  /** There is one decision, and taking the members from the first on comes to it. */
  lemma DecisionIsRun<W>(chain: seq<Authenticator<W>>, c: Credential, w: W, asked: nat, r: Reply)
    requires Decision(chain, c, w, asked, r)
    ensures Run(chain, c, w) == (After(chain[..asked], c, w), r)
  {
    if asked == |chain| && AllDecline(chain, c, w) && r == Reply(ZERO_SUBJECT, Some(Unauthenticated)) {
      assert chain[..asked] == chain;
      NobodyKnows(chain, c, w);
    } else {
      FirstThatKnows(chain, c, w, asked - 1);
    }
  }

  lemma {:induction false} RunHasDecision<W>(chain: seq<Authenticator<W>>, c: Credential, w: W, n: nat)
    returns (asked: nat)
    requires n <= |chain| && AllDecline(chain[..n], c, w)
    ensures Decision(chain, c, w, asked, Run(chain, c, w).1)
    decreases |chain| - n
  {
    var r := Reply(ZERO_SUBJECT, Some(Unauthenticated));
    if n == |chain| {
      assert chain[..n] == chain;
      asked := n;
      DecisionIsRun(chain, c, w, asked, r);
    } else if DeclinesAt(chain, n, c, w) {
      AllDeclineStep(chain, n, c, w);
      asked := RunHasDecision(chain, c, w, n + 1);
    } else {
      asked := n + 1;
      DecisionIsRun(chain, c, w, asked, Answer(chain, n, c, w));
    }
  }

  /** Who is asked does not depend on how one looks at it. */
  lemma AskedIsUnique<W>(chain: seq<Authenticator<W>>, c: Credential, w: W, a: nat, b: nat, r: Reply, s: Reply)
    requires Decision(chain, c, w, a, r) && Decision(chain, c, w, b, s)
    ensures a == b && r == s
  {
    DecisionIsRun(chain, c, w, a, r);
    DecisionIsRun(chain, c, w, b, s);
    if a < b {
      LastIsNotPassed(chain, c, w, a, r, b);
    } else if b < a {
      LastIsNotPassed(chain, c, w, b, s, a);
    }
  }

  lemma LastIsNotPassed<W>(chain: seq<Authenticator<W>>, c: Credential, w: W, a: nat, r: Reply, b: nat)
    requires Decision(chain, c, w, a, r) && a < b <= |chain|
    ensures !AllDecline(chain[..b - 1], c, w) && !AllDecline(chain, c, w)
  {
    assert !DeclinesAt(chain, a - 1, c, w);
    AnswerWithin(chain, b - 1, a - 1, c, w);
    assert !DeclinesAt(chain[..b - 1], a - 1, c, w);
  }

  // ---------- laws ----------

  /** A member whose error is that the name is not its own, or wraps that, is passed over. */
  lemma NotMineGoesOn<W>(a: Authenticator<W>, rest: seq<Authenticator<W>>, c: Credential, w: W, path: seq<nat>)
    requires var err := a.authenticate(w, c).1.err; err.Some? && LeadsTo(err.value, path, NotMine)
    ensures Run([a] + rest, c, w) == Run(rest, c, a.authenticate(w, c).0)
  {
    assert ([a] + rest)[1..] == rest;
  }

  /** The member at `k` leaves the next world and an error that says, or wraps, that the name is not its own. */
  ghost predicate PassedOver<W>(chain: seq<Authenticator<W>>, c: Credential, worlds: seq<W>, k: nat)
    requires k < |chain| && k + 1 < |worlds|
  {
    var (w', r) := chain[k].authenticate(worlds[k], c);
    w' == worlds[k + 1] && r.err.Some? && exists path :: LeadsTo(r.err.value, path, NotMine)
  }

  /** So however many are passed over, the chain goes on behind them in the world the last of them left. */
  lemma {:induction false} NotMineAllGoesOn<W>(chain: seq<Authenticator<W>>, c: Credential, worlds: seq<W>)
    requires 1 <= |worlds| <= |chain| + 1
    requires forall k :: 0 <= k < |worlds| - 1 ==> PassedOver(chain, c, worlds, k)
    ensures Run(chain, c, worlds[0]) == Run(chain[|worlds| - 1..], c, worlds[|worlds| - 1])
    decreases |worlds|
  {
    var n := |worlds| - 1;
    if n == 0 {
      assert chain[0..] == chain;
    } else {
      forall k | 0 <= k < n - 1 ensures PassedOver(chain[1..], c, worlds[1..], k) {
        assert PassedOver(chain, c, worlds, k + 1);
      }
      NotMineAllGoesOn(chain[1..], c, worlds[1..]);
      assert chain[1..][n - 1..] == chain[n..];
      assert PassedOver(chain, c, worlds, 0);
      var path :| LeadsTo(chain[0].authenticate(worlds[0], c).1.err.value, path, NotMine);
      NotMineGoesOn(chain[0], chain[1..], c, worlds[0], path);
      assert [chain[0]] + chain[1..] == chain;
    }
  }

  /** Any other error ends the chain, which passes it on. */
  lemma OtherErrorDecides<W>(a: Authenticator<W>, rest: seq<Authenticator<W>>, c: Credential, w: W)
    requires var err := a.authenticate(w, c).1.err;
             err.Some? && forall path :: !LeadsTo(err.value, path, NotMine)
    ensures Run([a] + rest, c, w) ==
            (a.authenticate(w, c).0, Reply(ZERO_SUBJECT, a.authenticate(w, c).1.err))
  {
    assert ([a] + rest)[0] == a;
  }

  /** A chain decides: it never says that the name is not its own, not even inside another error. */
  lemma {:induction false} ChainNeverDeclines<W>(chain: seq<Authenticator<W>>, c: Credential, w: W)
    ensures var err := Run(chain, c, w).1.err;
            err.Some? ==> forall path :: !LeadsTo(err.value, path, NotMine)
    decreases |chain|
  {
    if chain == [] {
      forall path ensures !LeadsTo(Unauthenticated, path, NotMine) {
      }
    } else {
      ChainNeverDeclines(chain[1..], c, Asked(chain[0], c, w).0);
    }
  }

  /** A longer chain decides as its first part where some member of that knows the name, else as the rest. */
  lemma {:induction false} RunOfConcat<W>(
    xs: seq<Authenticator<W>>, ys: seq<Authenticator<W>>, c: Credential, w: W)
    ensures Run(xs + ys, c, w) ==
            if AllDecline(xs, c, w) then Run(ys, c, After(xs, c, w)) else Run(xs, c, w)
    decreases |xs|
  {
    if xs == [] {
      assert xs + ys == ys;
    } else {
      var (w', r) := Asked(xs[0], c, w);
      assert (xs + ys)[0] == xs[0] && (xs + ys)[1..] == xs[1..] + ys;
      RunOfConcat(xs[1..], ys, c, w');
      AfterFirst(xs, c, w);
      if AllDecline(xs, c, w) {
        AllDeclineFirst(xs, c, w);
      } else if Declines(r) {
        var k :| 0 <= k < |xs| && !DeclinesAt(xs, k, c, w);
        assert xs[..0] == [];
        AnswerFirst(xs, k - 1, c, w);
        assert !DeclinesAt(xs[1..], k - 1, c, w');
      }
    }
  }

  /** A chain as a member of another; it is of no kind itself. */
  ghost function Nested<W>(chain: seq<Authenticator<W>>): Authenticator<W>
  {
    Authenticator((w, c) => Run(chain, c, w), None)
  }

  /** A refusal comes with the zero subject, whatever the member that refused had put beside its error. */
  lemma {:induction false} ErrorHasNoSubject<W>(chain: seq<Authenticator<W>>, c: Credential, w: W)
    ensures var r := Run(chain, c, w).1; r.err.Some? ==> r.subject == Subject("", "", map[], 0, "")
    decreases |chain|
  {
    if chain != [] {
      ErrorHasNoSubject(chain[1..], c, Asked(chain[0], c, w).0);
    }
  }

  lemma AskNested<W>(chain: seq<Authenticator<W>>, c: Credential, w: W)
    ensures Asked(Nested(chain), c, w) == Run(chain, c, w)
  {
    ErrorHasNoSubject(chain, c, w);
  }

  /** Nobody after a nested chain is ever asked. */
  lemma NestedDecides<W>(xs: seq<Authenticator<W>>, ys: seq<Authenticator<W>>, c: Credential, w: W)
    ensures Run([Nested(xs)] + ys, c, w) == Run(xs, c, w)
  {
    AskNested(xs, c, w);
    ChainNeverDeclines(xs, c, w);
    assert ([Nested(xs)] + ys)[0] == Nested(xs);
  }

  /**
   So putting the members of a chain in its place changes the decision exactly when none of
   them knows the name and those after them would not have left it, and the world, as it is.
   */
  lemma FlatteningChanges<W>(xs: seq<Authenticator<W>>, ys: seq<Authenticator<W>>, c: Credential, w: W)
    ensures Run([Nested(xs)] + ys, c, w) == Run(xs + ys, c, w) <==>
            AllDecline(xs, c, w) ==>
              Run(ys, c, After(xs, c, w)) == (After(xs, c, w), Reply(ZERO_SUBJECT, Some(Unauthenticated)))
  {
    NestedDecides(xs, ys, c, w);
    RunOfConcat(xs, ys, c, w);
    RunOfConcat(xs, [], c, w);
    assert xs + [] == xs;
  }

  /** Whoever accepted, a `via` that was set stays, and one that was not is the kind that was asked. */
  lemma ViaIsKept<W>(chain: seq<Authenticator<W>>, c: Credential, w: W, k: nat)
    requires k < |chain| && AllDecline(chain[..k], c, w)
    requires chain[k].authenticate(After(chain[..k], c, w), c).1.err.None?
    ensures var s := chain[k].authenticate(After(chain[..k], c, w), c).1.subject;
            Run(chain, c, w) == (After(chain[..k + 1], c, w),
              Reply(s.(via := if s.via == "" && chain[k].kind.Some? then chain[k].kind.value else s.via), None))
  {
    DecisionIsRun(chain, c, w, k + 1, Answer(chain, k, c, w));
  }
}
