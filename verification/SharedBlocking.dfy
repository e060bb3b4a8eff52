/** When waiting pushers can block each other for good on the queue's real semaphores. */
module SharedBlocking {
  import Q = SlottedQueue
  import S = Semaphore
  import B = QueueBlocking
  import opened SharedQueue
  import opened QueueCallers
  import opened Wrappers

  /** Everybody waits for as long as it takes. */
  const WAITERS := Callers(S.Discipline(true, false, false), S.Discipline(true, false, false))

  /** A push that begins, or a call that finds no permit and goes to wait. */
  ghost predicate Idles(s: State, e: Step)
    requires Enabled(s, e)
  {
    || (e.Queue? && e.op.BeginPush?)
    || ((e.OnFree? || e.OnMsgs?) && e.call.Decrement? && Next(s, e).q == s.q)
  }

  /** Nobody can go on: all that can still happen is that others come and wait as well. */
  ghost predicate Stuck(s: State) {
    forall e: Step :: Enabled(s, e) && Allowed(WAITERS, e) ==> Idles(s, e)
  }

  /** What a state reached by waiting callers satisfies. */
  ghost predicate Known(s: State) {
    Linked(s) && Q.Inv(s.q) && S.Kept(s.free, WAITERS.pushers) && S.Kept(s.msgs, WAITERS.poppers)
  }

  lemma ReachKnown(n: nat, s: State)
    requires Reach(n, WAITERS, s)
    ensures Known(s) && |s.q.ring| == n
  {
    hide Linked, Q.Inv, S.Kept, Within;
    var steps: seq<Step>, states: seq<State> :|
      IsRun(n, steps, states) && Obeys(steps, WAITERS) && states[|steps|] == s;
    UniformKeepsQueue(n, steps, states, WAITERS, |steps|);
    UniformIsWithin(n, steps, states, WAITERS, |steps|);
  }

  // ----- stuck on the semaphores is stuck in the queue -----

  /** Nobody owes a post, and nobody waits who could be woken. */
  ghost predicate Settled(s: State) {
    && s.free.posting == {} && s.msgs.posting == {}
    && (s.free.waiting == {} || s.free.kernel == 0)
    && (s.msgs.waiting == {} || s.msgs.kernel == 0)
  }

  lemma StuckIsSettled(s: State)
    requires Known(s)
    ensures Stuck(s) ==> Settled(s)
  {
    hide Q.Inv;
    if t :| t in s.free.posting { assert !Idles(s, OnFree(S.Post(t))); }
    if t :| t in s.msgs.posting { assert !Idles(s, OnMsgs(S.Post(t))); }
    if t :| t in s.free.waiting && s.free.kernel > 0 { assert !Idles(s, OnFree(S.Wake(t))); }
    if t :| t in s.msgs.waiting && s.msgs.kernel > 0 { assert !Idles(s, OnMsgs(S.Wake(t))); }
  }

  /** Without a post owed, the permits left are the positive part of the counter, and
      nobody waits beside them. */
  lemma PermitsLeft(f: S.State)
    requires S.Kept(f, S.Discipline(true, false, false)) && f.posting == {} && (f.waiting == {} || f.kernel == 0)
    ensures f.undoing == {} && f.kernel == 0 && f.init + f.incs - f.decs == (if f.count > 0 then f.count else 0)
    ensures f.count > 0 ==> f.waiting == {}
  {
  }

  lemma NoPermits(s: State)
    requires Known(s) && Settled(s)
    ensures s.free.undoing == {} && s.msgs.undoing == {}
    ensures s.free.kernel == 0 && s.msgs.kernel == 0
    ensures s.q.free == (if s.free.count > 0 then s.free.count else 0)
    ensures s.q.msgs == (if s.msgs.count > 0 then s.msgs.count else 0)
    ensures s.free.count > 0 ==> s.free.waiting == {}
    ensures s.msgs.count > 0 ==> s.msgs.waiting == {}
  {
    hide Q.Inv, S.Kept, S.Balanced;
    PermitsLeft(s.free);
    PermitsLeft(s.msgs);
  }

  lemma {:induction false} Above(ts: set<nat>) returns (t: nat)
    ensures forall x <- ts :: x < t
    decreases ts
  {
    if ts == {} {
      t := 0;
    } else {
      var x: nat :| x in ts;
      var rest := Above(ts - {x});
      t := if rest <= x then x + 1 else rest;
      forall y | y in ts ensures y < t { assert y == x || y in ts - {x}; }
    }
  }

  /** Whatever the queue's own machine allows, other than giving up, one of its threads
      can do, or another in its place. */
  lemma CanGoOn(s: State, o: Q.Step) returns (e: Step)
    requires Known(s) && Settled(s) && Q.Enabled(s.q, o) && !o.BeginPush? && !o.GiveUp?
    ensures Enabled(s, e) && Allowed(WAITERS, e) && !Idles(s, e)
  {
    hide Q.Inv, S.Kept, S.Balanced, Known;
    match o
    case Reserve(t) => e := CanReserve(s, t);
    case Claim(_) => e := CanClaim(s);
    case _ => e := CanDo(s, o);
  }

  lemma CanReserve(s: State, t: Tid) returns (e: Step)
    requires Known(s) && Settled(s) && Q.Enabled(s.q, Q.Reserve(t))
    ensures Enabled(s, e) && Allowed(WAITERS, e) && !Idles(s, e)
  {
    hide Q.Inv, S.Balanced;
    NoPermits(s);
    e := OnFree(S.Decrement(t, true));
    assert Enabled(s, e) && Next(s, e).q.free == s.q.free - 1;
  }

  lemma CanClaim(s: State) returns (e: Step)
    requires Known(s) && Settled(s) && s.q.msgs > 0
    ensures Enabled(s, e) && Allowed(WAITERS, e) && !Idles(s, e)
  {
    hide Q.Inv, S.Balanced;
    NoPermits(s);
    var t := Above(s.q.pushers.Keys + s.q.poppers.Keys + s.free.waiting);
    e := OnMsgs(S.Decrement(t, true));
    assert t !in s.q.pushers && t !in s.q.poppers && t !in s.free.waiting;
    assert Enabled(s, e) && Next(s, e).q.msgs == s.q.msgs - 1;
  }

  /** Steps a thread takes without asking for a permit. */
  lemma CanDo(s: State, o: Q.Step) returns (e: Step)
    requires Known(s) && Settled(s) && Q.Possible(s.q, o)
    requires !o.BeginPush? && !o.GiveUp? && !o.Reserve? && !o.Claim?
    ensures Enabled(s, e) && Allowed(WAITERS, e) && !Idles(s, e)
  {
    hide Q.Inv, S.Balanced, Q.Next;
    NoPermits(s);
    e := if o.Publish? then OnMsgs(S.Increment(o.t))
         else if o.Rollback? || o.Release? then OnFree(S.Increment(o.t))
         else Queue(o);
  }

  lemma StuckBelow(s: State)
    requires Known(s)
    ensures Stuck(s) ==> B.Stuck(s.q)
  {
    hide Q.Inv, Known, Idles, Q.Possible, Settled, Enabled, Allowed;
    StuckIsSettled(s);
    if Settled(s) {
      if o :| Q.Enabled(s.q, o) && !o.BeginPush? && !o.GiveUp? {
        var e := CanGoOn(s, o);
      }
    }
  }

  // ----- a queue in which nobody waits yet -----

  /** The semaphores of a queue in which pushes have reserved slots without waiting. */
  function Calm(n: nat, q: Q.State): State
    requires 0 <= q.free <= n
  {
    State(q, S.Start(n).(count := q.free, decs := n - q.free), S.Start(0))
  }

  lemma {:induction false} ReservingReaches(n: nat, steps: seq<Q.Step>, states: seq<Q.State>, i: nat)
    requires Q.IsRun(n, steps, states) && (forall e <- steps :: B.Reserves(e)) && i <= |steps|
    ensures 0 <= states[i].free <= n && states[i].poppers == map[] && states[i].msgs == 0
    ensures Reach(n, WAITERS, Calm(n, states[i]))
  {
    hide Reach;
    if i == 0 {
      Begin(n, WAITERS);
    } else {
      ReservingReaches(n, steps, states, i - 1);
      var q, e := states[i - 1], steps[i - 1];
      assert Q.Enabled(q, e) && B.Reserves(e);
      var x := if e.BeginPush? then Queue(e) else OnFree(S.Decrement(e.t, true));
      Then(n, WAITERS, Calm(n, q), x, Calm(n, states[i]));
    }
  }

  lemma CalmStuck(n: nat, q: Q.State)
    requires q.poppers == map[] && q.free == 0 && q.msgs == 0 && forall t <- q.pushers :: q.pushers[t].Reserving?
    ensures Stuck(Calm(n, q))
  {
    JammedIsStuck(Calm(n, q));
  }

  /** Waiting pushers of given messages can come to block each other on a ring of `n`
      slots if and only if the sum of (slots - 1) over their messages is at least `n`. */
  lemma PushersBlockIff(n: nat, ms: map<Tid, Q.Message>)
    requires n >= 1 && ms != map[] && forall t <- ms :: ms[t].slots >= 1
    ensures (exists s :: Reach(n, WAITERS, s) && Stuck(s) && B.Pushing(s.q, ms)) <==> B.Slack(ms) >= n
  {
    hide Reach, Stuck, B.Stuck, Q.Inv, B.Pushing, Linked, S.Kept;
    if s :| Reach(n, WAITERS, s) && Stuck(s) && B.Pushing(s.q, ms) {
      ReachKnown(n, s);
      StuckBelow(s);
      B.StuckNeedsSlack(s.q, ms);
    }
    if B.Slack(ms) >= n {
      var q := B.SlackBlocks(n, ms);
      ReachCalm(n, q);
      PushersReserve(q, ms);
      CalmStuck(n, q);
      assert Calm(n, q).q == q;
    }
  }

  lemma PushersReserve(q: Q.State, ms: map<Tid, Q.Message>)
    requires B.Pushing(q, ms)
    ensures forall t <- q.pushers :: q.pushers[t].Reserving?
  {
  }

  lemma ReachCalm(n: nat, q: Q.State)
    requires B.Reachable(n, q)
    ensures 0 <= q.free <= n && Reach(n, WAITERS, Calm(n, q))
  {
    hide Reach;
    var steps: seq<Q.Step>, states: seq<Q.State> :|
      Q.IsRun(n, steps, states) && (forall x <- steps :: B.Reserves(x)) && states[|steps|] == q;
    ReservingReaches(n, steps, states, |steps|);
  }

  // ----- for good -----

  /** All pushers are still reserving, nobody reads, and no permit or post is left or owed. */
  ghost predicate Jammed(s: State) {
    && s.q.poppers == map[] && (forall t <- s.q.pushers :: s.q.pushers[t].Reserving?)
    && s.free.count <= 0 && s.free.kernel == 0 && s.free.posting == {} && s.free.undoing == {}
    && s.msgs.count <= 0 && s.msgs.kernel == 0 && s.msgs.posting == {} && s.msgs.undoing == {}
  }

  lemma StuckIsJammed(s: State)
    requires Known(s) && Stuck(s) && s.q.pushers != map[]
    ensures Jammed(s)
  {
    hide Stuck, B.Stuck, Q.Inv, Linked, S.Kept;
    StuckIsSettled(s);
    NoPermits(s);
    StuckBelow(s);
    B.StuckHoldsAll(s.q);
  }

  lemma JammedStep(s: State, e: Step)
    requires Jammed(s) && Enabled(s, e) && Allowed(WAITERS, e)
    ensures Idles(s, e) && Jammed(Next(s, e))
    ensures forall t <- s.q.pushers :: t in Next(s, e).q.pushers && Next(s, e).q.pushers[t] == s.q.pushers[t]
  {
  }

  lemma JammedIsStuck(s: State)
    requires Jammed(s)
    ensures Stuck(s)
  {
    hide Jammed, Enabled, Idles;
    forall e: Step | Enabled(s, e) && Allowed(WAITERS, e) ensures Idles(s, e) {
      JammedStep(s, e);
    }
  }

  /** Once they are blocked no pusher gets another slot, whatever waiting callers do. */
  lemma {:induction false} BlockedForGood(n: nat, steps: seq<Step>, states: seq<State>, i: nat)
    requires |states| == |steps| + 1 && i <= |steps|
    requires Reach(n, WAITERS, states[0]) && Stuck(states[0]) && states[0].q.pushers != map[]
    requires forall k {:trigger steps[k]} | 0 <= k < |steps| ::
               Enabled(states[k], steps[k]) && Allowed(WAITERS, steps[k]) && states[k + 1] == Next(states[k], steps[k])
    ensures Jammed(states[i]) && Stuck(states[i])
    ensures forall t <- states[0].q.pushers ::
              t in states[i].q.pushers && states[i].q.pushers[t] == states[0].q.pushers[t]
  {
    hide Reach, Jammed, Next, Enabled, Idles;
    if i == 0 {
      ReachKnown(n, states[0]);
      StuckIsJammed(states[0]);
    } else {
      BlockedForGood(n, steps, states, i - 1);
      assert Enabled(states[i - 1], steps[i - 1]);
      JammedStep(states[i - 1], steps[i - 1]);
    }
    JammedIsStuck(states[i]);
  }

  /** Two messages of two slots each block on a ring of two slots. */
  lemma PushersCanBlock(a: Q.Message, b: Q.Message)
    requires a.slots == 2 && b.slots == 2
    ensures exists s :: Reach(2, WAITERS, s) && Stuck(s) && B.Pushing(s.q, map[1 := a, 2 := b])
  {
    hide Reach, Stuck, B.Pushing;
    var ms := map[1 := a, 2 := b];
    Q.TotalWithout(B.OneShort(ms), 1);
    Q.TotalWithout(B.OneShort(ms) - {1}, 2);
    PushersBlockIff(2, ms);
  }
}
