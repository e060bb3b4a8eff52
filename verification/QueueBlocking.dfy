/** When waiting pushers can block each other: they reserve slot by slot and give none back. */
module QueueBlocking {
  import opened Wrappers
  import opened SlottedQueue

  /** Some run of pushes that have only begun and reserved slots ends here. */
  ghost predicate Reachable(n: nat, s: State) {
    exists steps: seq<Step>, states: seq<State> ::
      IsRun(n, steps, states) && (forall e <- steps :: Reserves(e)) && states[|steps|] == s
  }

  predicate Reserves(e: Step) {
    e.BeginPush? || e.Reserve?
  }

  lemma StartReachable(n: nat)
    requires n >= 1
    ensures Reachable(n, Start(n))
  {
    var steps: seq<Step>, states := [], [Start(n)];
    assert IsRun(n, steps, states) && states[|steps|] == Start(n);
  }

  lemma NextReachable(n: nat, s: State, e: Step)
    requires Reachable(n, s) && Enabled(s, e) && Reserves(e)
    ensures Reachable(n, Next(s, e))
  {
    hide Next, Possible, Start;
    var steps: seq<Step>, states: seq<State> :|
      IsRun(n, steps, states) && (forall x <- steps :: Reserves(x)) && states[|steps|] == s;
    var steps', states' := steps + [e], states + [Next(s, e)];
    forall i {:trigger steps'[i]} | 0 <= i < |steps'|
      ensures Enabled(states'[i], steps'[i]) && states'[i + 1] == Next(states'[i], steps'[i])
    {
      if i < |steps| { assert steps[i] == steps'[i]; }
    }
    assert IsRun(n, steps', states') && states'[|steps'|] == Next(s, e);
  }

  /** Nobody in the queue can go on; only further pushes can begin. */
  ghost predicate Stuck(s: State) {
    forall e: Step :: Enabled(s, e) ==> e.BeginPush? || e.GiveUp?
  }

  /** The pushers are the threads of `ms`, all still reserving slots for their messages. */
  ghost predicate Pushing(s: State, ms: map<Tid, Message>) {
    s.pushers.Keys == ms.Keys && forall t <- ms :: s.pushers[t].Reserving? && s.pushers[t].msg == ms[t]
  }

  /** Pushers that each hold all slots of their message but one. */
  function OneShort(ms: map<Tid, Message>): map<Tid, Pusher>
    requires forall t <- ms :: ms[t].slots >= 1
  {
    map t | t in ms :: Reserving(ms[t], ms[t].slots - 1)
  }

  /** The sum of (slots - 1) over the messages. */
  ghost function Slack(ms: map<Tid, Message>): nat
    requires forall t <- ms :: ms[t].slots >= 1
  {
    TotalHeld(OneShort(ms))
  }

  lemma {:induction false} HeldMonotone(ps: map<Tid, Pusher>, qs: map<Tid, Pusher>)
    requires ps.Keys == qs.Keys && forall t <- ps :: Held(ps[t]) <= Held(qs[t])
    ensures TotalHeld(ps) <= TotalHeld(qs)
    decreases |ps|
  {
    if ps == map[] {
      assert qs == map[];
    } else {
      var t :| t in ps;
      TotalWithout(ps, t);
      TotalWithout(qs, t);
      HeldMonotone(ps - {t}, qs - {t});
    }
  }

  // ----- blocked pushers have used up the ring -----

  lemma StuckReaders(s: State)
    requires Locks(s) && Layout(s) && Stuck(s)
    ensures s.poppers == map[]
  {
    forall t ensures t !in s.poppers {
      if t in s.poppers {
        var r := if s.reader.Some? then s.reader.value else t;
        var p := s.poppers[r];
        var e := if p.Claimed? then LockRead(r) else if p.Reading? then ReadSlot(r)
                 else if p.Copied? then Release(r) else UnlockRead(r);
        assert Enabled(s, e);
      }
    }
  }

  lemma StuckWriters(s: State)
    requires Locks(s) && Layout(s) && Stuck(s)
    ensures forall t <- s.pushers :: s.pushers[t].Reserving?
  {
    forall t | t in s.pushers ensures s.pushers[t].Reserving? {
      if !s.pushers[t].Reserving? {
        var w := if s.pushers[t].Reserved? && s.writer.Some? then s.writer.value else t;
        var p := s.pushers[w];
        var e := if p.RollingBack? then Rollback(w) else if p.Reserved? then LockWrite(w)
                 else if p.LeavingWrite? then UnlockWrite(w)
                 else if p.done < p.msg.slots then WriteSlot(w) else Publish(w);
        assert Enabled(s, e);
      }
    }
  }

  /** In a stuck state with pushers every slot is reserved by them and none is occupied. */
  lemma StuckHoldsAll(s: State)
    requires Inv(s) && Stuck(s) && s.pushers != map[]
    ensures s.poppers == map[] && s.msgs == 0 && s.free == 0
    ensures forall t <- s.pushers :: s.pushers[t].Reserving?
    ensures TotalHeld(s.pushers) == |s.ring|
  {
    StuckReaders(s);
    StuckWriters(s);
    hide TotalHeld, Stream;
    var t :| t in s.pushers;
    assert s.free > 0 ==> Enabled(s, Reserve(t));
    assert s.msgs > 0 ==> Enabled(s, Claim(t));
    assert Partial(s) == [] && Got(s) == [] && !Busy(s);
    assert ClaimedSet(s.poppers) == {};
    assert s.published[..|s.popped|] == s.published;
    assert s.written == Stream(s.published) + [];
  }

  // ----- enough slack lets them block -----

  function Begun(n: nat, ms: map<Tid, Message>): State {
    Start(n).(pushers := map t | t in ms :: Reserving(ms[t], 0))
  }

  lemma {:induction false} BeginAll(n: nat, ms: map<Tid, Message>)
    requires n >= 1 && forall t <- ms :: ms[t].slots >= 1
    ensures Reachable(n, Begun(n, ms))
    decreases |ms|
  {
    if ms == map[] {
      StartReachable(n);
      assert Begun(n, ms) == Start(n);
    } else {
      var t :| t in ms;
      var rest := ms - {t};
      BeginAll(n, rest);
      NextReachable(n, Begun(n, rest), BeginPush(t, ms[t]));
      assert Begun(n, ms).pushers == Begun(n, rest).pushers[t := Reserving(ms[t], 0)];
    }
  }

  /** While slots are free, some pusher can take one and still lack one. */
  lemma {:induction false} ReserveAll(n: nat, ms: map<Tid, Message>, f: nat, ps: map<Tid, Pusher>) returns (s: State)
    requires (forall t <- ms :: ms[t].slots >= 1) && Slack(ms) >= n
    requires ps.Keys == ms.Keys
    requires forall t <- ms :: ps[t].Reserving? && ps[t].msg == ms[t] && ps[t].got < ms[t].slots
    requires f + TotalHeld(ps) == n && Reachable(n, Start(n).(free := f, pushers := ps))
    ensures Reachable(n, s) && Pushing(s, ms) && s == Start(n).(free := 0, pushers := s.pushers)
    decreases f
  {
    s := Start(n).(free := f, pushers := ps);
    if f == 0 {
    } else {
      var t := Lacking(ms, ps);
      var p := Reserving(ms[t], ps[t].got + 1);
      NextReachable(n, s, Reserve(t));
      assert Next(s, Reserve(t)) == Start(n).(free := f - 1, pushers := ps[t := p]);
      TotalUpdate(ps, t, p);
      s := ReserveAll(n, ms, f - 1, ps[t := p]);
    }
  }

  lemma Lacking(ms: map<Tid, Message>, ps: map<Tid, Pusher>) returns (t: Tid)
    requires (forall t <- ms :: ms[t].slots >= 1) && TotalHeld(ps) < Slack(ms) && ps.Keys == ms.Keys
    requires forall t <- ms :: ps[t].Reserving? && ps[t].msg == ms[t] && ps[t].got < ms[t].slots
    ensures t in ms && ps[t].got < ms[t].slots - 1
  {
    if forall t <- ms :: ps[t].got == ms[t].slots - 1 {
      HeldMonotone(OneShort(ms), ps);
      assert false;
    }
    t :| t in ms && ps[t].got != ms[t].slots - 1;
  }

  lemma NobodyMoves(s: State)
    requires s.poppers == map[] && s.msgs == 0 && s.free == 0 && forall t <- s.pushers :: s.pushers[t].Reserving?
    ensures Stuck(s)
  {
  }

  /** Pushers of given messages that are all stuck have together room to lack a slot each
      and still hold the whole ring. */
  lemma StuckNeedsSlack(s: State, ms: map<Tid, Message>)
    requires Inv(s) && Stuck(s) && Pushing(s, ms) && ms != map[] && forall t <- ms :: ms[t].slots >= 1
    ensures Slack(ms) >= |s.ring|
  {
    assert s.pushers != map[];
    StuckHoldsAll(s);
    assert forall t <- ms :: Shape(s.pushers[t]);
    HeldMonotone(s.pushers, OneShort(ms));
  }

  /** With that much room they can be led to where all are stuck. */
  lemma SlackBlocks(n: nat, ms: map<Tid, Message>) returns (s: State)
    requires n >= 1 && (forall t <- ms :: ms[t].slots >= 1) && Slack(ms) >= n
    ensures Reachable(n, s) && Stuck(s) && Pushing(s, ms) && s.free == 0 && s.msgs == 0 && s.poppers == map[]
  {
    BeginAll(n, ms);
    NothingHeld(Begun(n, ms).pushers);
    assert Begun(n, ms) == Start(n).(free := n, pushers := Begun(n, ms).pushers);
    s := ReserveAll(n, ms, n, Begun(n, ms).pushers);
    NobodyMoves(s);
  }

  lemma {:induction false} NothingHeld(ps: map<Tid, Pusher>)
    requires forall t <- ps :: Held(ps[t]) == 0
    ensures TotalHeld(ps) == 0
    decreases |ps|
  {
    if ps == map[] {
    } else {
      var t :| t in ps;
      TotalWithout(ps, t);
      NothingHeld(ps - {t});
    }
  }
}
