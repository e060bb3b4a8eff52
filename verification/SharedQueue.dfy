/** The message queue on its two semaphores as they are: an atomic counter in front of
    a kernel semaphore, so that a call is several steps and each may be interleaved. */
module SharedQueue {
  import Q = SlottedQueue
  import S = Semaphore

  type Tid = nat

  /** `free` counts free slots, `msgs` published messages. */
  datatype State = State(q: Q.State, free: S.State, msgs: S.State)

  datatype Step =
    | Queue(op: Q.Step)     // an operation on a mutex or a slot, or the start of a push
    | OnFree(call: S.Step)  // an atomic operation inside a call on the free semaphore
    | OnMsgs(call: S.Step)  // the same for the message semaphore

  function Start(n: nat): State {
    State(Q.Start(n), S.Start(n), S.Start(0))
  }

  /** Operations that touch no semaphore. */
  predicate Quiet(e: Q.Step) {
    e.BeginPush? || e.LockWrite? || e.WriteSlot? || e.UnlockWrite? || e.LockRead? || e.ReadSlot? || e.UnlockRead?
  }

  /** A thread does nothing else while it is inside a call on a semaphore. */
  predicate Enabled(s: State, e: Step) {
    match e
    case Queue(o) =>
      && Quiet(o) && Q.Possible(s.q, o) && S.Idle(s.free, o.t) && S.Idle(s.msgs, o.t)
      && (o.BeginPush? ==> o.t !in s.q.poppers)
    case OnFree(o) =>
      && S.Enabled(s.free, o) && S.Idle(s.msgs, o.t)
      && (o.Decrement? ==> Q.Possible(s.q, Q.Reserve(o.t)))
      && (o.Increment? ==> Q.Possible(s.q, Q.Rollback(o.t)) || Q.Possible(s.q, Q.Release(o.t)))
    case OnMsgs(o) =>
      && S.Enabled(s.msgs, o) && S.Idle(s.free, o.t)
      && (o.Decrement? ==> o.t !in s.q.pushers && o.t !in s.q.poppers)
      && (o.Increment? ==> Q.Possible(s.q, Q.Publish(o.t)))
  }

  function Did(q: Q.State, e: Q.Step): Q.State {
    if Q.Possible(q, e) then Q.Next(q, e) else q
  }

  /** What an operation on the free semaphore means for the queue: a completed
      decrement reserves a slot, one put back gives up, an increment returns a slot. */
  function FreeEffect(q: Q.State, f: S.State, e: S.Step): Q.State {
    match e
    case Decrement(t, _) => if f.count >= 1 then Did(q, Q.Reserve(t)) else q
    case Wake(t) => Did(q, Q.Reserve(t))
    case Undo(t) => Did(q, Q.GiveUp(t))
    case Increment(t) => Did(q, if Q.Possible(q, Q.Rollback(t)) then Q.Rollback(t) else Q.Release(t))
    case _ => q
  }

  function MsgsEffect(q: Q.State, m: S.State, e: S.Step): Q.State {
    match e
    case Decrement(t, _) => if m.count >= 1 then Did(q, Q.Claim(t)) else q
    case Wake(t) => Did(q, Q.Claim(t))
    case Increment(t) => Did(q, Q.Publish(t))
    case _ => q
  }

  function Next(s: State, e: Step): State
    requires Enabled(s, e)
  {
    match e
    case Queue(o) => s.(q := Q.Next(s.q, o))
    case OnFree(o) => s.(free := S.Next(s.free, o), q := FreeEffect(s.q, s.free, o))
    case OnMsgs(o) => s.(msgs := S.Next(s.msgs, o), q := MsgsEffect(s.q, s.msgs, o))
  }

  // ----- what holds whoever calls -----

  /** Threads inside a call are where the call was made. */
  ghost predicate Calls(s: State) {
    && (forall t <- s.q.pushers :: t !in s.q.poppers)
    && (forall t | t in s.free.waiting || t in s.free.undoing :: t in s.q.pushers && s.q.pushers[t].Reserving?)
    && (forall t | t in s.msgs.waiting || t in s.msgs.undoing :: t !in s.q.pushers && t !in s.q.poppers)
    && (forall t :: S.Idle(s.free, t) || S.Idle(s.msgs, t))
  }

  /** The queue's accounts are the permits left of the semaphores. */
  ghost predicate Accounts(s: State) {
    && s.free.init == |s.q.ring| && s.msgs.init == 0
    && s.q.free == s.free.init + s.free.incs - s.free.decs
    && s.q.msgs == s.msgs.init + s.msgs.incs - s.msgs.decs
  }

  ghost predicate Linked(s: State) {
    S.Balanced(s.free) && S.Balanced(s.msgs) && Calls(s) && Accounts(s)
  }

  lemma StartLinked(n: nat)
    ensures Linked(Start(n))
  {
  }

  lemma StepLinked(s: State, e: Step)
    requires Linked(s) && Enabled(s, e)
    ensures Linked(Next(s, e))
  {
    match e
    case Queue(o) => QueueLinked(s, o);
    case OnFree(o) =>
      S.StepKeepsBalance(s.free, o);
      FreeLinked(s, o);
    case OnMsgs(o) =>
      S.StepKeepsBalance(s.msgs, o);
      MsgsLinked(s, o);
  }

  lemma QueueLinked(s: State, o: Q.Step)
    requires Linked(s) && Enabled(s, Queue(o))
    ensures Linked(Next(s, Queue(o)))
  {
    hide S.Balanced;
  }

  lemma FreeLinked(s: State, o: S.Step)
    requires Linked(s) && Enabled(s, OnFree(o))
    ensures Calls(Next(s, OnFree(o))) && Accounts(Next(s, OnFree(o)))
  {
    match o
    case Increment(_) => GiveLinked(s, o);
    case Undo(_) => GiveLinked(s, o);
    case _ => TakeLinked(s, o);
  }

  lemma GiveLinked(s: State, o: S.Step)
    requires Linked(s) && Enabled(s, OnFree(o)) && (o.Increment? || o.Undo?)
    ensures Calls(Next(s, OnFree(o))) && Accounts(Next(s, OnFree(o)))
  {
  }

  lemma TakeLinked(s: State, o: S.Step)
    requires Linked(s) && Enabled(s, OnFree(o)) && !o.Increment? && !o.Undo?
    ensures Calls(Next(s, OnFree(o))) && Accounts(Next(s, OnFree(o)))
  {
  }

  lemma MsgsLinked(s: State, o: S.Step)
    requires Linked(s) && Enabled(s, OnMsgs(o))
    ensures Calls(Next(s, OnMsgs(o))) && Accounts(Next(s, OnMsgs(o)))
  {
    match o
    case Increment(_) => PublishLinked(s, o);
    case Decrement(_, _) => AskLinked(s, o);
    case Wake(_) => ClaimLinked(s, o);
    case _ => RestLinked(s, o);
  }

  lemma PublishLinked(s: State, o: S.Step)
    requires Linked(s) && Enabled(s, OnMsgs(o)) && o.Increment?
    ensures Calls(Next(s, OnMsgs(o))) && Accounts(Next(s, OnMsgs(o)))
  {
  }

  lemma AskLinked(s: State, o: S.Step)
    requires Linked(s) && Enabled(s, OnMsgs(o)) && o.Decrement?
    ensures Calls(Next(s, OnMsgs(o))) && Accounts(Next(s, OnMsgs(o)))
  {
  }

  lemma ClaimLinked(s: State, o: S.Step)
    requires Linked(s) && Enabled(s, OnMsgs(o)) && o.Wake?
    ensures Calls(Next(s, OnMsgs(o))) && Accounts(Next(s, OnMsgs(o)))
  {
  }

  lemma RestLinked(s: State, o: S.Step)
    requires Linked(s) && Enabled(s, OnMsgs(o)) && (o.Interrupt? || o.Undo? || o.Post?)
    ensures Calls(Next(s, OnMsgs(o))) && Accounts(Next(s, OnMsgs(o)))
  {
    hide Q.Next;
  }

  /** As long as neither semaphore lets more decrements complete than it had permits,
      every step of the queue is one the queue's own machine allows. */
  lemma StepKeepsQueue(s: State, e: Step)
    requires Linked(s) && Enabled(s, e) && Q.Inv(s.q)
    requires S.WithinPermits(Next(s, e).free) && S.WithinPermits(Next(s, e).msgs)
    ensures Q.Inv(Next(s, e).q)
  {
    hide Q.Inv, Q.Next;
    var q, q' := s.q, Next(s, e).q;
    if q' != q {
      var o := QueueStep(s, e);
      Q.StepInv(q, o);
    }
  }

  /** The queue's own step that a step performs, if it changes the queue. */
  lemma QueueStep(s: State, e: Step) returns (o: Q.Step)
    requires Linked(s) && Enabled(s, e) && Next(s, e).q != s.q
    requires S.WithinPermits(Next(s, e).free) && S.WithinPermits(Next(s, e).msgs)
    ensures Q.Enabled(s.q, o) && Next(s, e).q == Q.Next(s.q, o)
  {
    hide Q.Next, S.Balanced;
    match e
    case Queue(p) => o := p;
    case OnFree(c) =>
      var t := c.t;
      o := if c.Undo? then Q.GiveUp(t)
           else if !c.Increment? then Q.Reserve(t)
           else if Q.Possible(s.q, Q.Rollback(t)) then Q.Rollback(t) else Q.Release(t);
    case OnMsgs(c) =>
      o := if c.Increment? then Q.Publish(c.t) else Q.Claim(c.t);
  }

  // ----- runs -----

  ghost predicate IsRun(n: nat, steps: seq<Step>, states: seq<State>) {
    && n >= 1 && |states| == |steps| + 1 && states[0] == Start(n)
    && forall i {:trigger steps[i]} | 0 <= i < |steps| ::
         Enabled(states[i], steps[i]) && states[i + 1] == Next(states[i], steps[i])
  }

  lemma {:induction false} RunLinked(n: nat, steps: seq<Step>, states: seq<State>, i: nat)
    requires IsRun(n, steps, states) && i <= |steps|
    ensures Linked(states[i]) && |states[i].q.ring| == n
  {
    hide Linked, Enabled, Next, Q.Start;
    if i == 0 {
      StartLinked(n);
      StartRing(n);
    } else {
      RunLinked(n, steps, states, i - 1);
      assert Enabled(states[i - 1], steps[i - 1]);
      StepLinked(states[i - 1], steps[i - 1]);
      StepSameRing(states[i - 1], steps[i - 1]);
    }
  }

  lemma StartRing(n: nat)
    ensures |Start(n).q.ring| == n
  {
  }

  lemma StepSameRing(s: State, e: Step)
    requires Enabled(s, e)
    ensures |Next(s, e).q.ring| == |s.q.ring|
  {
  }

  ghost predicate Within(s: State) {
    S.WithinPermits(s.free) && S.WithinPermits(s.msgs)
  }

  /** The queue keeps its invariant up to a point of a run if and only if up to there
      neither semaphore has let more decrements complete than it had permits. */
  lemma {:induction false} QueueKeptIffWithinPermits(n: nat, steps: seq<Step>, states: seq<State>, i: nat)
    requires IsRun(n, steps, states) && i <= |steps|
    ensures (forall j | 0 <= j <= i :: Q.Inv(states[j].q)) <==> (forall j | 0 <= j <= i :: Within(states[j]))
  {
    hide Q.Inv, Linked, Next, Enabled;
    if forall j | 0 <= j <= i :: Q.Inv(states[j].q) {
      forall j | 0 <= j <= i ensures Within(states[j]) {
        RunLinked(n, steps, states, j);
        InvIsWithin(states[j]);
      }
    }
    if forall j | 0 <= j <= i :: Within(states[j]) {
      forall j | 0 <= j <= i ensures Q.Inv(states[j].q) { WithinKeepsQueue(n, steps, states, i, j); }
    }
  }

  lemma InvIsWithin(s: State)
    requires Linked(s) && Q.Inv(s.q)
    ensures Within(s)
  {
    Q.InvAccounts(s.q);
  }

  lemma {:induction false} WithinKeepsQueue(n: nat, steps: seq<Step>, states: seq<State>, i: nat, j: nat)
    requires IsRun(n, steps, states) && j <= i <= |steps|
    requires forall k | 0 <= k <= i :: Within(states[k])
    ensures Q.Inv(states[j].q)
    decreases j
  {
    hide Q.Inv, Linked, Next, Enabled;
    if j == 0 {
      Q.StartInv(n);
    } else {
      WithinKeepsQueue(n, steps, states, i, j - 1);
      RunLinked(n, steps, states, j - 1);
      assert Enabled(states[j - 1], steps[j - 1]);
      assert Within(states[j]);
      StepKeepsQueue(states[j - 1], steps[j - 1]);
    }
  }

  // ----- callers that wait uniformly -----

  /** How pushers call the free semaphore and poppers the message semaphore. */
  datatype Callers = Callers(pushers: S.Discipline, poppers: S.Discipline)

  ghost predicate Obeys(steps: seq<Step>, c: Callers) {
    forall i {:trigger steps[i]} | 0 <= i < |steps| ::
      && (steps[i].OnFree? ==> S.Allows(c.pushers, steps[i].call))
      && (steps[i].OnMsgs? ==> S.Allows(c.poppers, steps[i].call))
  }

  /** On each semaphore all callers wait without being interrupted, or none waits. */
  predicate Uniform(c: Callers) {
    S.Uniform(c.pushers) && S.Uniform(c.poppers)
  }

  lemma {:induction false} UniformIsWithin(n: nat, steps: seq<Step>, states: seq<State>, c: Callers, i: nat)
    requires IsRun(n, steps, states) && Obeys(steps, c) && Uniform(c) && i <= |steps|
    ensures S.Kept(states[i].free, c.pushers) && S.Kept(states[i].msgs, c.poppers) && Within(states[i])
    decreases i
  {
    hide S.Kept, S.Uniform, S.Allows;
    if i == 0 {
      S.StartKept(n, c.pushers);
      S.StartKept(0, c.poppers);
    } else {
      UniformIsWithin(n, steps, states, c, i - 1);
      var s, e := states[i - 1], steps[i - 1];
      assert Enabled(s, e);
      if e.OnFree? { S.StepKept(s.free, e.call, c.pushers); }
      if e.OnMsgs? { S.StepKept(s.msgs, e.call, c.poppers); }
    }
    S.KeptIsWithin(states[i].free, c.pushers);
    S.KeptIsWithin(states[i].msgs, c.poppers);
  }

  lemma UniformKeepsQueue(n: nat, steps: seq<Step>, states: seq<State>, c: Callers, i: nat)
    requires IsRun(n, steps, states) && Obeys(steps, c) && Uniform(c) && i <= |steps|
    ensures Q.Inv(states[i].q) && Linked(states[i]) && |states[i].q.ring| == n
  {
    hide Q.Inv, Linked, Next, Enabled, Within;
    forall k | 0 <= k <= i ensures Within(states[k]) { UniformIsWithin(n, steps, states, c, k); }
    WithinKeepsQueue(n, steps, states, i, i);
    RunLinked(n, steps, states, i);
  }

  /** In every interleaving of uniform callers: free, reserved and occupied slots add up
      to the ring, messages come out exactly once in the order they were written, and
      none is unaccounted for. */
  lemma QueueIsFifo(n: nat, steps: seq<Step>, states: seq<State>, c: Callers, i: nat)
    requires IsRun(n, steps, states) && Obeys(steps, c) && Uniform(c) && i <= |steps|
    ensures var q, f := states[i].q, states[i].free;
            && q.popped <= q.published
            && |q.published| - |q.popped| ==
                 q.msgs + |Q.ClaimedSet(q.poppers)| + (if Q.Busy(q) then 1 else 0)
            && q.free + Q.TotalHeld(q.pushers) + (|q.written| - Q.Released(q)) == n
            && q.free == f.count + |f.waiting| + |f.undoing| >= 0
  {
    UniformKeepsQueue(n, steps, states, c, i);
    Q.InvAccounts(states[i].q);
  }

  /** A step that pops a message does so for a reader holding exactly its chunks, in order. */
  lemma PoppedIntact(n: nat, steps: seq<Step>, states: seq<State>, c: Callers, i: nat)
    requires IsRun(n, steps, states) && Obeys(steps, c) && Uniform(c) && i < |steps|
    requires states[i + 1].q.popped != states[i].q.popped
    ensures steps[i].OnFree? && steps[i].call.Increment?
    ensures var q, t := states[i].q, steps[i].call.t;
            && t in q.poppers && q.poppers[t].Copied? && |q.popped| < |q.published|
            && var p := q.poppers[t];
               && p.cells == Q.Chunks(p.msg, p.msg.slots) && p.msg == q.published[|q.popped|]
               && states[i + 1].q.popped == q.popped + [p.msg]
  {
    UniformKeepsQueue(n, steps, states, c, i);
    assert Enabled(states[i], steps[i]);
    var q := states[i].q;
    PoppingIsRelease(states[i], steps[i]);
    Q.ReleasedIntact(q, steps[i].call.t);
  }

  lemma PoppingIsRelease(s: State, e: Step)
    requires Calls(s) && Enabled(s, e) && Next(s, e).q.popped != s.q.popped
    ensures e.OnFree? && e.call.Increment? && Q.Possible(s.q, Q.Release(e.call.t))
    ensures Next(s, e).q == Q.Next(s.q, Q.Release(e.call.t))
  {
  }

  /** No writer touches an unread slot. */
  lemma WritersStayOffUnread(n: nat, steps: seq<Step>, states: seq<State>, c: Callers, i: nat)
    requires IsRun(n, steps, states) && Obeys(steps, c) && Uniform(c) && i < |steps|
    requires steps[i].Queue? && steps[i].op.WriteSlot?
    ensures var q := states[i].q;
            forall k | q.read <= k < |q.written| :: k % n != q.head
  {
    UniformKeepsQueue(n, steps, states, c, i);
    assert Enabled(states[i], steps[i]);
    Q.NoUnreadSlotIsWritten(states[i].q, steps[i].op.t);
  }
}
