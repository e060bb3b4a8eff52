/** What comes out of the shared queue is what was put in: every message popped was begun
    by one push, which published it once. */
module SharedMessages {
  import Q = SlottedQueue
  import S = Semaphore
  import opened SharedQueue
  import opened Wrappers

  /** The message a pusher is on its way to publish. */
  function Carried(p: Q.Pusher): Option<Q.Message> {
    match p
    case Reserving(m, _) => Some(m)
    case Reserved(m) => Some(m)
    case Writing(m, _) => Some(m)
    case _ => None
  }

  function CarriedBy(s: State, t: Tid): Option<Q.Message> {
    if t in s.q.pushers then Carried(s.q.pushers[t]) else None
  }

  predicate Begins(e: Step, t: Tid) {
    e.Queue? && e.op.BeginPush? && e.op.t == t
  }

  predicate Publishes(e: Step, t: Tid) {
    e.OnMsgs? && e.call == S.Increment(t)
  }

  /** A message is carried from the beginning of its push, by the same thread. */
  lemma CarriedStep(s: State, e: Step, t: Tid)
    requires Enabled(s, e) && CarriedBy(Next(s, e), t).Some?
    ensures var m := CarriedBy(Next(s, e), t).value;
            e == Queue(Q.BeginPush(t, m)) || (CarriedBy(s, t) == Some(m) && !Begins(e, t) && !Publishes(e, t))
  {
    match e
    case Queue(o) =>
    case OnFree(o) => CarriedOnFree(s, o, t);
    case OnMsgs(o) =>
  }

  lemma CarriedOnFree(s: State, o: S.Step, t: Tid)
    requires Enabled(s, OnFree(o)) && CarriedBy(Next(s, OnFree(o)), t).Some?
    ensures CarriedBy(s, t) == CarriedBy(Next(s, OnFree(o)), t)
  {
  }

  /** Only the increment of the message semaphore publishes, and what it publishes is what
      its thread carries. */
  lemma PublishingStep(s: State, e: Step)
    requires Enabled(s, e) && Next(s, e).q.published != s.q.published
    ensures e.OnMsgs? && e.call.Increment? && CarriedBy(s, e.call.t).Some?
    ensures Next(s, e).q.published == s.q.published + [CarriedBy(s, e.call.t).value]
  {
    match e
    case Queue(o) =>
    case OnFree(o) => FreePublishesNothing(s, o);
    case OnMsgs(o) =>
  }

  lemma FreePublishesNothing(s: State, o: S.Step)
    requires Enabled(s, OnFree(o))
    ensures Next(s, OnFree(o)).q.published == s.q.published
  {
  }

  /** Who carries a message has begun to push it, and neither begun nor published since. */
  lemma {:induction false} CarriedSince(n: nat, steps: seq<Step>, states: seq<State>, i: nat, t: Tid) returns (b: nat)
    requires IsRun(n, steps, states) && i <= |steps| && CarriedBy(states[i], t).Some?
    ensures b < i && steps[b] == Queue(Q.BeginPush(t, CarriedBy(states[i], t).value))
    ensures forall j | b < j < i :: !Begins(steps[j], t) && !Publishes(steps[j], t)
    decreases i
  {
    hide Enabled, Next, Begins, Publishes;
    StartCarriesNothing(n, t);
    assert Enabled(states[i - 1], steps[i - 1]);
    CarriedStep(states[i - 1], steps[i - 1], t);
    if steps[i - 1] == Queue(Q.BeginPush(t, CarriedBy(states[i], t).value)) {
      b := i - 1;
    } else {
      b := CarriedSince(n, steps, states, i - 1, t);
    }
  }

  lemma StartCarriesNothing(n: nat, t: Tid)
    ensures CarriedBy(Start(n), t) == None
  {
  }

  /** The push of a message: begun by a thread at `b`, published by it at `j`. */
  ghost predicate PushedBetween(steps: seq<Step>, states: seq<State>, m: Q.Message, b: nat, j: nat, t: Tid) {
    && b < j < |steps| && |states| == |steps| + 1
    && steps[b] == Queue(Q.BeginPush(t, m)) && Publishes(steps[j], t)
    && states[j + 1].q.published == states[j].q.published + [m]
    && forall k | b < k < j :: !Begins(steps[k], t) && !Publishes(steps[k], t)
  }

  /** Whoever calls and however: the `k`-th message published is one that some thread
      began to push, published at its turn by that thread, and pushed only this once. */
  lemma {:induction false} PublishedWasPushed(n: nat, steps: seq<Step>, states: seq<State>, i: nat, k: nat)
    returns (b: nat, j: nat, t: Tid)
    requires IsRun(n, steps, states) && i <= |steps| && k < |states[i].q.published|
    ensures j < i && |states[j].q.published| == k
    ensures PushedBetween(steps, states, states[i].q.published[k], b, j, t)
    decreases i
  {
    hide Enabled, Next, Begins, CarriedBy;
    StartPublishesNothing(n);
    var s, e := states[i - 1], steps[i - 1];
    assert Enabled(s, e);
    if states[i].q.published != s.q.published {
      PublishingStep(s, e);
      if k == |s.q.published| {
        j, t := i - 1, e.call.t;
        b := CarriedSince(n, steps, states, j, t);
      } else {
        b, j, t := PublishedWasPushed(n, steps, states, i - 1, k);
      }
    } else {
      b, j, t := PublishedWasPushed(n, steps, states, i - 1, k);
    }
  }

  lemma StartPublishesNothing(n: nat)
    ensures Start(n).q.published == []
  {
  }

  /** For uniform callers: the `k`-th message popped is the `k`-th pushed. */
  lemma PoppedWasPushed(n: nat, steps: seq<Step>, states: seq<State>, c: Callers, i: nat, k: nat)
    returns (b: nat, j: nat, t: Tid)
    requires IsRun(n, steps, states) && Obeys(steps, c) && Uniform(c) && i <= |steps| && k < |states[i].q.popped|
    ensures j < i && |states[j].q.published| == k
    ensures PushedBetween(steps, states, states[i].q.popped[k], b, j, t)
  {
    hide IsRun, Obeys, PushedBetween;
    QueueIsFifo(n, steps, states, c, i);
    b, j, t := PublishedWasPushed(n, steps, states, i, k);
  }
}
