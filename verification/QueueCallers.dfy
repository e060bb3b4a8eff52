/** Which callers keep the message queue intact: runs that break it when callers that
    wait are mixed with callers that do not, or are interrupted. */
module QueueCallers {
  import Q = SlottedQueue
  import S = Semaphore
  import opened SharedQueue
  import opened Wrappers

  /** Some run of callers of this kind ends here. */
  ghost predicate Reach(n: nat, c: Callers, s: State) {
    exists steps: seq<Step>, states: seq<State> ::
      IsRun(n, steps, states) && Obeys(steps, c) && states[|steps|] == s
  }

  predicate Allowed(c: Callers, e: Step) {
    && (e.OnFree? ==> S.Allows(c.pushers, e.call))
    && (e.OnMsgs? ==> S.Allows(c.poppers, e.call))
  }

  lemma Begin(n: nat, c: Callers)
    requires n >= 1
    ensures Reach(n, c, Start(n))
  {
    var steps: seq<Step>, states := [], [Start(n)];
    assert IsRun(n, steps, states) && Obeys(steps, c) && states[|steps|] == Start(n);
  }

  lemma Then(n: nat, c: Callers, s: State, e: Step, s': State)
    requires Reach(n, c, s) && Enabled(s, e) && Next(s, e) == s' && Allowed(c, e)
    ensures Reach(n, c, s')
  {
    hide Next, Enabled, Start, S.Allows;
    var steps: seq<Step>, states: seq<State> :|
      IsRun(n, steps, states) && Obeys(steps, c) && states[|steps|] == s;
    var more, all := steps + [e], states + [s'];
    forall i {:trigger more[i]} | 0 <= i < |more|
      ensures Enabled(all[i], more[i]) && all[i + 1] == Next(all[i], more[i]) && Allowed(c, more[i])
    {
      if i < |steps| { assert steps[i] == more[i]; }
    }
    assert IsRun(n, more, all) && Obeys(more, c) && all[|more|] == s';
  }

  const B := Q.Message(2, 1)
  const C := Q.Message(3, 1)
  const D := Q.Message(4, 1)

  /** The state after the only pusher, with a message of one slot, has locked the ring
      and written to it. */
  function WroteTo(s: State, t: Tid, m: Q.Message): State
    requires s.q.head < |s.q.ring|
  {
    s.(q := s.q.(writer := Some(t), ring := s.q.ring[s.q.head := Q.Cell(m, 0)],
                 head := Q.Advance(s.q.head, |s.q.ring|), written := s.q.written + [Q.Cell(m, 0)],
                 pushers := map[t := Q.Writing(m, 1)]))
  }

  lemma WriteOne(n: nat, c: Callers, s: State, t: Tid, m: Q.Message)
    requires Reach(n, c, s) && s.q.pushers == map[t := Q.Reserved(m)] && m.slots == 1
    requires s.q.writer == None && s.q.head < |s.q.ring| && S.Idle(s.free, t) && S.Idle(s.msgs, t)
    ensures Reach(n, c, WroteTo(s, t, m))
  {
    hide Reach, Q.Advance;
    var s1 := s.(q := s.q.(writer := Some(t), pushers := map[t := Q.Writing(m, 0)]));
    Then(n, c, s, Queue(Q.LockWrite(t)), s1);
    Then(n, c, s1, Queue(Q.WriteSlot(t)), WroteTo(s, t, m));
  }

  // ----- filling a ring -----

  /** A message that takes the whole ring. */
  function Whole(n: nat): Q.Message {
    Q.Message(1, n)
  }

  /** The ring with the first `k` chunks of that message. */
  function RingWith(n: nat, k: nat): (r: seq<Q.Cell>)
    ensures |r| == n
  {
    seq(n, i requires 0 <= i < n => if i < k then Q.Cell(Whole(n), i) else Q.Cell(Q.Message(0, 0), 0))
  }

  /** Its pusher holds `k` slots. */
  function Taking(n: nat, k: nat): State
    requires k < n
  {
    var s := Start(n);
    s.(q := s.q.(free := n - k, pushers := map[1 := Q.Reserving(Whole(n), k)]),
       free := s.free.(count := n - k, decs := k))
  }

  lemma {:induction false} TakeSlots(n: nat, c: Callers, k: nat)
    requires k < n && c.pushers.wait
    ensures Reach(n, c, Taking(n, k))
    decreases k
  {
    hide Reach;
    if k == 0 {
      Begin(n, c);
      Then(n, c, Start(n), Queue(Q.BeginPush(1, Whole(n))), Taking(n, 0));
    } else {
      TakeSlots(n, c, k - 1);
      Then(n, c, Taking(n, k - 1), OnFree(S.Decrement(1, true)), Taking(n, k));
    }
  }

  /** It holds the mutex and has written `k` slots. */
  function Filling(n: nat, k: nat): State
    requires k <= n
  {
    State(Q.State(0, 0, RingWith(n, k), if k == n then 0 else k, 0, Some(1), None, map[1 := Q.Writing(Whole(n), k)],
                  map[], Q.Chunks(Whole(n), k), 0, [], []),
          S.Start(n).(count := 0, decs := n), S.Start(0))
  }

  lemma {:induction false} FillSlots(n: nat, c: Callers, k: nat)
    requires 1 <= n && k <= n && c.pushers.wait
    ensures Reach(n, c, Filling(n, k))
    decreases k
  {
    hide Reach;
    if k == 0 {
      TakeSlots(n, c, n - 1);
      var s := Taking(n, n - 1);
      var s1 := s.(q := s.q.(free := 0, pushers := map[1 := Q.Reserved(Whole(n))]), free := s.free.(count := 0, decs := n));
      assert RingWith(n, 0) == s.q.ring;
      Then(n, c, s, OnFree(S.Decrement(1, true)), s1);
      Then(n, c, s1, Queue(Q.LockWrite(1)), Filling(n, 0));
    } else {
      FillSlots(n, c, k - 1);
      assert RingWith(n, k - 1)[k - 1 := Q.Cell(Whole(n), k - 1)] == RingWith(n, k);
      assert Q.Chunks(Whole(n), k - 1) + [Q.Cell(Whole(n), k - 1)] == Q.Chunks(Whole(n), k);
      Then(n, c, Filling(n, k - 1), Queue(Q.WriteSlot(1)), Filling(n, k));
    }
  }

  /** The ring holds the message, unread. */
  function Filled(n: nat): State {
    State(Q.State(0, 1, RingWith(n, n), 0, 0, None, None, map[], map[], Q.Chunks(Whole(n), n), 0, [Whole(n)], []),
          S.Start(n).(count := 0, decs := n), S.Start(0).(count := 1, incs := 1))
  }

  lemma FillRing(n: nat, c: Callers)
    requires n >= 1 && c.pushers.wait
    ensures Reach(n, c, Filled(n))
  {
    hide Reach, RingWith, Q.Chunks;
    FillSlots(n, c, n);
    var s := Filling(n, n);
    var s1 := s.(q := s.q.(msgs := 1, published := [Whole(n)], pushers := map[1 := Q.LeavingWrite]),
                 msgs := S.Start(0).(count := 1, incs := 1));
    assert [] + [Whole(n)] == [Whole(n)];
    Then(n, c, s, OnMsgs(S.Increment(1)), s1);
    Then(n, c, s1, Queue(Q.UnlockWrite(1)), Filled(n));
  }

  // ----- a stray post lets a writer into an unread slot -----

  /** A push that does not wait has found the ring full and not yet put its decrement back. */
  function Asked(n: nat): State {
    var s := Filled(n);
    s.(q := s.q.(pushers := map[2 := Q.Reserving(B, 0)]), free := s.free.(count := -1, undoing := {2}))
  }

  lemma AskWithoutWaiting(n: nat, c: Callers)
    requires n >= 1 && c.pushers.wait && c.pushers.poll
    ensures Reach(n, c, Asked(n))
  {
    hide Reach, RingWith, Q.Chunks;
    FillRing(n, c);
    var s0 := Filled(n);
    var s1 := s0.(q := s0.q.(pushers := map[2 := Q.Reserving(B, 0)]));
    Then(n, c, s0, Queue(Q.BeginPush(2, B)), s1);
    Then(n, c, s1, OnFree(S.Decrement(2, false)), Asked(n));
  }

  function ClaimedMeanwhile(n: nat): State {
    var s := Asked(n);
    s.(q := s.q.(msgs := 0, poppers := map[3 := Q.Claimed]), msgs := s.msgs.(count := 0, decs := 1))
  }

  lemma ClaimMeanwhile(n: nat, c: Callers)
    requires n >= 1 && c.pushers.wait && c.pushers.poll && (c.poppers.wait || c.poppers.poll)
    ensures Reach(n, c, ClaimedMeanwhile(n))
  {
    hide Reach, RingWith, Q.Chunks;
    AskWithoutWaiting(n, c);
    Then(n, c, Asked(n), OnMsgs(S.Decrement(3, c.poppers.wait)), ClaimedMeanwhile(n));
  }

  /** The popper has copied the first slot. */
  function CopiedOut(n: nat): State {
    var s := ClaimedMeanwhile(n);
    s.(q := s.q.(read := 1, tail := Q.Advance(0, n), reader := Some(3),
                 poppers := map[3 := Q.Copied(Whole(n), [Q.Cell(Whole(n), 0)])]))
  }

  lemma CopyMeanwhile(n: nat, c: Callers)
    requires n >= 1 && c.pushers.wait && c.pushers.poll && (c.poppers.wait || c.poppers.poll)
    ensures Reach(n, c, CopiedOut(n))
  {
    assert RingWith(n, n)[0] == Q.Cell(Whole(n), 0);
    hide Reach, RingWith, Q.Chunks;
    ClaimMeanwhile(n, c);
    var s1 := ClaimedMeanwhile(n);
    var s2 := s1.(q := s1.q.(reader := Some(3), poppers := map[3 := Q.Reading(Whole(n), [])]));
    assert [] + [Q.Cell(Whole(n), 0)] == [Q.Cell(Whole(n), 0)];
    Then(n, c, s1, Queue(Q.LockRead(3)), s2);
    Then(n, c, s2, Queue(Q.ReadSlot(3)), CopiedOut(n));
  }

  /** Its slot has been given back, with a post for nobody. */
  function Emptied(n: nat): State {
    var s := CopiedOut(n);
    s.(q := s.q.(free := 1, popped := if n <= 1 then [Whole(n)] else [],
                 poppers := map[3 := if n <= 1 then Q.LeavingRead else Q.Reading(Whole(n), [Q.Cell(Whole(n), 0)])]),
       free := s.free.(count := 0, kernel := 1, incs := 1))
  }

  lemma GiveBack(n: nat, c: Callers)
    requires n >= 1 && c.pushers.wait && c.pushers.poll && (c.poppers.wait || c.poppers.poll)
    ensures Reach(n, c, Emptied(n))
  {
    hide Reach, RingWith, Q.Chunks, Q.Advance;
    CopyMeanwhile(n, c);
    var s0 := CopiedOut(n);
    var s1 := Emptied(n).(free := s0.free.(count := 0, incs := 1, posting := {3}));
    assert [] + [Whole(n)] == [Whole(n)];
    Then(n, c, s0, OnFree(S.Increment(3)), s1);
    Then(n, c, s1, OnFree(S.Post(3)), Emptied(n));
  }

  /** Putting the decrement back makes two permits of one; a push of C takes one. */
  function Retaken(n: nat): State {
    var s := Emptied(n);
    s.(q := s.q.(free := 0, pushers := map[4 := Q.Reserved(C)]),
       free := s.free.(count := 0, undoing := {}, surplus := 1, decs := n + 1))
  }

  lemma PutBack(n: nat, c: Callers)
    requires n >= 1 && c.pushers.wait && c.pushers.poll && (c.poppers.wait || c.poppers.poll)
    ensures Reach(n, c, Retaken(n))
  {
    hide Reach, RingWith, Q.Chunks, Q.Advance;
    GiveBack(n, c);
    var s0 := Emptied(n);
    var s1 := s0.(q := s0.q.(pushers := map[]), free := s0.free.(count := 1, undoing := {}, surplus := 1));
    var s2 := s1.(q := s1.q.(pushers := map[4 := Q.Reserving(C, 0)]));
    Then(n, c, s0, OnFree(S.Undo(2)), s1);
    Then(n, c, s1, Queue(Q.BeginPush(4, C)), s2);
    Then(n, c, s2, OnFree(S.Decrement(4, true)), Retaken(n));
  }

  /** C has been written over the slot that was read. */
  function Refilled(n: nat): State
    requires n >= 1
  {
    var s := WroteTo(Retaken(n), 4, C);
    s.(q := s.q.(msgs := 1, writer := None, pushers := map[], published := [Whole(n), C]),
       msgs := s.msgs.(count := 1, incs := 2))
  }

  lemma Refill(n: nat, c: Callers)
    requires n >= 1 && c.pushers.wait && c.pushers.poll && (c.poppers.wait || c.poppers.poll)
    ensures Reach(n, c, Refilled(n))
  {
    hide Reach, RingWith, Q.Chunks, Q.Advance;
    PutBack(n, c);
    WriteOne(n, c, Retaken(n), 4, C);
    assert [Whole(n)] + [C] == [Whole(n), C];
    PublishOne(n, c, WroteTo(Retaken(n), 4, C), 4, C);
  }

  /** The pusher of a written message publishes it and leaves, when nobody waits for one. */
  lemma PublishOne(n: nat, c: Callers, s: State, t: Tid, m: Q.Message)
    requires Reach(n, c, s) && s.q.pushers == map[t := Q.Writing(m, 1)] && m.slots == 1
    requires S.Idle(s.free, t) && S.Idle(s.msgs, t) && s.msgs.count >= 0
    ensures Reach(n, c, s.(q := s.q.(msgs := s.q.msgs + 1, writer := None, pushers := map[],
                                     published := s.q.published + [m]),
                           msgs := s.msgs.(count := s.msgs.count + 1, incs := s.msgs.incs + 1)))
  {
    hide Reach;
    var s1 := s.(q := s.q.(msgs := s.q.msgs + 1, published := s.q.published + [m], pushers := map[t := Q.LeavingWrite]),
                 msgs := s.msgs.(count := s.msgs.count + 1, incs := s.msgs.incs + 1));
    Then(n, c, s, OnMsgs(S.Increment(t)), s1);
    Then(n, c, s1, Queue(Q.UnlockWrite(t)), s1.(q := s1.q.(writer := None, pushers := map[])));
  }

  /** The slot after C holds something unread: the next chunk, or C itself. */
  lemma NextIsUnread(n: nat)
    requires n >= 1
    ensures var q := Refilled(n).q;
            && q.read == 1 < |q.written| && q.read % n == q.head < |q.ring| == n
            && q.ring[q.head] == q.written[1] && q.ring[q.head].msg != D
  {
  }

  /** On a ring of any size: when pushers that wait meet one that does not, a writer can
      come to stand on a slot whose contents nobody has read, and its next step is to
      overwrite them. */
  lemma StrayPostOverwrites(n: nat, c: Callers) returns (s: State)
    requires n >= 1 && c.pushers.wait && c.pushers.poll && (c.poppers.wait || c.poppers.poll)
    ensures Reach(n, c, s) && Enabled(s, Queue(Q.WriteSlot(5)))
    ensures s.q.read < |s.q.written| && s.q.read % n == s.q.head < |s.q.ring|
    ensures s.q.ring[s.q.head] == s.q.written[s.q.read] != Q.Cell(D, 0)
    ensures Next(s, Queue(Q.WriteSlot(5))).q.ring == s.q.ring[s.q.head := Q.Cell(D, 0)]
  {
    Refill(n, c);
    NextIsUnread(n);
    s := NextWriter(n, c, Refilled(n));
  }

  lemma NextWriter(n: nat, c: Callers, s0: State) returns (s: State)
    requires Reach(n, c, s0) && c.pushers.wait
    requires s0.q.pushers == map[] && s0.q.poppers.Keys == {3} && s0.q.writer == None && s0.q.head < |s0.q.ring|
    requires s0.q.free == s0.free.count == 0 && s0.free.kernel == 1
    requires s0.free.waiting == {} && s0.free.undoing == {} && s0.free.posting == {} && S.Idle(s0.msgs, 5)
    ensures Reach(n, c, s) && s.q.pushers == map[5 := Q.Writing(D, 0)]
    ensures s.q == s0.q.(free := -1, writer := Some(5), pushers := s.q.pushers)
    ensures Enabled(s, Queue(Q.WriteSlot(5)))
  {
    hide Reach;
    var s1 := s0.(q := s0.q.(pushers := map[5 := Q.Reserving(D, 0)]));
    var s2 := s1.(free := s1.free.(count := -1, waiting := {5}));
    var s3 := s2.(q := s2.q.(free := -1, pushers := map[5 := Q.Reserved(D)]),
                  free := s2.free.(kernel := 0, waiting := {}, decs := s2.free.decs + 1));
    s := s3.(q := s3.q.(writer := Some(5), pushers := map[5 := Q.Writing(D, 0)]));
    Then(n, c, s0, Queue(Q.BeginPush(5, D)), s1);
    Then(n, c, s1, OnFree(S.Decrement(5, true)), s2);
    Then(n, c, s2, OnFree(S.Wake(5)), s3);
    Then(n, c, s3, Queue(Q.LockWrite(5)), s);
  }

  // ----- every mixture breaks some run -----

  /** A push of two slots, of which only one is left. */
  const E := Q.Message(5, 2)

  /** The pusher that holds all slots but one and goes no further. */
  function Holder(n: nat): Q.Pusher
    requires n >= 1
  {
    Q.Reserving(Whole(n), n - 1)
  }

  /** One slot is left, but the semaphore has a permit and a post too many. */
  function Loose(n: nat): State
    requires n >= 1
  {
    var s := Taking(n, n - 1);
    s.(free := s.free.(kernel := 1, incs := 1, decs := n, surplus := 1))
  }

  /** Thread 6 holds the last slot and has to give it back, thread 2 asks for it. */
  function Asking(n: nat, undoing: set<Tid>, waiting: set<Tid>): State
    requires n >= 1
  {
    var s := Taking(n, n - 1);
    s.(q := s.q.(free := 0, pushers := map[1 := Holder(n), 6 := Q.RollingBack(1), 2 := Q.Reserving(B, 0)]),
       free := s.free.(count := -1, decs := n, undoing := undoing, waiting := waiting))
  }

  /** Thread 6 has taken the last slot. */
  function LastTaken(n: nat): State
    requires n >= 1
  {
    var s := Taking(n, n - 1);
    s.(q := s.q.(free := 0, pushers := map[1 := Holder(n), 6 := Q.Reserving(E, 1)]),
       free := s.free.(count := 0, decs := n))
  }

  lemma TakeLast(n: nat, c: Callers)
    requires n >= 1 && c.pushers.wait
    ensures Reach(n, c, LastTaken(n))
  {
    hide Reach;
    TakeSlots(n, c, n - 1);
    var s0 := Taking(n, n - 1);
    var s1 := s0.(q := s0.q.(pushers := map[1 := Holder(n), 6 := Q.Reserving(E, 0)]));
    Then(n, c, s0, Queue(Q.BeginPush(6, E)), s1);
    Then(n, c, s1, OnFree(S.Decrement(6, true)), LastTaken(n));
  }

  /** Thread 6 has found no second slot, without waiting or interrupted in its wait. */
  function Refused(n: nat): State
    requires n >= 1
  {
    var s := LastTaken(n);
    s.(free := s.free.(count := -1, undoing := {6}))
  }

  lemma RefuseLast(n: nat, c: Callers)
    requires n >= 1 && c.pushers.wait && (c.pushers.poll || c.pushers.interrupt)
    ensures Reach(n, c, Refused(n))
  {
    hide Reach;
    TakeLast(n, c);
    var s := LastTaken(n);
    if c.pushers.poll {
      Then(n, c, s, OnFree(S.Decrement(6, false)), Refused(n));
    } else {
      var s1 := s.(free := s.free.(count := -1, waiting := {6}));
      Then(n, c, s, OnFree(S.Decrement(6, true)), s1);
      Then(n, c, s1, OnFree(S.Interrupt(6)), Refused(n));
    }
  }

  lemma AskForLast(n: nat, c: Callers, wait: bool)
    requires n >= 1 && c.pushers.wait && (c.pushers.poll || c.pushers.interrupt) && (!wait ==> c.pushers.poll)
    ensures Reach(n, c, if wait then Asking(n, {}, {2}) else Asking(n, {2}, {}))
  {
    hide Reach;
    RefuseLast(n, c);
    var s0 := Refused(n);
    var s1 := s0.(q := s0.q.(pushers := map[1 := Holder(n), 6 := Q.RollingBack(1)]), free := s0.free.(count := 0, undoing := {}));
    var s2 := s1.(q := s1.q.(pushers := map[1 := Holder(n), 6 := Q.RollingBack(1), 2 := Q.Reserving(B, 0)]));
    Then(n, c, s0, OnFree(S.Undo(6)), s1);
    Then(n, c, s1, Queue(Q.BeginPush(2, B)), s2);
    Then(n, c, s2, OnFree(S.Decrement(2, wait)), if wait then Asking(n, {}, {2}) else Asking(n, {2}, {}));
  }

  lemma LoosePushers(n: nat, c: Callers)
    requires n >= 1 && c.pushers.wait && (c.pushers.poll || c.pushers.interrupt)
    ensures Reach(n, c, Loose(n))
  {
    hide Reach;
    if c.pushers.poll {
      AskForLast(n, c, false);
      GiveBackOne(n, c, Asking(n, {2}, {}));
    } else {
      AskForLast(n, c, true);
      GiveBackOne(n, c, Asking(n, {}, {2}));
      Then(n, c, GivenBack(n, Asking(n, {}, {2})), OnFree(S.Interrupt(2)), GivenBack(n, Asking(n, {2}, {})));
    }
    PutBackOther(n, c);
  }

  function GivenBack(n: nat, s: State): State
    requires n >= 1
  {
    s.(q := s.q.(free := 1, pushers := map[1 := Holder(n), 2 := Q.Reserving(B, 0)]),
       free := s.free.(count := 0, incs := 1, kernel := 1))
  }

  lemma GiveBackOne(n: nat, c: Callers, s: State)
    requires n >= 1 && s in {Asking(n, {2}, {}), Asking(n, {}, {2})} && Reach(n, c, s)
    ensures Reach(n, c, GivenBack(n, s))
  {
    hide Reach;
    var s1 := s.(q := GivenBack(n, s).q, free := s.free.(count := 0, incs := 1, posting := {6}));
    Then(n, c, s, OnFree(S.Increment(6)), s1);
    Then(n, c, s1, OnFree(S.Post(6)), GivenBack(n, s));
  }

  lemma PutBackOther(n: nat, c: Callers)
    requires n >= 1 && Reach(n, c, GivenBack(n, Asking(n, {2}, {})))
    ensures Reach(n, c, Loose(n))
  {
    hide Reach;
    Then(n, c, GivenBack(n, Asking(n, {2}, {})), OnFree(S.Undo(2)), Loose(n));
  }

  /** Two pushes take the one slot that is left. */
  lemma LooseOverbooks(n: nat, c: Callers) returns (s: State)
    requires n >= 1 && c.pushers.wait && Reach(n, c, Loose(n))
    ensures Reach(n, c, s) && !Within(s)
  {
    hide Reach;
    var s0 := Loose(n);
    var s1 := s0.(q := s0.q.(pushers := map[1 := Holder(n), 3 := Q.Reserving(C, 0)]));
    var s2 := s1.(q := s1.q.(free := 0, pushers := map[1 := Holder(n), 3 := Q.Reserved(C)]),
                  free := s1.free.(count := 0, decs := n + 1));
    Then(n, c, s0, Queue(Q.BeginPush(3, C)), s1);
    Then(n, c, s1, OnFree(S.Decrement(3, true)), s2);
    s := OverbookOne(n, c, s2);
  }

  lemma OverbookOne(n: nat, c: Callers, s2: State) returns (s: State)
    requires n >= 1 && c.pushers.wait && Reach(n, c, s2)
    requires s2 == Loose(n).(q := Loose(n).q.(free := 0, pushers := map[1 := Holder(n), 3 := Q.Reserved(C)]),
                             free := Loose(n).free.(count := 0, decs := n + 1))
    ensures Reach(n, c, s) && !Within(s)
  {
    hide Reach;
    var s3 := s2.(q := s2.q.(pushers := map[1 := Holder(n), 3 := Q.Reserved(C), 4 := Q.Reserving(D, 0)]));
    var s4 := s3.(free := s3.free.(count := -1, waiting := {4}));
    s := s4.(q := s4.q.(free := -1, pushers := map[1 := Holder(n), 3 := Q.Reserved(C), 4 := Q.Reserved(D)]),
             free := s4.free.(kernel := 0, waiting := {}, decs := n + 2));
    Then(n, c, s2, Queue(Q.BeginPush(4, D)), s3);
    Then(n, c, s3, OnFree(S.Decrement(4, true)), s4);
    Then(n, c, s4, OnFree(S.Wake(4)), s);
  }

  /** A popper (thread 1) asks an empty queue; B is pushed before its decrement is put back. */
  function AskedFor(undoing: set<Tid>, waiting: set<Tid>): S.State {
    S.Start(0).(count := -1, undoing := undoing, waiting := waiting)
  }

  lemma AskEmpty(n: nat, c: Callers) returns (m: S.State)
    requires n >= 1 && c.poppers.wait && (c.poppers.poll || c.poppers.interrupt)
    ensures m == if c.poppers.poll then AskedFor({1}, {}) else AskedFor({}, {1})
    ensures Reach(n, c, Start(n).(msgs := m))
  {
    hide Reach;
    m := if c.poppers.poll then AskedFor({1}, {}) else AskedFor({}, {1});
    Begin(n, c);
    Then(n, c, Start(n), OnMsgs(S.Decrement(1, !c.poppers.poll)), Start(n).(msgs := m));
  }

  /** The ring holds B. */
  function HoldsOne(n: nat, m: S.State): State
    requires n >= 1
  {
    var s := Start(n);
    s.(q := s.q.(free := n - 1, msgs := 1, ring := s.q.ring[0 := Q.Cell(B, 0)], head := Q.Advance(0, n),
                 written := [Q.Cell(B, 0)], published := [B]),
       free := s.free.(count := n - 1, decs := 1), msgs := m)
  }

  lemma PushAfterAsking(n: nat, c: Callers, m: S.State)
    requires n >= 1 && (c.pushers.wait || c.pushers.poll) && m in {AskedFor({1}, {}), AskedFor({}, {1})}
    requires Reach(n, c, Start(n).(msgs := m))
    ensures Reach(n, c, HoldsOne(n, m.(count := 0, incs := 1, kernel := 1)))
  {
    hide Reach, Q.Advance;
    var s0 := Start(n).(msgs := m);
    var s1 := s0.(q := s0.q.(pushers := map[2 := Q.Reserving(B, 0)]));
    var s2 := s1.(q := s1.q.(free := n - 1, pushers := map[2 := Q.Reserved(B)]), free := s1.free.(count := n - 1, decs := 1));
    Then(n, c, s0, Queue(Q.BeginPush(2, B)), s1);
    Then(n, c, s1, OnFree(S.Decrement(2, c.pushers.wait)), s2);
    WriteOne(n, c, s2, 2, B);
    assert [] + [Q.Cell(B, 0)] == [Q.Cell(B, 0)];
    PublishAfterAsking(n, c, m, WroteTo(s2, 2, B));
  }

  lemma PublishAfterAsking(n: nat, c: Callers, m: S.State, s: State)
    requires n >= 1 && m in {AskedFor({1}, {}), AskedFor({}, {1})} && Reach(n, c, s)
    requires var f := HoldsOne(n, m);
             s == f.(q := f.q.(msgs := 0, published := [], writer := Some(2), pushers := map[2 := Q.Writing(B, 1)]))
    ensures Reach(n, c, HoldsOne(n, m.(count := 0, incs := 1, kernel := 1)))
  {
    hide Reach, Q.Advance;
    var s1 := s.(q := s.q.(msgs := 1, published := [B], pushers := map[2 := Q.LeavingWrite]),
                 msgs := m.(count := 0, incs := 1, posting := {2}));
    var s2 := s1.(msgs := s1.msgs.(kernel := 1, posting := {}));
    assert [] + [B] == [B];
    Then(n, c, s, OnMsgs(S.Increment(2)), s1);
    Then(n, c, s1, OnMsgs(S.Post(2)), s2);
    Then(n, c, s2, Queue(Q.UnlockWrite(2)), HoldsOne(n, m.(count := 0, incs := 1, kernel := 1)));
  }

  /** Two poppers claim the one message. */
  lemma LoosePoppers(n: nat, c: Callers) returns (s: State)
    requires n >= 1 && c.poppers.wait && (c.poppers.poll || c.poppers.interrupt) && (c.pushers.wait || c.pushers.poll)
    ensures Reach(n, c, s) && !Within(s)
  {
    hide Reach, Q.Advance;
    var m := AskEmpty(n, c);
    PushAfterAsking(n, c, m);
    var s0 := HoldsOne(n, m.(count := 0, incs := 1, kernel := 1));
    var s1 := s0.(msgs := s0.msgs.(waiting := {}, undoing := {1}));
    var s2 := s0.(msgs := s1.msgs.(count := 1, undoing := {}, surplus := 1));
    if !c.poppers.poll { Then(n, c, s0, OnMsgs(S.Interrupt(1)), s1); }
    Then(n, c, s1, OnMsgs(S.Undo(1)), s2);
    s := ClaimTwice(n, c, s2);
  }

  lemma ClaimTwice(n: nat, c: Callers, s0: State) returns (s: State)
    requires c.poppers.wait && Reach(n, c, s0)
    requires s0.q.pushers == map[] && s0.q.poppers == map[] && s0.q.msgs == 1
    requires s0.msgs == S.Start(0).(count := 1, incs := 1, kernel := 1, surplus := 1)
    requires S.Idle(s0.free, 3) && S.Idle(s0.free, 4)
    ensures Reach(n, c, s) && !Within(s)
  {
    hide Reach;
    var s1 := s0.(q := s0.q.(msgs := 0, poppers := map[3 := Q.Claimed]), msgs := s0.msgs.(count := 0, decs := 1));
    var s2 := s1.(msgs := s1.msgs.(count := -1, waiting := {4}));
    s := s2.(q := s2.q.(msgs := -1, poppers := map[3 := Q.Claimed, 4 := Q.Claimed]),
             msgs := s2.msgs.(kernel := 0, waiting := {}, decs := 2));
    Then(n, c, s0, OnMsgs(S.Decrement(3, true)), s1);
    Then(n, c, s1, OnMsgs(S.Decrement(4, true)), s2);
    Then(n, c, s2, OnMsgs(S.Wake(4)), s);
  }

  // ----- the exact condition -----

  /** Callers of this kind keep the queue intact on a ring of `n` slots. */
  ghost predicate Guarantees(n: nat, c: Callers) {
    forall s: State :: Reach(n, c, s) ==> Q.Inv(s.q)
  }

  /** Where anybody may push, the queue keeps its invariant in every run on a ring of a
      given size if and only if on each semaphore all callers wait without being
      interrupted, or none waits; the size does not matter. */
  lemma GuaranteesIffUniform(n: nat, c: Callers)
    requires n >= 1 && (c.pushers.wait || c.pushers.poll)
    ensures Guarantees(n, c) <==> Uniform(c)
  {
    hide Q.Inv, Start, Loose, Within;
    if Uniform(c) {
      forall s: State | Reach(n, c, s) ensures Q.Inv(s.q) {
        var steps: seq<Step>, states: seq<State> :|
          IsRun(n, steps, states) && Obeys(steps, c) && states[|steps|] == s;
        UniformKeepsQueue(n, steps, states, c, |steps|);
      }
    } else {
      var s: State;
      if S.Uniform(c.pushers) {
        s := LoosePoppers(n, c);
      } else {
        LoosePushers(n, c);
        s := LooseOverbooks(n, c);
      }
      NotWithinNotKept(n, c, s);
    }
  }

  lemma NotWithinNotKept(n: nat, c: Callers, s: State)
    requires Reach(n, c, s) && !Within(s)
    ensures !Q.Inv(s.q)
  {
    hide Q.Inv, Next, Enabled, Linked, Within;
    var steps: seq<Step>, states: seq<State> :|
      IsRun(n, steps, states) && Obeys(steps, c) && states[|steps|] == s;
    RunLinked(n, steps, states, |steps|);
    if Q.Inv(s.q) { InvIsWithin(s); }
  }
}
