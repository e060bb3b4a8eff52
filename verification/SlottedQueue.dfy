/** The slotted message queue under concurrency: any number of pushers and poppers,
    one step per completed call on a semaphore and per operation on a mutex or a slot.
    `free` and `msgs` are the permits left of its two semaphores. */
module SlottedQueue {

  import opened Wrappers

  type Tid = nat

  /** A message and the number of slots it needs. */
  datatype Message = Message(id: nat, slots: nat)

  /** The contents of one slot: the `k`-th chunk of a message. */
  datatype Cell = Cell(msg: Message, k: nat)

  datatype Pusher =
    | Reserving(msg: Message, got: nat)    // taking slots from semFree one by one
    | RollingBack(left: nat)               // giving them back
    | Reserved(msg: Message)               // waiting for the write mutex
    | Writing(msg: Message, done: nat)     // inside the write mutex
    | LeavingWrite                         // message published, mutex still held

  datatype Popper =
    | Claimed                              // took a message from semMsgs, waiting for the read mutex
    | Reading(msg: Message, cells: seq<Cell>)  // inside the read mutex; `msg` is the header found at the tail
    | Copied(msg: Message, cells: seq<Cell>)   // copied a slot, not yet given back to semFree
    | LeavingRead                          // message complete, mutex still held

  /** `written` and `read` are the history of slots written and the number read;
      `published` and `popped` the messages put in and taken out so far. */
  datatype State = State(
    free: int,
    msgs: int,
    ring: seq<Cell>,
    head: nat,
    tail: nat,
    writer: Option<Tid>,
    reader: Option<Tid>,
    pushers: map<Tid, Pusher>,
    poppers: map<Tid, Popper>,
    written: seq<Cell>,
    read: nat,
    published: seq<Message>,
    popped: seq<Message>)

  datatype Step =
    | BeginPush(t: Tid, msg: Message)
    | Reserve(t: Tid)
    | GiveUp(t: Tid)
    | Rollback(t: Tid)
    | LockWrite(t: Tid)
    | WriteSlot(t: Tid)
    | Publish(t: Tid)
    | UnlockWrite(t: Tid)
    | Claim(t: Tid)
    | LockRead(t: Tid)
    | ReadSlot(t: Tid)
    | Release(t: Tid)
    | UnlockRead(t: Tid)

  function Start(n: nat): State {
    State(n, 0, seq(n, i => Cell(Message(0, 0), 0)), 0, 0, None, None, map[], map[], [], 0, [], [])
  }

  function Advance(i: nat, n: nat): nat {
    if i + 1 >= n then 0 else i + 1
  }

  /** What the thread and the mutexes allow, whatever the semaphores hold.  A call
      that does not wait may give up at any time. */
  predicate Possible(s: State, e: Step) {
    match e
    case BeginPush(t, m) => t !in s.pushers && m.slots >= 1
    case Reserve(t) => t in s.pushers && s.pushers[t].Reserving?
    case GiveUp(t) => t in s.pushers && s.pushers[t].Reserving?
    case Rollback(t) => t in s.pushers && s.pushers[t].RollingBack? && s.pushers[t].left > 0
    case LockWrite(t) => t in s.pushers && s.pushers[t].Reserved? && s.writer.None?
    case WriteSlot(t) => t in s.pushers && s.pushers[t].Writing? && s.pushers[t].done < s.pushers[t].msg.slots
                         && s.head < |s.ring|
    case Publish(t) => t in s.pushers && s.pushers[t].Writing? && s.pushers[t].done >= s.pushers[t].msg.slots
    case UnlockWrite(t) => t in s.pushers && s.pushers[t].LeavingWrite?
    case Claim(t) => t !in s.poppers
    case LockRead(t) => t in s.poppers && s.poppers[t].Claimed? && s.reader.None? && s.tail < |s.ring|
    case ReadSlot(t) => t in s.poppers && s.poppers[t].Reading? && s.tail < |s.ring|
    case Release(t) => t in s.poppers && s.poppers[t].Copied?
    case UnlockRead(t) => t in s.poppers && s.poppers[t].LeavingRead?
  }

  /** A permit is only taken where there is one. */
  predicate Enabled(s: State, e: Step) {
    Possible(s, e) && (e.Reserve? ==> s.free > 0) && (e.Claim? ==> s.msgs > 0)
  }

  function Next(s: State, e: Step): State
    requires Possible(s, e)
  {
    match e
    case BeginPush(t, m) => s.(pushers := s.pushers[t := Reserving(m, 0)])
    case Reserve(t) =>
      var p := s.pushers[t];
      s.(free := s.free - 1,
         pushers := s.pushers[t := if p.got + 1 >= p.msg.slots then Reserved(p.msg) else Reserving(p.msg, p.got + 1)])
    case GiveUp(t) => s.(pushers := if s.pushers[t].got == 0 then s.pushers - {t}
                                    else s.pushers[t := RollingBack(s.pushers[t].got)])
    case Rollback(t) =>
      s.(free := s.free + 1,
         pushers := if s.pushers[t].left == 1 then s.pushers - {t}
                    else s.pushers[t := RollingBack(s.pushers[t].left - 1)])
    case LockWrite(t) => s.(writer := Some(t), pushers := s.pushers[t := Writing(s.pushers[t].msg, 0)])
    case WriteSlot(t) =>
      var p := s.pushers[t];
      var c := Cell(p.msg, p.done);
      s.(ring := s.ring[s.head := c], head := Advance(s.head, |s.ring|), written := s.written + [c],
         pushers := s.pushers[t := Writing(p.msg, p.done + 1)])
    case Publish(t) =>
      s.(msgs := s.msgs + 1, published := s.published + [s.pushers[t].msg],
         pushers := s.pushers[t := LeavingWrite])
    case UnlockWrite(t) => s.(writer := None, pushers := s.pushers - {t})
    case Claim(t) => s.(msgs := s.msgs - 1, poppers := s.poppers[t := Claimed])
    case LockRead(t) => s.(reader := Some(t), poppers := s.poppers[t := Reading(s.ring[s.tail].msg, [])])
    case ReadSlot(t) =>
      var p := s.poppers[t];
      s.(tail := Advance(s.tail, |s.ring|), read := s.read + 1,
         poppers := s.poppers[t := Copied(p.msg, p.cells + [s.ring[s.tail]])])
    case Release(t) =>
      var p := s.poppers[t];
      if |p.cells| >= p.msg.slots then
        s.(free := s.free + 1, popped := s.popped + [p.msg], poppers := s.poppers[t := LeavingRead])
      else
        s.(free := s.free + 1, poppers := s.poppers[t := Reading(p.msg, p.cells)])
    case UnlockRead(t) => s.(reader := None, poppers := s.poppers - {t})
  }

  // ----- reserved slots -----

  function Held(p: Pusher): nat {
    match p
    case Reserving(_, got) => got
    case RollingBack(left) => left
    case Reserved(m) => m.slots
    case Writing(m, done) => if done < m.slots then m.slots - done else 0
    case LeavingWrite => 0
  }

  /** Slots held by all pushers together. */
  ghost function TotalHeld(ps: map<Tid, Pusher>): nat
    decreases |ps|
  {
    if ps == map[] then 0
    else
      var t :| t in ps;
      Held(ps[t]) + TotalHeld(ps - {t})
  }

  lemma {:induction false} TotalWithout(ps: map<Tid, Pusher>, t: Tid)
    requires t in ps
    ensures TotalHeld(ps) == Held(ps[t]) + TotalHeld(ps - {t})
    decreases |ps|
  {
    var u :| u in ps && TotalHeld(ps) == Held(ps[u]) + TotalHeld(ps - {u});
    if u != t {
      TotalWithout(ps - {u}, t);
      TotalWithout(ps - {t}, u);
      assert ps - {u} - {t} == ps - {t} - {u};
    }
  }

  lemma TotalUpdate(ps: map<Tid, Pusher>, t: Tid, p: Pusher)
    ensures TotalHeld(ps[t := p]) == Held(p) + TotalHeld(ps - {t})
    ensures t in ps ==> TotalHeld(ps) == Held(ps[t]) + TotalHeld(ps - {t})
    ensures t !in ps ==> ps - {t} == ps
  {
    TotalWithout(ps[t := p], t);
    assert ps[t := p] - {t} == ps - {t};
    if t in ps { TotalWithout(ps, t); }
  }

  // ----- claimed messages -----

  function ClaimedSet(ps: map<Tid, Popper>): set<Tid> {
    set t | t in ps && ps[t].Claimed?
  }

  // ----- message streams -----

  function Chunks(m: Message, n: nat): (r: seq<Cell>)
    ensures |r| == n
  {
    seq(n, (k: nat) => Cell(m, k))
  }

  function Stream(ms: seq<Message>): seq<Cell> {
    if ms == [] then [] else Stream(ms[..|ms| - 1]) + Chunks(ms[|ms| - 1], ms[|ms| - 1].slots)
  }

  lemma StreamAppend(ms: seq<Message>, m: Message)
    ensures Stream(ms + [m]) == Stream(ms) + Chunks(m, m.slots)
  {
    assert (ms + [m])[..|ms|] == ms;
  }

  /** The stream of a prefix is a prefix of the stream, followed by the next message. */
  lemma {:induction false} StreamPrefix(ms: seq<Message>, j: nat)
    requires j < |ms|
    ensures |Stream(ms[..j])| + ms[j].slots <= |Stream(ms)|
    ensures forall k | 0 <= k < ms[j].slots :: Stream(ms)[|Stream(ms[..j])| + k] == Cell(ms[j], k)
    decreases |ms|
  {
    var front, last := ms[..|ms| - 1], ms[|ms| - 1];
    if j == |ms| - 1 {
      assert ms[..j] == front;
    } else {
      StreamPrefix(front, j);
      assert front[..j] == ms[..j] && front[j] == ms[j];
    }
  }

  // ----- the invariant -----

  /** The message being written, as far as it has got. */
  function Partial(s: State): seq<Cell> {
    if s.writer.Some? && s.writer.value in s.pushers && s.pushers[s.writer.value].Writing? then
      Chunks(s.pushers[s.writer.value].msg, s.pushers[s.writer.value].done)
    else []
  }

  predicate InRead(p: Popper) {
    p.Reading? || p.Copied?
  }

  /** The reader is somewhere between taking the read mutex and completing its message. */
  predicate Busy(s: State) {
    s.reader.Some? && s.reader.value in s.poppers && InRead(s.poppers[s.reader.value])
  }

  function Got(s: State): seq<Cell> {
    if Busy(s) then s.poppers[s.reader.value].cells else []
  }

  /** Slots read and given back. */
  function Released(s: State): int {
    s.read - (if Busy(s) && s.poppers[s.reader.value].Copied? then 1 else 0)
  }

  ghost predicate Locks(s: State) {
    && (forall t <- s.pushers :: (s.pushers[t].Writing? || s.pushers[t].LeavingWrite?) <==> s.writer == Some(t))
    && (forall t <- s.poppers :: (InRead(s.poppers[t]) || s.poppers[t].LeavingRead?) <==> s.reader == Some(t))
    && (s.writer.Some? ==> s.writer.value in s.pushers)
    && (s.reader.Some? ==> s.reader.value in s.poppers)
    && (forall t <- s.pushers :: Shape(s.pushers[t]))
  }

  predicate Shape(p: Pusher) {
    match p
    case Reserving(m, got) => m.slots >= 1 && got < m.slots
    case RollingBack(left) => left >= 1
    case Reserved(m) => m.slots >= 1
    case Writing(m, done) => m.slots >= 1 && done <= m.slots
    case LeavingWrite => true
  }

  /** Conservation of slots: free, reserved and occupied make up the ring. */
  ghost predicate Conserved(s: State) {
    s.free >= 0 && s.free + TotalHeld(s.pushers) + (|s.written| - Released(s)) == |s.ring|
  }

  /** The ring holds exactly the slots written and not yet read, in order. */
  ghost predicate Layout(s: State) {
    var n := |s.ring|;
    && n >= 1 && s.read <= |s.written| <= s.read + n
    && s.head == |s.written| % n && s.tail == s.read % n
    && forall i | s.read <= i < |s.written| :: s.ring[i % n] == s.written[i]
  }

  /** What was written is the published messages one after the other, plus the one
      in progress; what was read is the popped messages plus the one in progress. */
  ghost predicate Ordered(s: State) {
    && (forall m <- s.published :: m.slots >= 1)
    && s.written == Stream(s.published) + Partial(s)
    && |s.popped| <= |s.published| && s.popped == s.published[..|s.popped|]
    && s.read == |Stream(s.popped)| + |Got(s)|
    && (Busy(s) ==> ReaderOnTrack(s))
  }

  ghost predicate ReaderOnTrack(s: State)
    requires Busy(s)
  {
    var p := s.poppers[s.reader.value];
    && |s.popped| < |s.published| && p.msg == s.published[|s.popped|]
    && p.cells == Chunks(p.msg, |p.cells|)
    && (if p.Reading? then |p.cells| < p.msg.slots else 1 <= |p.cells| <= p.msg.slots)
  }

  /** Every published message is waiting, claimed, being read or popped. */
  ghost predicate Accounted(s: State) {
    s.msgs >= 0 && s.msgs + |ClaimedSet(s.poppers)| + (if Busy(s) then 1 else 0) + |s.popped| == |s.published|
  }

  ghost predicate Inv(s: State) {
    Locks(s) && Conserved(s) && Layout(s) && Ordered(s) && Accounted(s)
  }

  lemma StartInv(n: nat)
    requires n >= 1
    ensures Inv(Start(n))
  {
  }

  // ----- the steps, family by family -----

  predicate PushStep(e: Step) {
    e.BeginPush? || e.Reserve? || e.GiveUp? || e.Rollback?
  }

  /** Steps before the write mutex touch only the free count and the pusher. */
  lemma PushStepInv(s: State, e: Step)
    requires Inv(s) && Enabled(s, e) && PushStep(e)
    ensures Inv(Next(s, e))
  {
    var s' := Next(s, e);
    PushStepLocks(s, e);
    assert Partial(s') == Partial(s);
    assert s' == s.(free := s'.free, pushers := s'.pushers);
    OnlyPushersChanged(s, s');
  }

  lemma PushStepLocks(s: State, e: Step)
    requires Inv(s) && Enabled(s, e) && PushStep(e)
    ensures Locks(Next(s, e)) && Conserved(Next(s, e))
  {
    hide Layout, Ordered, Accounted;
    match e {
      case BeginPush(t, m) => SetPusher(s, t, Next(s, e));
      case Reserve(t) => SetPusher(s, t, Next(s, e));
      case GiveUp(t) => if s.pushers[t].got == 0 { DropPusher(s, t, Next(s, e)); } else { SetPusher(s, t, Next(s, e)); }
      case Rollback(t) => if s.pushers[t].left == 1 { DropPusher(s, t, Next(s, e)); } else { SetPusher(s, t, Next(s, e)); }
    }
  }

  predicate OutsideMutex(p: Pusher) {
    !p.Writing? && !p.LeavingWrite?
  }

  /** Replacing a pusher outside the mutex by another that holds `s.free - s'.free` more slots. */
  lemma SetPusher(s: State, t: Tid, s': State)
    requires Locks(s) && Conserved(s) && t in s'.pushers && s'.free >= 0
    requires s' == s.(free := s'.free, pushers := s.pushers[t := s'.pushers[t]])
    requires OutsideMutex(s'.pushers[t]) && Shape(s'.pushers[t])
    requires t in s.pushers ==> OutsideMutex(s.pushers[t])
    requires s'.free + Held(s'.pushers[t]) == s.free + if t in s.pushers then Held(s.pushers[t]) else 0
    ensures Locks(s') && Conserved(s')
  {
    TotalUpdate(s.pushers, t, s'.pushers[t]);
    hide TotalHeld;
  }

  /** Removing a pusher outside the mutex, with the slots it held given back. */
  lemma DropPusher(s: State, t: Tid, s': State)
    requires Locks(s) && Conserved(s) && t in s.pushers && OutsideMutex(s.pushers[t])
    requires s' == s.(free := s.free + Held(s.pushers[t]), pushers := s.pushers - {t})
    ensures Locks(s') && Conserved(s')
  {
    TotalWithout(s.pushers, t);
    hide TotalHeld;
  }

  /** Changing the pushers and the free count leaves the ring and the readers alone. */
  lemma OnlyPushersChanged(s: State, s': State)
    requires Layout(s) && Ordered(s) && Accounted(s)
    requires s' == s.(free := s'.free, pushers := s'.pushers) && Partial(s') == Partial(s)
    ensures Layout(s') && Ordered(s') && Accounted(s')
  {
  }

  lemma LockWriteInv(s: State, t: Tid)
    requires Inv(s) && Enabled(s, LockWrite(t))
    ensures Inv(Next(s, LockWrite(t)))
  {
    hide Next, Ordered, Layout, Accounted;
    LockWriteLocks(s, t);
    LockWriteRest(s, t);
  }

  lemma LockWriteLocks(s: State, t: Tid)
    requires Inv(s) && Enabled(s, LockWrite(t))
    ensures Locks(Next(s, LockWrite(t))) && Conserved(Next(s, LockWrite(t)))
  {
    hide Layout, Ordered, Accounted;
    var s' := Next(s, LockWrite(t));
    TotalUpdate(s.pushers, t, s'.pushers[t]);
    hide TotalHeld;
    assert Released(s') == Released(s);
  }

  lemma LockWriteRest(s: State, t: Tid)
    requires Inv(s) && Enabled(s, LockWrite(t))
    ensures var s' := Next(s, LockWrite(t)); Layout(s') && Ordered(s') && Accounted(s')
  {
    hide TotalHeld, Stream;
    var s' := Next(s, LockWrite(t));
    assert Partial(s') == [] && Partial(s) == [];
    assert Got(s') == Got(s);
  }

  /** The slot about to be written is not one that is still to be read. */
  lemma NoUnreadSlotIsWritten(s: State, t: Tid)
    requires Inv(s) && Enabled(s, WriteSlot(t))
    ensures |s.written| < s.read + |s.ring|
    ensures forall i | s.read <= i < |s.written| :: i % |s.ring| != s.head
  {
    TotalWithout(s.pushers, t);
    forall i | s.read <= i < |s.written| ensures i % |s.ring| != s.head {
      ModDistinct(i, |s.written|, |s.ring|);
    }
  }

  /** A non-zero multiple of n is at least n away from zero. */
  lemma MultipleIsFar(n: int, q: int)
    requires n >= 1
    ensures q >= 1 ==> n * q >= n
    ensures q <= -1 ==> n * q <= -n
  {
  }

  lemma ModDistinct(i: nat, j: nat, n: nat)
    requires i < j < i + n
    ensures i % n != j % n
  {
    var q := j / n - i / n;
    assert n * q == n * (j / n) - n * (i / n);
    MultipleIsFar(n, q);
  }

  lemma ModOf(x: nat, n: nat, q: nat, r: nat)
    requires n >= 1 && r < n && x == n * q + r
    ensures x % n == r
  {
    var d := x / n - q;
    assert n * d == n * (x / n) - n * q;
    MultipleIsFar(n, d);
  }

  lemma ModAdvance(x: nat, n: nat)
    requires n >= 1
    ensures (x + 1) % n == Advance(x % n, n)
  {
    var q, r := x / n, x % n;
    assert x == n * q + r;
    if r + 1 < n {
      ModOf(x + 1, n, q, r + 1);
    } else {
      assert n * (q + 1) == n * q + n;
      ModOf(x + 1, n, q + 1, 0);
    }
  }

  lemma WriteSlotInv(s: State, t: Tid)
    requires Inv(s) && Enabled(s, WriteSlot(t))
    ensures Inv(Next(s, WriteSlot(t)))
  {
    WriteSlotLocks(s, t);
    WriteSlotLayout(s, t);
    WriteSlotOrder(s, t);
  }

  lemma WriteSlotLocks(s: State, t: Tid)
    requires Inv(s) && Enabled(s, WriteSlot(t))
    ensures var s' := Next(s, WriteSlot(t)); Locks(s') && Conserved(s') && Accounted(s')
  {
    hide Layout, Ordered;
    var s' := Next(s, WriteSlot(t));
    TotalUpdate(s.pushers, t, s'.pushers[t]);
    hide TotalHeld;
    assert Released(s') == Released(s);
  }

  lemma WriteSlotLayout(s: State, t: Tid)
    requires Inv(s) && Enabled(s, WriteSlot(t))
    ensures Layout(Next(s, WriteSlot(t)))
  {
    NoUnreadSlotIsWritten(s, t);
    ModAdvance(|s.written|, |s.ring|);
    hide Ordered, Accounted, Conserved, Locks;
    var s' := Next(s, WriteSlot(t));
    forall i | s'.read <= i < |s'.written| ensures s'.ring[i % |s'.ring|] == s'.written[i] {
      if i < |s.written| { assert i % |s.ring| != s.head; }
    }
  }

  lemma WriteSlotOrder(s: State, t: Tid)
    requires Inv(s) && Enabled(s, WriteSlot(t))
    ensures Ordered(Next(s, WriteSlot(t)))
  {
    hide Layout, Accounted, Conserved, Stream;
    var s' := Next(s, WriteSlot(t));
    assert s.writer == Some(t);
    assert Partial(s') == Partial(s) + [Cell(s.pushers[t].msg, s.pushers[t].done)];
    assert Got(s') == Got(s);
  }

  lemma PublishInv(s: State, t: Tid)
    requires Inv(s) && Enabled(s, Publish(t))
    ensures Inv(Next(s, Publish(t)))
  {
    PublishLocks(s, t);
    PublishOrder(s, t);
  }

  lemma PublishLocks(s: State, t: Tid)
    requires Inv(s) && Enabled(s, Publish(t))
    ensures var s' := Next(s, Publish(t)); Locks(s') && Conserved(s') && Accounted(s') && Layout(s')
  {
    hide Ordered, Stream;
    var s' := Next(s, Publish(t));
    TotalUpdate(s.pushers, t, LeavingWrite);
    hide TotalHeld;
    assert Released(s') == Released(s);
  }

  lemma PublishOrder(s: State, t: Tid)
    requires Inv(s) && Enabled(s, Publish(t))
    ensures Ordered(Next(s, Publish(t)))
  {
    hide Layout, Accounted, Conserved, Stream, TotalHeld;
    var s' := Next(s, Publish(t));
    StreamAppend(s.published, s.pushers[t].msg);
    assert s.pushers[t].done == s.pushers[t].msg.slots;
    assert Partial(s') == [];
    assert s'.published[..|s.popped|] == s.published[..|s.popped|];
    assert Got(s') == Got(s);
  }

  lemma UnlockWriteInv(s: State, t: Tid)
    requires Inv(s) && Enabled(s, UnlockWrite(t))
    ensures Inv(Next(s, UnlockWrite(t)))
  {
    var s' := Next(s, UnlockWrite(t));
    TotalWithout(s.pushers, t);
    assert Partial(s') == [] && Partial(s) == [];
    assert Got(s') == Got(s) && Released(s') == Released(s);
  }

  lemma ClaimInv(s: State, t: Tid)
    requires Inv(s) && Enabled(s, Claim(t))
    ensures Inv(Next(s, Claim(t)))
  {
    var s' := Next(s, Claim(t));
    assert ClaimedSet(s'.poppers) == ClaimedSet(s.poppers) + {t};
    assert Partial(s') == Partial(s) && Got(s') == Got(s) && Released(s') == Released(s);
  }

  /** A popper that gets the read mutex finds the header of the oldest unpopped message. */
  lemma HeaderIsOldestMessage(s: State, t: Tid)
    requires Inv(s) && Enabled(s, LockRead(t))
    ensures |s.popped| < |s.published| && s.ring[s.tail] == Cell(s.published[|s.popped|], 0)
  {
    hide Locks, Conserved, Next;
    SomethingUnpopped(s, t);
    hide Accounted;
    var j := |s.popped|;
    assert s.published[j] in s.published;
    StreamPrefix(s.published, j);
    hide Stream;
    assert Got(s) == [] && s.read == |Stream(s.published[..j])|;
    assert s.written[s.read] == Cell(s.published[j], 0);
    assert s.ring[s.read % |s.ring|] == s.written[s.read];
  }

  lemma SomethingUnpopped(s: State, t: Tid)
    requires Accounted(s) && t in s.poppers && s.poppers[t].Claimed?
    ensures |s.popped| < |s.published|
  {
    assert t in ClaimedSet(s.poppers);
    assert |ClaimedSet(s.poppers)| >= 1;
  }

  lemma LockReadInv(s: State, t: Tid)
    requires Inv(s) && Enabled(s, LockRead(t))
    ensures Inv(Next(s, LockRead(t)))
  {
    var s' := Next(s, LockRead(t));
    HeaderIsOldestMessage(s, t);
    assert s.published[|s.popped|] in s.published;
    assert ClaimedSet(s.poppers) == ClaimedSet(s'.poppers) + {t};
    assert Partial(s') == Partial(s);
  }

  /** In any state, intact or not, a reader gets what the slot at the tail holds. */
  lemma ReaderGetsTheSlot(s: State, t: Tid)
    requires Possible(s, ReadSlot(t))
    ensures var p := Next(s, ReadSlot(t)).poppers[t];
            p.Copied? && p.msg == s.poppers[t].msg && |p.cells| == |s.poppers[t].cells| + 1
            && p.cells[|p.cells| - 1] == s.ring[s.tail]
  {
  }

  /** Each slot a reader copies is the next chunk of its message. */
  lemma SlotIsNextChunk(s: State, t: Tid)
    requires Inv(s) && Enabled(s, ReadSlot(t))
    ensures s.read < |s.written|
    ensures s.ring[s.tail] == Cell(s.poppers[t].msg, |s.poppers[t].cells|)
  {
    hide Conserved, Accounted, Next, Stream;
    var j := |s.popped|;
    assert s.reader == Some(t) && Busy(s) && ReaderOnTrack(s);
    StreamPrefix(s.published, j);
    assert s.read == |Stream(s.published[..j])| + |s.poppers[t].cells|;
    assert s.written[s.read] == Cell(s.published[j], |s.poppers[t].cells|);
    assert s.ring[s.read % |s.ring|] == s.written[s.read];
  }

  lemma ReadSlotInv(s: State, t: Tid)
    requires Inv(s) && Enabled(s, ReadSlot(t))
    ensures Inv(Next(s, ReadSlot(t)))
  {
    var s' := Next(s, ReadSlot(t));
    SlotIsNextChunk(s, t);
    ModAdvance(s.read, |s.ring|);
    assert ClaimedSet(s'.poppers) == ClaimedSet(s.poppers);
    assert Partial(s') == Partial(s);
  }

  lemma ReleaseInv(s: State, t: Tid)
    requires Inv(s) && Enabled(s, Release(t))
    ensures Inv(Next(s, Release(t)))
  {
    ReleaseLocks(s, t);
    ReleaseOrder(s, t);
  }

  lemma ReleaseLocks(s: State, t: Tid)
    requires Inv(s) && Enabled(s, Release(t))
    ensures var s' := Next(s, Release(t)); Locks(s') && Conserved(s') && Layout(s') && Accounted(s')
  {
    hide Ordered, Stream;
    var s' := Next(s, Release(t));
    assert ClaimedSet(s'.poppers) == ClaimedSet(s.poppers);
  }

  lemma ReleaseOrder(s: State, t: Tid)
    requires Inv(s) && Enabled(s, Release(t))
    ensures Ordered(Next(s, Release(t)))
  {
    hide Layout, Accounted, Conserved, TotalHeld, Stream;
    var s' := Next(s, Release(t));
    var p := s.poppers[t];
    assert s.reader == Some(t) && Partial(s') == Partial(s);
    if |p.cells| >= p.msg.slots {
      StreamAppend(s.popped, p.msg);
      assert s.published[..|s.popped| + 1] == s.popped + [p.msg];
      assert Got(s') == [];
    }
  }

  lemma UnlockReadInv(s: State, t: Tid)
    requires Inv(s) && Enabled(s, UnlockRead(t))
    ensures Inv(Next(s, UnlockRead(t)))
  {
    var s' := Next(s, UnlockRead(t));
    assert ClaimedSet(s'.poppers) == ClaimedSet(s.poppers);
    assert Partial(s') == Partial(s);
  }

  lemma StepInv(s: State, e: Step)
    requires Inv(s) && Enabled(s, e)
    ensures Inv(Next(s, e))
  {
    hide Next, Inv;
    match e {
      case LockWrite(t) => LockWriteInv(s, t);
      case WriteSlot(t) => WriteSlotInv(s, t);
      case Publish(t) => PublishInv(s, t);
      case UnlockWrite(t) => UnlockWriteInv(s, t);
      case Claim(t) => ClaimInv(s, t);
      case LockRead(t) => LockReadInv(s, t);
      case ReadSlot(t) => ReadSlotInv(s, t);
      case Release(t) => ReleaseInv(s, t);
      case UnlockRead(t) => UnlockReadInv(s, t);
      case _ => PushStepInv(s, e);
    }
  }

  lemma InvAccounts(s: State)
    requires Inv(s)
    ensures s.free >= 0 && s.msgs >= 0 && s.popped <= s.published
    ensures s.free + TotalHeld(s.pushers) + (|s.written| - Released(s)) == |s.ring|
    ensures s.msgs + |ClaimedSet(s.poppers)| + (if Busy(s) then 1 else 0) == |s.published| - |s.popped|
  {
  }

  /** When a message is complete its reader holds exactly its chunks, in order. */
  lemma ReleasedIntact(s: State, t: Tid)
    requires Inv(s) && Possible(s, Release(t)) && |s.poppers[t].cells| >= s.poppers[t].msg.slots
    ensures var p := s.poppers[t];
            && p.cells == Chunks(p.msg, p.msg.slots)
            && |s.popped| < |s.published| && p.msg == s.published[|s.popped|]
            && Next(s, Release(t)).popped == s.popped + [p.msg]
  {
    hide Layout, Conserved, Accounted, Stream;
  }

  lemma SameRing(s: State, e: Step)
    requires Possible(s, e)
    ensures |Next(s, e).ring| == |s.ring|
  {
  }

  // ----- runs in which every call on a semaphore is one step -----

  ghost predicate IsRun(n: nat, steps: seq<Step>, states: seq<State>) {
    && n >= 1 && |states| == |steps| + 1 && states[0] == Start(n)
    && forall i {:trigger steps[i]} | 0 <= i < |steps| ::
         Enabled(states[i], steps[i]) && states[i + 1] == Next(states[i], steps[i])
  }

  lemma {:induction false} RunInv(n: nat, steps: seq<Step>, states: seq<State>, i: nat)
    requires IsRun(n, steps, states) && i <= |steps|
    ensures Inv(states[i]) && |states[i].ring| == n
  {
    hide Inv, Next, Possible;
    if i == 0 {
      StartInv(n);
      assert |Start(n).ring| == n;
    } else {
      RunInv(n, steps, states, i - 1);
      assert Enabled(states[i - 1], steps[i - 1]);
      StepInv(states[i - 1], steps[i - 1]);
      SameRing(states[i - 1], steps[i - 1]);
    }
  }
}
