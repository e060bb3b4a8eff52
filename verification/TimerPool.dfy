/** The expiration timer pool: timers that expire together share one operating system
    timer, and operating system timers are recycled. */
module TimerPool {
  type Id = nat

  /** What to do on expiry: call a function or post a message. */
  datatype Info = Callback(func: nat, data: nat) | Post(queue: nat, msg: nat)

  datatype Rounding = Up | Down

  // ----- deadlines -----

  /** Expiry times lie on a grid so that close timers share a deadline. */
  function ExpireTime(t: nat, resolution: nat, rounding: Rounding): nat
    requires resolution > 0
  {
    (t / resolution + if rounding.Down? then 0 else 1) * resolution
  }

  /** Rounding down is early by less than the resolution, rounding up late by at most it. */
  lemma ExpireTimeOnGrid(t: nat, resolution: nat, rounding: Rounding)
    requires resolution > 0
    ensures var d := ExpireTime(t, resolution, rounding);
            && d % resolution == 0
            && (rounding.Down? ==> d <= t < d + resolution)
            && (rounding.Up? ==> t < d <= t + resolution)
  {
    var q := t / resolution;
    assert t == q * resolution + t % resolution;
    assert (q + 1) * resolution == q * resolution + resolution;
    MultipleMod(q, resolution);
    MultipleMod(q + 1, resolution);
  }

  lemma MultipleMod(q: int, d: int)
    requires d > 0
    ensures (q * d) % d == 0
  {
    var k := (q * d) / d - q;
    assert k * d == -((q * d) % d);
    assert k <= -1 ==> k * d <= -d;
    assert k >= 1 ==> k * d >= d;
  }

  // ----- identifiers -----

  const IDS := 0xFFFF_FFFF

  /** A 32-bit counter that skips zero. */
  function NextId(last: nat): (id: nat)
    requires last <= IDS
    ensures 1 <= id <= IDS
  {
    var id := (last + 1) % 0x1_0000_0000;
    if id == 0 then (id + 1) % 0x1_0000_0000 else id
  }

  /** The `k`-th identifier assigned after `last`. */
  function IdAfter(last: nat, k: nat): (id: nat)
    requires last <= IDS
    ensures id <= IDS && (k > 0 ==> id >= 1)
  {
    if k == 0 then last else NextId(IdAfter(last, k - 1))
  }

  lemma {:induction false} IdAfterIs(last: nat, k: nat)
    requires last <= IDS && k >= 1
    ensures IdAfter(last, k) == (last + k - 1) % IDS + 1
  {
    var prev := IdAfter(last, k - 1);
    assert IdAfter(last, k) == NextId(prev);
    if k == 1 {
      NextRemainder(last);
    } else {
      IdAfterIs(last, k - 1);
      NextRemainder(last + k - 2);
    }
    hide IdAfter;
  }

  lemma NextRemainder(x: nat)
    ensures x <= IDS ==> NextId(x) == x % IDS + 1
    ensures NextId(x % IDS + 1) == (x + 1) % IDS + 1
  {
    WrapRemainder(x);
    hide NextId;
    NextIdIs(x % IDS + 1);
    if x <= IDS { NextIdIs(x); }
  }

  lemma NextIdIs(last: nat)
    requires last <= IDS
    ensures NextId(last) == if last == IDS then 1 else last + 1
  {
  }

  lemma WrapRemainder(x: nat)
    ensures (x + 1) % IDS == if x % IDS == IDS - 1 then 0 else x % IDS + 1
  {
  }

  /** Identifiers repeat exactly every 2^32 - 1 assignments. */
  lemma IdsRepeatIff(last: nat, j: nat, k: nat)
    requires last <= IDS && 1 <= j <= k
    ensures IdAfter(last, j) == IdAfter(last, k) <==> (k - j) % IDS == 0
  {
    hide IdAfter;
    IdAfterIs(last, j);
    IdAfterIs(last, k);
    var x, y := last + j - 1, last + k - 1;
    SameRemainderIff(x, y, IDS);
    assert y - x == k - j;
  }

  lemma SameRemainderIff(x: int, y: int, d: int)
    requires d > 0
    ensures x % d == y % d <==> (y - x) % d == 0
  {
    var q := y / d - x / d;
    assert y - x == q * d + (y % d - x % d);
    if x % d == y % d {
      MultipleMod(q, d);
    } else {
      NotMultiple(q, y % d - x % d, d);
    }
  }

  lemma NotMultiple(q: int, r: int, d: int)
    requires d > 0 && -d < r < d && r != 0
    ensures (q * d + r) % d != 0
  {
    var z := (q * d + r) / d - q;
    assert z * d == r - (q * d + r) % d;
    assert z >= 1 ==> z * d >= d;
    assert z <= -1 ==> z * d <= -d;
  }

  // ----- histories -----

  datatype Timing = Timing(deadline: nat, info: Info)

  datatype Event =
    | Registered(id: Id, timing: Timing)
    | Unregistered(id: Id)
    | Notified(id: Id, timing: Timing)

  function Apply(m: map<Id, Timing>, e: Event): map<Id, Timing> {
    match e
    case Registered(id, t) => m[id := t]
    case Unregistered(id) => m - {id}
    case Notified(id, _) => m - {id}
  }

  /** The timers live after a history. */
  function Replay(h: seq<Event>): map<Id, Timing> {
    if h == [] then map[] else Apply(Replay(h[..|h| - 1]), h[|h| - 1])
  }

  predicate Allowed(m: map<Id, Timing>, e: Event) {
    match e
    case Registered(id, _) => id !in m
    case Unregistered(id) => id in m
    case Notified(id, t) => id in m && m[id] == t
  }

  ghost predicate Legal(h: seq<Event>) {
    forall k {:trigger h[k]} | 0 <= k < |h| :: Allowed(Replay(h[..k]), h[k])
  }

  lemma LegalAppend(h: seq<Event>, e: Event)
    requires Legal(h) && Allowed(Replay(h), e)
    ensures Legal(h + [e]) && Replay(h + [e]) == Apply(Replay(h), e)
  {
    var h' := h + [e];
    assert h'[..|h|] == h;
    forall k {:trigger h'[k]} | 0 <= k < |h'| ensures Allowed(Replay(h'[..k]), h'[k]) {
      if k < |h| { assert h'[..k] == h[..k] && h'[k] == h[k]; }
    }
  }

  lemma NotLegalAppend(h: seq<Event>, e: Event)
    requires !Allowed(Replay(h), e)
    ensures !Legal(h + [e])
  {
    var h' := h + [e];
    assert h'[..|h|] == h && h'[|h|] == e;
  }

  /** A live timer was registered with its present timing and untouched since. */
  lemma {:induction false} LiveSinceRegistered(h: seq<Event>, j: nat, id: Id) returns (k: nat)
    requires Legal(h) && j <= |h| && id in Replay(h[..j])
    ensures k < j && h[k] == Registered(id, Replay(h[..j])[id])
    ensures forall m | k < m < j :: h[m].id != id
    decreases j
  {
    var e := h[j - 1];
    assert h[..j][..j - 1] == h[..j - 1] && h[..j][j - 1] == e;
    if e.id == id {
      k := j - 1;
    } else {
      k := LiveSinceRegistered(h, j - 1, id);
    }
  }

  /** Every notification belongs to a registration with the same deadline and action,
      with no notification and no unregistering of that timer in between. */
  lemma NotifiedOnceAsRegistered(h: seq<Event>, j: nat)
    requires Legal(h) && j < |h| && h[j].Notified?
    ensures exists k | 0 <= k < j ::
              h[k] == Registered(h[j].id, h[j].timing) && forall m | k < m < j :: h[m].id != h[j].id
  {
    assert Allowed(Replay(h[..j]), h[j]);
    var k := LiveSinceRegistered(h, j, h[j].id);
  }

  /** After it was unregistered or notified a timer is not notified until it is registered again. */
  lemma NeverAfterRemoval(h: seq<Event>, i: nat, j: nat)
    requires Legal(h) && i < j < |h| && h[j].Notified? && h[i].id == h[j].id && !h[i].Registered?
    ensures exists k | i < k < j :: h[k] == Registered(h[j].id, h[j].timing)
  {
    assert Allowed(Replay(h[..j]), h[j]);
    var k := LiveSinceRegistered(h, j, h[j].id);
    assert h[i] != h[k];
  }

  // ----- the pool -----

  class Timer {
    var armed: bool
    var etep: ExpirationTimeEntry?
    ghost var deadlines: seq<nat>   // of each time it was armed

    constructor ()
      ensures !armed && etep == null && deadlines == []
    {
      armed, etep, deadlines := false, null, [];
    }

    method Start(d: nat)
      modifies this`armed, this`deadlines
      ensures ArmedFor(d) && armed && deadlines == old(deadlines) + [d]
    {
      armed := true;
      deadlines := deadlines + [d];
    }

    /** The last time it was armed it was for this deadline. */
    ghost predicate ArmedFor(d: nat)
      reads this
    {
      armed && deadlines != [] && deadlines[|deadlines| - 1] == d
    }
  }

  /** The timers that expire at one time. */
  class ExpirationTimeEntry {
    const expireTime: nat
    var timer: Timer?
    var entries: map<Id, Info>

    constructor (expireTime: nat)
      ensures this.expireTime == expireTime && timer == null && entries == map[]
    {
      this.expireTime, timer, entries := expireTime, null, map[];
    }
  }

  datatype Outcome = Assigned(id: Id) | CreatingTimerFailed | TimerSetTimeFailed

  /** The entries of the group for one deadline. */
  function EntriesAt(live: map<Id, Timing>, d: nat): map<Id, Info> {
    map id | id in live && live[id].deadline == d :: live[id].info
  }

  ghost predicate Waiting(entries: map<Id, Info>, live: map<Id, Timing>, d: nat, open: bool) {
    entries == EntriesAt(live, d) && (!open ==> entries != map[])
  }

  /** The identifier map names the group every live timer is in. */
  ghost predicate IdsAgree(etmap: map<nat, ExpirationTimeEntry>, etidmap: map<Id, ExpirationTimeEntry>,
                           live: map<Id, Timing>)
  {
    && (forall id :: id in etidmap <==> id in live)
    && forall id | id in live :: live[id].deadline in etmap && etidmap[id] == etmap[live[id].deadline]
  }

  lemma IdsAgreeNewGroup(etmap: map<nat, ExpirationTimeEntry>, etidmap: map<Id, ExpirationTimeEntry>,
                         live: map<Id, Timing>, d: nat, g: ExpirationTimeEntry)
    requires IdsAgree(etmap, etidmap, live) && d !in etmap
    ensures IdsAgree(etmap[d := g], etidmap, live)
    ensures Waiting(map[], live, d, true)
  {
  }

  lemma IdsAgreeAdd(etmap: map<nat, ExpirationTimeEntry>, etidmap: map<Id, ExpirationTimeEntry>,
                    live: map<Id, Timing>, id: Id, t: Timing)
    requires IdsAgree(etmap, etidmap, live) && t.deadline in etmap
    ensures IdsAgree(etmap, etidmap[id := etmap[t.deadline]], live[id := t])
  {
  }

  lemma NotLive(etmap: map<nat, ExpirationTimeEntry>, etidmap: map<Id, ExpirationTimeEntry>,
                live: map<Id, Timing>, id: Id)
    requires IdsAgree(etmap, etidmap, live)
    ensures id in etidmap <==> id in live
    ensures id in live ==> live[id].deadline in etmap && etidmap[id] == etmap[live[id].deadline]
  {
  }

  lemma WaitingAdd(entries: map<Id, Info>, live: map<Id, Timing>, id: Id, t: Timing)
    requires id !in live && Waiting(entries, live, t.deadline, true)
    ensures Waiting(entries[id := t.info], live[id := t], t.deadline, false)
  {
    assert id in entries[id := t.info];
  }

  lemma WaitingElsewhere(entries: map<Id, Info>, live: map<Id, Timing>, d: nat, open: bool, id: Id, t: Timing)
    requires id !in live && d != t.deadline && Waiting(entries, live, d, open)
    ensures Waiting(entries, live[id := t], d, open)
  {
    assert EntriesAt(live[id := t], d) == EntriesAt(live, d);
  }

  lemma IdsAgreeDrop(etmap: map<nat, ExpirationTimeEntry>, etidmap: map<Id, ExpirationTimeEntry>,
                     live: map<Id, Timing>, id: Id)
    requires IdsAgree(etmap, etidmap, live)
    ensures IdsAgree(etmap, etidmap - {id}, live - {id})
  {
  }

  lemma ApplyDrops(live: map<Id, Timing>, e: Event)
    requires !e.Registered? && Allowed(live, e)
    ensures Apply(live, e) == live - {e.id} && e.id in live
  {
  }

  lemma WaitingDrop(entries: map<Id, Info>, live: map<Id, Timing>, d: nat, open: bool, id: Id)
    requires Waiting(entries, live, d, open)
    ensures Waiting(entries - {id}, live - {id}, d, true)
    ensures id in live && live[id].deadline != d ==> Waiting(entries, live - {id}, d, open)
  {
    assert entries - {id} == EntriesAt(live - {id}, d);
    if id in live && live[id].deadline != d { assert EntriesAt(live - {id}, d) == EntriesAt(live, d); }
  }

  /** A deadline without entries can be given up. */
  lemma IdsAgreeNoGroup(etmap: map<nat, ExpirationTimeEntry>, etidmap: map<Id, ExpirationTimeEntry>,
                        live: map<Id, Timing>, d: nat)
    requires IdsAgree(etmap, etidmap, live) && Waiting(map[], live, d, true)
    ensures IdsAgree(etmap - {d}, etidmap, live)
  {
    forall id | id in live ensures live[id].deadline != d {
      assert id !in EntriesAt(live, d);
    }
  }

  lemma EntryIsLive(entries: map<Id, Info>, live: map<Id, Timing>, d: nat, open: bool, id: Id)
    requires Waiting(entries, live, d, open) && id in entries
    ensures id in live && live[id] == Timing(d, entries[id])
  {
  }

  lemma LiveIsEntry(entries: map<Id, Info>, live: map<Id, Timing>, d: nat, open: bool, id: Id)
    requires Waiting(entries, live, d, open) && id in live && live[id].deadline == d
    ensures id in entries && entries[id] == live[id].info
  {
    assert id in EntriesAt(live, d);
  }

  lemma SomeoneWaits(entries: map<Id, Info>, live: map<Id, Timing>, d: nat)
    requires Waiting(entries, live, d, false)
    ensures live != map[]
  {
    assert live == map[] ==> EntriesAt(live, d) == map[];
  }

  class Pool {
    var resolution: nat
    var rounding: Rounding
    var nextId: nat
    var etmap: map<nat, ExpirationTimeEntry>
    var etidmap: map<Id, ExpirationTimeEntry>
    var freeTimers: seq<Timer>
    ghost var live: map<Id, Timing>      // the pool as a plain map
    ghost var history: seq<Event>
    ghost var groups: set<ExpirationTimeEntry>
    ghost var timers: set<Timer>
    ghost var lost: set<Timer>           // never started and never recycled

    /** Every group is filed under its deadline and has an armed timer of its own. */
    ghost predicate GroupsOk()
      reads this`etmap, this`groups, this`timers, timers, groups`timer
    {
      forall d | d in etmap ::
        && etmap[d] in groups && etmap[d].expireTime == d
        && etmap[d].timer != null && etmap[d].timer in timers
        && etmap[d].timer.etep == etmap[d] && etmap[d].timer.ArmedFor(d)
    }

    /** An armed timer leads back to its group; any other is free, once, or lost. */
    ghost predicate TimersOk()
      reads this`etmap, this`groups, this`timers, this`freeTimers, this`lost, timers, groups`timer
    {
      TimersBut(null)
    }

    ghost predicate TimersBut(open: Timer?)
      reads this`etmap, this`groups, this`timers, this`freeTimers, this`lost, timers, groups`timer
    {
      && (forall t <- timers | t.armed ::
            && t.etep != null && t.etep in groups && t.etep.timer == t
            && t.etep.expireTime in etmap && etmap[t.etep.expireTime] == t.etep)
      && (forall i | 0 <= i < |freeTimers| ::
            freeTimers[i] in timers && !freeTimers[i].armed && freeTimers[i].etep == null)
      && (forall i, j | 0 <= i < j < |freeTimers| :: freeTimers[i] != freeTimers[j])
      && lost <= timers && (forall t <- lost :: !t.armed && t.etep != null)
      && (forall t <- timers :: t.armed || t in freeTimers || t in lost || t == open)
    }

    /** Groups hold exactly the timers with their deadline; only `open` may be empty. */
    ghost predicate EntriesOk(open: ExpirationTimeEntry?)
      reads this`etmap, this`live, etmap.Values`entries
    {
      forall d | d in etmap :: Waiting(etmap[d].entries, live, d, etmap[d] == open)
    }

    /** The history ends in the present state. */
    ghost predicate HistoryOk()
      reads this`history, this`live
    {
      Legal(history) && Replay(history) == live
    }

    ghost predicate ValidBut(open: ExpirationTimeEntry?)
      reads this, timers, groups, etmap.Values
    {
      GroupsOk() && TimersOk() && IdsAgree(etmap, etidmap, live) && EntriesOk(open) && HistoryOk()
    }

    /** What timers have been armed for is not forgotten. */
    twostate predicate ArmingsKept()
      reads this`timers, timers
    {
      forall t <- timers | old(allocated(t)) :: old(t.deadlines) <= t.deadlines
    }

    ghost predicate Valid()
      reads this, timers, groups, etmap.Values
    {
      resolution > 0 && nextId <= IDS && ValidBut(null)
    }

    constructor (resolution: nat, rounding: Rounding)
      requires resolution > 0
      ensures Valid() && live == map[] && timers == {} && history == [] && nextId == 0
      ensures this.resolution == resolution && this.rounding == rounding
      ensures etmap == map[] && freeTimers == [] && lost == {} && groups == {}
    {
      this.resolution, this.rounding, nextId := resolution, rounding, 0;
      etmap, etidmap, freeTimers, live, history := map[], map[], [], map[], [];
      groups, timers, lost := {}, {}, {};
    }

    /** A recycled or new operating system timer for a new group; `create` is the
        outcome of creating one. */
    method ObtainTimer(create: bool) returns (t: Timer?)
      requires GroupsOk() && TimersOk()
      modifies this`freeTimers, this`timers
      ensures GroupsOk() && forall t <- timers :: t in old(timers) || fresh(t)
      ensures t == null <==> old(freeTimers) == [] && !create
      ensures TimersBut(t)
      ensures |timers| <= |old(timers)| + (if create then 1 else 0)
      ensures t == null ==> timers == old(timers) && freeTimers == old(freeTimers)
      ensures t != null ==> timers == old(timers) + {t} && !t.armed && t.etep == null && t !in lost
      ensures t != null ==> t !in freeTimers
      ensures t != null && old(freeTimers) != [] ==> old(freeTimers) == [t] + freeTimers && t in old(timers)
      ensures t != null && old(freeTimers) == [] ==> fresh(t) && freeTimers == []
    {
      if freeTimers == [] {
        if !create { return null; }
        t := new Timer();
        timers := timers + {t};
      } else {
        t := freeTimers[0];
        freeTimers := freeTimers[1..];
      }
    }

    /** Ties a stopped timer to a new group and starts it if the operating system agrees. */
    method StartTimer(t: Timer, g: ExpirationTimeEntry, start: bool)
      requires GroupsOk() && t in timers && t !in freeTimers && t !in lost && g !in groups
      requires !t.armed && t.etep == null && g.timer == null && g.expireTime !in etmap
      requires TimersBut(t)
      modifies this`groups, this`lost, this`etmap, t, g`timer
      ensures GroupsOk() && TimersOk() && t.armed == start && t.etep == g && g.timer == t
      ensures groups == old(groups) + {g} && old(t.deadlines) <= t.deadlines
      ensures start ==> lost == old(lost) && etmap == old(etmap)[g.expireTime := g]
      ensures !start ==> lost == old(lost) + {t} && etmap == old(etmap)
    {
      hide Timer.ArmedFor;
      g.timer := t;
      t.etep := g;
      groups := groups + {g};
      if start {
        t.Start(g.expireTime);
        etmap := etmap[g.expireTime := g];
      } else {
        lost := lost + {t};
      }
    }

    lemma GroupsKnown()
      requires GroupsOk()
      ensures forall d | d in etmap :: etmap[d] in groups
    {
    }

    twostate lemma NoneArmed()
      requires forall x <- timers | old(allocated(x)) :: unchanged(x)
      ensures ArmingsKept()
    {
    }

    twostate lemma OneArmed(new t: Timer)
      requires forall x <- timers | old(allocated(x)) && x != t :: unchanged(x)
      requires old(allocated(t)) ==> old(t.deadlines) <= t.deadlines
      ensures ArmingsKept()
    {
    }

    twostate lemma EntriesWithNew(new g: ExpirationTimeEntry)
      requires old(EntriesOk(null)) && live == old(live) && etmap == old(etmap)[g.expireTime := g]
      requires forall d | d in old(etmap) :: d != g.expireTime ==> etmap[d] != g && etmap[d].entries == old(etmap[d].entries)
      requires g.entries == map[] && Waiting(map[], live, g.expireTime, true)
      ensures EntriesOk(g)
    {
      hide Waiting;
    }

    twostate lemma EntriesAsBefore()
      requires old(EntriesOk(null)) && live == old(live) && etmap == old(etmap)
      requires forall d | d in old(etmap) :: etmap[d].entries == old(etmap[d].entries)
      ensures EntriesOk(null)
    {
      hide Waiting;
    }

    /** An empty group for a deadline nobody waits for yet, if its timer can be started. */
    method NewGroup(t: Timer, deadline: nat, start: bool) returns (g: ExpirationTimeEntry?)
      requires GroupsOk() && TimersBut(t) && IdsAgree(etmap, etidmap, live) && EntriesOk(null)
      requires t in timers && t !in freeTimers && t !in lost && !t.armed && t.etep == null && deadline !in etmap
      modifies this`groups, this`lost, this`etmap, t
      ensures GroupsOk() && TimersOk() && IdsAgree(etmap, etidmap, live) && EntriesOk(g)
      ensures old(groups) <= groups && forall x <- groups :: x in old(groups) || fresh(x)
      ensures old(t.deadlines) <= t.deadlines && (g != null <==> start)
      ensures g == null ==> etmap == old(etmap) && lost == old(lost) + {t}
      ensures g != null ==> lost == old(lost) && etmap == old(etmap)[deadline := g]
      ensures g != null ==> fresh(g) && g in groups && g.expireTime == deadline
    {
      hide GroupsOk, TimersBut, Waiting, IdsAgree, EntriesOk, Timer.ArmedFor;
      GroupsKnown();
      g := new ExpirationTimeEntry(deadline);
      IdsAgreeNewGroup(etmap, etidmap, live, deadline, g);
      StartTimer(t, g, start);
      if start {
        EntriesWithNew(g);
      } else {
        EntriesAsBefore();
        g := null;
      }
    }

    /** A started timer and an empty group for a deadline nobody waits for yet;
        `create` and `start` are the outcomes of the operating system calls. */
    method OpenGroup(deadline: nat, create: bool, start: bool) returns (out: Outcome, g: ExpirationTimeEntry?)
      requires ValidBut(null) && deadline !in etmap
      modifies this`freeTimers, this`timers, this`groups, this`lost, this`etmap, timers
      ensures old(groups) <= groups && forall g <- groups :: g in old(groups) || fresh(g)
      ensures old(timers) <= timers && forall t <- timers :: t in old(timers) || fresh(t)
      ensures ValidBut(g)
      ensures g == null ==> etmap == old(etmap)
      ensures g != null ==> fresh(g) && g in groups && g.expireTime == deadline && etmap == old(etmap)[deadline := g]
      ensures out.Assigned? <==> g != null
      ensures out.CreatingTimerFailed? <==> old(freeTimers) == [] && !create
      ensures out.TimerSetTimeFailed? <==> (old(freeTimers) != [] || create) && !start
      ensures lost == old(lost) <==> !out.TimerSetTimeFailed?
      ensures |timers| <= |old(timers)| + (if create then 1 else 0) && ArmingsKept()
    {
      hide GroupsOk, TimersBut, HistoryOk, Waiting, IdsAgree, EntriesOk, ArmingsKept;
      var t := ObtainTimer(create);
      if t == null {
        NoneArmed();
        return CreatingTimerFailed, null;
      }
      g := NewGroup(t, deadline, start);
      OneArmed(t);
      out := if start then Assigned(0) else TimerSetTimeFailed;
    }

    lemma OthersWaitOn(g: ExpirationTimeEntry, id: Id, t: Timing)
      requires GroupsOk() && EntriesOk(g) && id !in live
      requires g.expireTime == t.deadline && g.expireTime in etmap && etmap[g.expireTime] == g
      ensures Waiting(g.entries[id := t.info], live[id := t], t.deadline, false)
      ensures forall d | d in etmap && d != t.deadline ::
                etmap[d] != g && Waiting(etmap[d].entries, live[id := t], d, false)
    {
      hide Waiting;
      WaitingAdd(g.entries, live, id, t);
      forall d | d in etmap && d != t.deadline
        ensures etmap[d] != g && Waiting(etmap[d].entries, live[id := t], d, false)
      {
        WaitingElsewhere(etmap[d].entries, live, d, false, id, t);
      }
    }

    /** Files a timer under its group; when the identifier is still taken, the history
        stops being one of separate timers. */
    method AddEntry(g: ExpirationTimeEntry, id: Id, info: Info)
      requires ValidBut(g) && g.expireTime in etmap && etmap[g.expireTime] == g
      modifies this`etidmap, this`live, this`history, g`entries
      ensures id !in old(live) ==> ValidBut(null)
      ensures id in old(live) ==> !HistoryOk()
      ensures var timing := Timing(g.expireTime, info);
              live == old(live)[id := timing] && history == old(history) + [Registered(id, timing)]
    {
      hide GroupsOk, TimersBut, Waiting, Legal, Replay, IdsAgree;
      var timing := Timing(g.expireTime, info);
      NotLive(etmap, etidmap, live, id);
      IdsAgreeAdd(etmap, etidmap, live, id, timing);
      if id !in etidmap {
        OthersWaitOn(g, id, timing);
        LegalAppend(history, Registered(id, timing));
      } else {
        NotLegalAppend(history, Registered(id, timing));
      }
      g.entries := g.entries[id := info];
      etidmap := etidmap[id := g];
      live := live[id := timing];
      history := history + [Registered(id, timing)];
    }

    lemma OthersWait(g: ExpirationTimeEntry, id: Id)
      requires GroupsOk() && EntriesOk(g) && id in live && live[id].deadline == g.expireTime
      requires g.expireTime in etmap && etmap[g.expireTime] == g
      ensures Waiting(g.entries - {id}, live - {id}, g.expireTime, true)
      ensures forall d | d in etmap && d != g.expireTime ::
                etmap[d] != g && Waiting(etmap[d].entries, live - {id}, d, false)
    {
      hide Waiting;
      WaitingDrop(g.entries, live, g.expireTime, true, id);
      forall d | d in etmap && d != g.expireTime
        ensures etmap[d] != g && Waiting(etmap[d].entries, live - {id}, d, false)
      {
        WaitingDrop(etmap[d].entries, live, d, false, id);
      }
    }

    /** Takes one timer out of its group and out of the identifier map. */
    method DropEntry(g: ExpirationTimeEntry, id: Id, ghost e: Event)
      requires ValidBut(g) && g.expireTime in etmap && etmap[g.expireTime] == g
      requires e.id == id && !e.Registered? && Allowed(live, e) && live[id].deadline == g.expireTime
      modifies this`etidmap, this`live, this`history, g`entries
      ensures ValidBut(g)
      ensures live == old(live) - {id} && history == old(history) + [e] && g.entries == old(g.entries) - {id}
      ensures etidmap == old(etidmap) - {id}
    {
      hide GroupsOk, TimersBut, Waiting, Legal, Replay, IdsAgree, Apply, Allowed;
      ApplyDrops(live, e);
      OthersWait(g, id);
      IdsAgreeDrop(etmap, etidmap, live, id);
      LegalAppend(history, e);
      etidmap := etidmap - {id};
      g.entries := g.entries - {id};
      live := live - {id};
      history := history + [e];
    }

    /** Stops a group's timer, takes the group out and recycles the timer. */
    method StopTimer(g: ExpirationTimeEntry)
      requires GroupsOk() && TimersOk() && g.expireTime in etmap && etmap[g.expireTime] == g
      modifies this`etmap, this`freeTimers, timers
      ensures GroupsOk() && TimersOk()
      ensures etmap == old(etmap) - {g.expireTime} && freeTimers == old(freeTimers) + [g.timer] && ArmingsKept()
    {
      var t := g.timer;
      t.armed := false;
      etmap := etmap - {g.expireTime};
      t.etep := null;
      freeTimers := freeTimers + [t];
    }

    /** Gives up a group that has become empty. */
    method RemoveExpirationTimeEntry(g: ExpirationTimeEntry)
      requires ValidBut(g) && g.expireTime in etmap && etmap[g.expireTime] == g
      modifies this`etmap, this`freeTimers, timers
      ensures ValidBut(null)
      ensures etmap == if g.entries == map[] then old(etmap) - {g.expireTime} else old(etmap)
      ensures freeTimers == if g.entries == map[] then old(freeTimers) + [g.timer] else old(freeTimers)
      ensures ArmingsKept()
    {
      hide GroupsOk, TimersBut, HistoryOk, IdsAgree;
      if g.entries == map[] {
        IdsAgreeNoGroup(etmap, etidmap, live, g.expireTime);
        NoOtherGroup(g);
        hide Waiting;
        StopTimer(g);
      }
    }

    lemma NoOtherGroup(g: ExpirationTimeEntry)
      requires GroupsOk()
      ensures forall d | d in etmap && d != g.expireTime :: etmap[d] != g
    {
    }

    lemma GroupOf(id: Id)
      requires GroupsOk() && EntriesOk(null) && IdsAgree(etmap, etidmap, live) && id in etidmap
      ensures id in live && live[id].deadline in etmap && etidmap[id] == etmap[live[id].deadline]
      ensures etidmap[id] in groups && etidmap[id].expireTime == live[id].deadline
      ensures id in etidmap[id].entries
    {
      var d := live[id].deadline;
      LiveIsEntry(etmap[d].entries, live, d, false, id);
    }

    /** A timer that can fire has a group exactly while it is armed. */
    lemma StoppedOrArmed(t: Timer)
      requires GroupsOk() && TimersOk() && t in timers && t !in lost
      ensures t.armed <==> t.etep != null
      ensures t.armed ==>
                && t.etep in groups
                && t.etep.expireTime in etmap && etmap[t.etep.expireTime] == t.etep
                && t.ArmedFor(t.etep.expireTime)
    {
    }

    /** Registers a timer that expires `ms` milliseconds after `now` (in microseconds).
        The pool stays as it should exactly when no timer is filed under an identifier
        that is still taken. */
    method Register(now: nat, ms: int, info: Info, create: bool, start: bool) returns (out: Outcome)
      requires Valid() && now + ms * 1000 >= 0
      modifies this, groups, timers
      ensures Valid() <==> (out.Assigned? ==> NextId(old(nextId)) !in old(live))
      ensures old(groups) <= groups && forall g <- groups :: g in old(groups) || fresh(g)
      ensures old(timers) <= timers && forall t <- timers :: t in old(timers) || fresh(t)
      ensures resolution == old(resolution) && rounding == old(rounding) && nextId == NextId(old(nextId))
      ensures out.Assigned? <==>
                ExpireTime(now + ms * 1000, resolution, rounding) in old(etmap)
                || ((old(freeTimers) != [] || create) && start)
      ensures out.Assigned? ==>
                var timing := Timing(ExpireTime(now + ms * 1000, resolution, rounding), info);
                && out.id == NextId(old(nextId)) && live == old(live)[out.id := timing]
                && history == old(history) + [Registered(out.id, timing)]
      ensures !out.Assigned? ==> live == old(live) && history == old(history)
      ensures out.Assigned? ==> lost == old(lost)
      ensures |timers| <= |old(timers)| + (if create then 1 else 0) && ArmingsKept()
    {
      hide GroupsOk, TimersBut, HistoryOk, Waiting, IdsAgree, EntriesOk, ExpireTime, NextId;
      nextId := NextId(nextId);
      var deadline := ExpireTime(now + ms * 1000, resolution, rounding);
      var g: ExpirationTimeEntry?;
      if deadline !in etmap {
        out, g := OpenGroup(deadline, create, start);
        if g == null {
          return;
        }
      } else {
        g := etmap[deadline];
        GroupKnown(deadline);
      }
      AddEntry(g, nextId, info);
      out := Assigned(nextId);
    }

    lemma GroupKnown(d: nat)
      requires GroupsOk() && EntriesOk(null) && d in etmap
      ensures etmap[d] in groups && etmap[d].expireTime == d && EntriesOk(etmap[d])
    {
      hide EntriesAt;
    }

    method Unregister(id: Id)
      requires Valid()
      modifies this, groups, timers
      ensures Valid() && groups == old(groups) && timers == old(timers) && lost == old(lost)
      ensures resolution == old(resolution) && rounding == old(rounding) && nextId == old(nextId)
      ensures live == old(live) - {id} && etidmap == old(etidmap) - {id} && ArmingsKept()
      ensures history == if id in old(live) then old(history) + [Unregistered(id)] else old(history)
    {
      hide GroupsOk, TimersBut, HistoryOk, Waiting, IdsAgree, EntriesOk;
      NotLive(etmap, etidmap, live, id);
      if id in etidmap {
        GroupOf(id);
        var g := etidmap[id];
        GroupKnown(g.expireTime);
        DropEntry(g, id, Unregistered(id));
        RemoveExpirationTimeEntry(g);
      }
    }

    /** A timer fires: everything waiting for its deadline is notified.  When the timer was
        stopped before its signal was handled it has no group, and the program would follow
        a null pointer: that is `ok == false`.  The signal was raised by an arming of the
        timer and is handled at `now`, not before that arming's deadline.  Notifications
        are early exactly when the timer has been armed again for a later time than now;
        they are not when the signal belongs to the present arming. */
    method SendNotifications(t: Timer, ghost arming: nat, ghost now: nat) returns (ok: bool)
      requires Valid() && t in timers && t !in lost
      requires arming < |t.deadlines| && t.deadlines[arming] <= now
      modifies this, groups, timers
      ensures ok == old(t.armed)
      ensures !ok ==> live == old(live) && history == old(history) && etmap == old(etmap) && freeTimers == old(freeTimers)
      ensures Valid() && groups == old(groups) && timers == old(timers) && lost == old(lost)
      ensures resolution == old(resolution) && rounding == old(rounding) && nextId == old(nextId)
      ensures ok ==> old(t.etep) != null
      ensures ok ==>
              var d := old(t.etep).expireTime;
              && live == (map id | id in old(live) && old(live)[id].deadline != d :: old(live)[id])
              && |history| >= |old(history)| && history[..|old(history)|] == old(history)
              && forall k | |old(history)| <= k < |history| ::
                   history[k].Notified? && history[k].id in old(live)
                   && history[k].timing == old(live)[history[k].id] && history[k].timing.deadline == d
      ensures ok ==> |old(t.deadlines)| > 0 && |history| > |old(history)|
      ensures ok ==>
              var early := exists i | |old(history)| <= i < |history| :: history[i].timing.deadline > now;
              && (early <==> old(t.deadlines)[|old(t.deadlines)| - 1] > now)
              && (early ==> arming < |old(t.deadlines)| - 1)
    {
      hide GroupsOk, TimersBut, HistoryOk, Waiting, IdsAgree, EntriesOk, Legal, Replay;
      StoppedOrArmed(t);
      if t.etep == null {
        return false;
      }
      ok := true;
      var g := t.etep;
      GroupKnown(g.expireTime);
      GroupWaits(g.expireTime);
      ghost var n := |history|;
      while g.entries != map[]
        invariant ValidBut(g)
        invariant groups == old(groups) && timers == old(timers) && lost == old(lost) && etmap == old(etmap)
        invariant resolution == old(resolution) && rounding == old(rounding) && nextId == old(nextId)
        invariant live.Keys <= old(live).Keys && forall id | id in live :: live[id] == old(live)[id]
        invariant forall id | id in old(live) && old(live)[id].deadline != g.expireTime :: id in live
        invariant |history| >= n && history[..n] == old(history)
        invariant |history| > n || g.entries == old(t.etep.entries)
        invariant forall k | n <= k < |history| ::
                    history[k].Notified? && history[k].id in old(live)
                    && history[k].timing == old(live)[history[k].id] && history[k].timing.deadline == g.expireTime
        decreases g.entries.Keys
      {
        var id :| id in g.entries;
        InGroup(g, id);
        DropEntry(g, id, Notified(id, Timing(g.expireTime, g.entries[id])));
      }
      GroupDone(g);
      RemoveExpirationTimeEntry(g);
      assert history[n].timing.deadline == g.expireTime;
    }

    lemma GroupWaits(d: nat)
      requires EntriesOk(null) && d in etmap
      ensures etmap[d].entries != map[]
    {
    }

    lemma InGroup(g: ExpirationTimeEntry, id: Id)
      requires EntriesOk(g) && g.expireTime in etmap && etmap[g.expireTime] == g && id in g.entries
      ensures id in live && live[id] == Timing(g.expireTime, g.entries[id])
    {
      EntryIsLive(g.entries, live, g.expireTime, true, id);
    }

    lemma GroupDone(g: ExpirationTimeEntry)
      requires EntriesOk(g) && g.expireTime in etmap && etmap[g.expireTime] == g && g.entries == map[]
      ensures forall id | id in live :: live[id].deadline != g.expireTime
    {
      forall id | id in live ensures live[id].deadline != g.expireTime {
        if live[id].deadline == g.expireTime { LiveIsEntry(g.entries, live, g.expireTime, true, id); }
      }
    }

    /** Unregisters everything. */
    method Uninit()
      requires Valid()
      modifies this, groups, timers
      ensures Valid() && live == map[] && etmap == map[] && etidmap == map[]
    {
      hide GroupsOk, TimersBut, HistoryOk, Waiting, IdsAgree, EntriesOk;
      while etidmap != map[]
        invariant Valid() && groups == old(groups) && timers == old(timers)
        decreases etidmap.Keys
      {
        var id :| id in etidmap;
        Unregister(id);
      }
      NothingLeft();
    }

    lemma NothingLeft()
      requires IdsAgree(etmap, etidmap, live) && EntriesOk(null) && etidmap == map[]
      ensures live == map[] && etmap == map[]
    {
      assert live == map[];
      forall d: nat ensures d !in etmap {
        if d in etmap { SomeoneWaits(etmap[d].entries, live, d); }
      }
    }

    /** A live timer is in exactly the group of its deadline, and the identifier map names that group. */
    lemma LiveInOneGroup(id: Id, d: nat)
      requires Valid() && d in etmap
      ensures etmap[d].expireTime == d && etmap[d].entries != map[]
      ensures id in etmap[d].entries <==> id in live && live[id].deadline == d
      ensures id in etmap[d].entries ==>
                id in etidmap && etidmap[id] == etmap[d] && etmap[d].entries[id] == live[id].info
      ensures id in live <==> id in etidmap
    {
      hide HistoryOk, TimersBut;
      assert Waiting(etmap[d].entries, live, d, false);
      NotLive(etmap, etidmap, live, id);
    }

    /** The groups' timers, the free ones and the lost ones are all there are, each once. */
    lemma TimersConserved()
      requires Valid()
      ensures var busy := set d | d in etmap :: etmap[d].timer;
              var free := set i | 0 <= i < |freeTimers| :: freeTimers[i];
              && timers == busy + free + lost && busy !! free && busy !! lost && free !! lost
              && |busy| == |etmap| && |free| == |freeTimers|
              && |timers| == |etmap| + |freeTimers| + |lost|
    {
      hide HistoryOk, Waiting, IdsAgree, EntriesOk;
      var busy := set d | d in etmap :: etmap[d].timer;
      var free := set i | 0 <= i < |freeTimers| :: freeTimers[i];
      forall t | t in timers ensures t in busy || t in free || t in lost {
        if t.armed {
          assert etmap[t.etep.expireTime].timer == t;
        } else if t !in lost {
          assert t in freeTimers;
        }
      }
      assert timers == busy + free + lost;
      BusyCount(etmap.Keys);
      FreeCount(|freeTimers|);
    }

    lemma {:induction false} BusyCount(ds: set<nat>)
      requires GroupsOk() && ds <= etmap.Keys
      ensures |set d | d in ds :: etmap[d].timer| == |ds|
      decreases |ds|
    {
      if ds == {} {
      } else {
        var d :| d in ds;
        BusyCount(ds - {d});
        var rest := set e | e in ds - {d} :: etmap[e].timer;
        assert (set e | e in ds :: etmap[e].timer) == rest + {etmap[d].timer};
        assert etmap[d].timer !in rest;
      }
    }

    lemma {:induction false} FreeCount(n: nat)
      requires TimersOk() && n <= |freeTimers|
      ensures |set i | 0 <= i < n :: freeTimers[i]| == n
      decreases n
    {
      if n == 0 {
      } else {
        FreeCount(n - 1);
        var rest := set i | 0 <= i < n - 1 :: freeTimers[i];
        assert (set i | 0 <= i < n :: freeTimers[i]) == rest + {freeTimers[n - 1]};
      }
    }
  }
  /** The one live timer of a pool is in its group, whose timer is armed for the deadline. */
  lemma OnlyLive(p: Pool, id: Id, t: Timing)
    requires p.Valid() && p.live == map[id := t] && p.lost == {} && |p.timers| <= 1
    ensures t.deadline in p.etmap && p.etmap[t.deadline].timer != null
    ensures p.timers == {p.etmap[t.deadline].timer} && p.etmap[t.deadline].timer.ArmedFor(t.deadline)
    ensures p.freeTimers == []
  {
    hide Timer.ArmedFor, Pool.TimersBut, Pool.HistoryOk, Pool.EntriesOk, IdsAgree;
    NotLive(p.etmap, p.etidmap, p.live, id);
    p.TimersConserved();
    OnlyOne(p.etmap, t.deadline, p.timers, p.etmap[t.deadline].timer);
  }

  lemma OnlyOne<T, U>(m: map<T, U>, k: T, ts: set<Timer?>, t: Timer?)
    requires k in m && |ts| <= 1 && t in ts
    ensures |m| >= 1 && ts == {t}
  {
    assert m.Keys == (m.Keys - {k}) + {k};
    assert ts == (ts - {t}) + {t};
  }

  /** With nothing live and no timer lost every timer is free. */
  lemma NothingLive(p: Pool)
    requires p.Valid() && p.live == map[] && p.lost == {} && p.timers != {}
    ensures p.freeTimers != []
  {
    p.NothingLeft();
    var t :| t in p.timers;
    assert !t.armed;
  }

  /** A timer is unregistered and its operating system timer armed for another. */
  method Recycle(first: Info, second: Info) returns (p: Pool, timer: Timer, ghost arming: nat)
    ensures fresh(p) && p.Valid() && fresh(p.groups) && fresh(p.timers)
    ensures p.history == [Registered(1, Timing(1001, first)), Unregistered(1), Registered(2, Timing(5501, second))]
    ensures p.live == map[2 := Timing(5501, second)] && p.lost == {} && p.timers == {timer} && timer.ArmedFor(5501)
    ensures arming < |timer.deadlines| && timer.deadlines[arming] == 1001
  {
    hide Pool.Valid;
    p := new Pool(1, Up);
    var r := p.Register(0, 1, first, true, true);
    OnlyLive(p, 1, Timing(1001, first));
    timer := p.etmap[1001].timer;
    arming := |timer.deadlines| - 1;
    p.Unregister(1);
    NothingLive(p);
    r := p.Register(500, 5, second, false, true);
    OnlyLive(p, 2, Timing(5501, second));
  }

  /** The signal of the first arming, handled at 2000 after the timer was recycled, makes
      the second timer be notified long before its deadline. */
  method EarlyNotification(first: Info, second: Info) returns (p: Pool)
    ensures fresh(p) && p.Valid()
    ensures [Registered(1, Timing(1001, first)), Unregistered(1), Registered(2, Timing(5501, second)),
             Notified(2, Timing(5501, second))] <= p.history
  {
    hide Pool.Valid;
    var timer;
    ghost var arming;
    p, timer, arming := Recycle(first, second);
    ghost var before := p.history;
    ArmedTimerFires(p, timer);
    var ok := p.SendNotifications(timer, arming, 2000);
    assert p.history[..3] == before && p.history[3] == Notified(2, Timing(5501, second));
  }

  lemma ArmedTimerFires(p: Pool, t: Timer)
    requires p.Valid() && t in p.timers && t !in p.lost && t.armed
    ensures t.etep != null && t.etep in p.groups && t.ArmedFor(t.etep.expireTime)
  {
    p.StoppedOrArmed(t);
  }
  /** The signal of a timer that is unused when it is handled: the program would follow the
      null pointer in place of its group. */
  method SignalOfUnusedTimer(info: Info) returns (p: Pool, ok: bool)
    ensures fresh(p) && p.history == [Registered(1, Timing(1001, info)), Unregistered(1)] && !ok
  {
    hide Pool.Valid;
    p := new Pool(1, Up);
    var r := p.Register(0, 1, info, true, true);
    OnlyLive(p, 1, Timing(1001, info));
    var timer := p.etmap[1001].timer;
    ghost var arming := |timer.deadlines| - 1;
    p.Unregister(1);
    NothingArmed(p);
    ok := p.SendNotifications(timer, arming, 2000);
  }

  lemma NothingArmed(p: Pool)
    requires p.Valid() && p.live == map[]
    ensures forall t <- p.timers :: !t.armed
  {
    p.NothingLeft();
  }
}
