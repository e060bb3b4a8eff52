/** Runs of the DNS cache and its refresher: callers ask, queries come back at any time
    with any outcome, and the refresher and the query loader share a number of permits. */
module DnsCacheRuns {
  import opened DnsCache
  import opened Wrappers

  /** The result of a query as it is stored. */
  datatype Answer = Answer(ttl: int, expires: int, records: seq<Rec>)

  /** A query on its way; `permit` marks those that must give a permit back. */
  datatype Pending = Pending(key: Key, permit: bool, finished: bool)

  /** A thread that took a permit and has not sent its query yet. */
  datatype Hand = Hand(key: Key, bypass: bool)

  /** Thread 0 is the refresher; `work` are the keys it still has to submit. */
  datatype State = State(
    now: int,
    cache: map<Key, Answer>,
    newCount: int,
    saved: int,
    permits: nat,
    hands: map<nat, Hand>,
    pending: map<nat, Pending>,
    work: Option<seq<Key>>)

  datatype Step =
    | Tick(d: nat)
    | Ask(q: nat, key: Key, bypass: bool)
    | StartRefresh(keys: seq<Key>)
    | StartForced(keys: seq<Key>)
    | EndRefresh
    | TakeRefresh
    | TakeLoad(t: nat, key: Key)
    | Send(t: nat, q: nat)
    | Finish(q: nat, key: Key, outcome: Option<Answer>)
    | Callback(q: nat)
    | SaveCount

  function Start(now: int, limit: nat): State {
    State(now, map[], 0, 0, limit, map[], map[], None)
  }

  predicate Hit(s: State, key: Key, bypass: bool) {
    !bypass && key in s.cache && s.now < s.cache[key].expires
  }

  ghost predicate Enabled(s: State, e: Step, percent: int) {
    match e
    case Tick(_) => true
    case Ask(q, _, _) => q !in s.pending
    case StartRefresh(keys) =>
      s.work.None? && forall k :: k in keys <==>
        k in s.cache && s.cache[k].ttl > 0 && Due(s.cache[k].ttl, s.cache[k].expires, percent, s.now)
    case StartForced(keys) => s.work.None? && forall k :: k in keys <==> k in s.cache
    case EndRefresh => s.work == Some([]) && 0 !in s.hands
    case TakeRefresh => s.work.Some? && s.work.value != [] && s.permits > 0 && 0 !in s.hands
    case TakeLoad(t, _) => t > 0 && t !in s.hands && s.permits > 0
    case Send(t, q) => t in s.hands && q !in s.pending
    case Finish(q, key, outcome) =>
      && q in s.pending && !s.pending[q].finished && s.pending[q].key == key
      && (outcome.Some? ==> Times(outcome.value.ttl, outcome.value.expires, outcome.value.records))
    case Callback(q) => q in s.pending && s.pending[q].finished
    case SaveCount => true
  }

  ghost function Next(s: State, e: Step, percent: int): State
    requires Enabled(s, e, percent)
  {
    match e
    case Tick(d) => s.(now := s.now + d)
    case Ask(q, key, bypass) =>
      if Hit(s, key, bypass) then s else s.(pending := s.pending[q := Pending(key, false, false)])
    case StartRefresh(keys) => s.(work := Some(keys))
    case StartForced(keys) => s.(work := Some(keys))
    case EndRefresh => s.(work := None)
    case TakeRefresh =>
      s.(permits := s.permits - 1, hands := s.hands[0 := Hand(s.work.value[0], true)], work := Some(s.work.value[1..]))
    case TakeLoad(t, key) => s.(permits := s.permits - 1, hands := s.hands[t := Hand(key, false)])
    case Send(t, q) =>
      var h := s.hands[t];
      if Hit(s, h.key, h.bypass) then s.(hands := s.hands - {t}, permits := s.permits + 1)
      else s.(hands := s.hands - {t}, pending := s.pending[q := Pending(h.key, true, false)])
    case Finish(q, key, outcome) =>
      var s' := s.(pending := s.pending[q := s.pending[q].(finished := true)]);
      if outcome.None? then s'
      else s'.(cache := s.cache[key := outcome.value], newCount := s.newCount + if key in s.cache then 0 else 1)
    case Callback(q) =>
      s.(pending := s.pending - {q}, permits := s.permits + if s.pending[q].permit then 1 else 0)
    case SaveCount => s.(saved := s.saved + s.newCount, newCount := 0)
  }

  /** Who asks in a step, and for what: a caller, or a thread that holds a permit. */
  function Asked(s: State, e: Step): Option<Hand> {
    match e
    case Ask(_, key, bypass) => Some(Hand(key, bypass))
    case Send(t, _) => if t in s.hands then Some(s.hands[t]) else None
    case _ => None
  }

  /** The result handed to whoever asks in a step, when it comes from the cache. */
  function Served(s: State, e: Step): Option<Answer> {
    var a := Asked(s, e);
    if a.Some? && Hit(s, a.value.key, a.value.bypass) then Some(s.cache[a.value.key]) else None
  }

  // ----- queries -----

  /** A refresh asks the server, whatever the cache holds: the next key goes out under a
      permit, although its result may be stored and not have expired. */
  lemma RefreshAsksServer(s: State, q: nat, percent: int)
    requires Enabled(s, TakeRefresh, percent) && q !in s.pending
    ensures var s1 := Next(s, TakeRefresh, percent);
            && Enabled(s1, Send(0, q), percent)
            && var s2 := Next(s1, Send(0, q), percent);
               && s2.pending == s.pending[q := Pending(s.work.value[0], true, false)]
               && s2.permits == s.permits - 1 && s2.hands == s.hands
               && s2.work == Some(s.work.value[1..]) && s2.cache == s.cache
  {
  }

  /** The query loader asks the server exactly when the cache has nothing to give, and
      has its permit back otherwise. */
  lemma LoadAsksServerIff(s: State, t: nat, key: Key, q: nat, percent: int)
    requires Enabled(s, TakeLoad(t, key), percent) && q !in s.pending
    ensures var s1 := Next(s, TakeLoad(t, key), percent);
            && Enabled(s1, Send(t, q), percent)
            && var s2 := Next(s1, Send(t, q), percent);
               if key in s.cache && s.now < s.cache[key].expires then s2 == s
               else s2 == s.(pending := s.pending[q := Pending(key, true, false)], permits := s.permits - 1)
  {
    assert s.hands[t := Hand(key, false)] - {t} == s.hands;
  }

  /** A caller that is not served has a query sent for just what was asked, and no permit
      is taken. */
  lemma MissAsksServer(s: State, q: nat, key: Key, bypass: bool, percent: int)
    requires Enabled(s, Ask(q, key, bypass), percent)
    ensures Next(s, Ask(q, key, bypass), percent) ==
              if Served(s, Ask(q, key, bypass)).Some? then s
              else s.(pending := s.pending[q := Pending(key, false, false)])
  {
  }

  /** After a save nothing is left to be saved, and all that is stored has been counted. */
  lemma SaveCountsAll(s: State, percent: int)
    requires CacheCounted(s)
    ensures var s' := Next(s, SaveCount, percent); s'.newCount == 0 && s'.saved == |s.cache| && s'.cache == s.cache
  {
  }

  /** A result that is served stops being served once its time has passed, and only time
      makes it so. */
  lemma ExpiresWithTime(s: State, q: nat, key: Key, d: nat, percent: int)
    requires q !in s.pending && key in s.cache
    ensures var later := Next(s, Tick(d), percent);
            && later == s.(now := s.now + d)
            && (Served(later, Ask(q, key, false)).Some? <==> s.now + d < s.cache[key].expires)
  {
  }

  /** A query on its way stays as it was asked until it is finished, once, and is then
      called back, once. */
  lemma QueryStep(s: State, e: Step, percent: int, q: nat)
    requires Enabled(s, e, percent) && q in s.pending
    ensures var s' := Next(s, e, percent);
            && (e.Callback? && e.q == q ==> s.pending[q].finished && q !in s'.pending)
            && (e.Finish? && e.q == q ==>
                  !s.pending[q].finished && s'.pending == s.pending[q := s.pending[q].(finished := true)])
            && (!(e.Callback? && e.q == q) && !(e.Finish? && e.q == q) ==>
                  q in s'.pending && s'.pending[q] == s.pending[q])
  {
    hide Hit, Due, Times;
  }

  // ----- permits -----

  function Owing(pending: map<nat, Pending>): set<nat> {
    set q | q in pending && pending[q].permit
  }

  function Outstanding(s: State): set<nat> {
    Owing(s.pending)
  }

  lemma OwingPut(pending: map<nat, Pending>, q: nat, x: Pending)
    ensures |Owing(pending[q := x])| == |Owing(pending) - {q}| + if x.permit then 1 else 0
  {
    assert Owing(pending[q := x]) == if x.permit then Owing(pending) - {q} + {q} else Owing(pending) - {q};
  }

  lemma OwingDrop(pending: map<nat, Pending>, q: nat)
    ensures Owing(pending - {q}) == Owing(pending) - {q}
    ensures q in Owing(pending) <==> q in pending && pending[q].permit
    ensures |Owing(pending) - {q}| == |Owing(pending)| - if q in Owing(pending) then 1 else 0
  {
    if q !in Owing(pending) { assert Owing(pending) - {q} == Owing(pending); }
  }

  ghost predicate PermitsAdd(s: State, limit: nat) {
    s.permits + |s.hands| + |Outstanding(s)| == limit
  }

  ghost predicate CacheCounted(s: State) {
    && s.newCount + s.saved == |s.cache|
    && forall k | k in s.cache :: Times(s.cache[k].ttl, s.cache[k].expires, s.cache[k].records)
  }

  ghost predicate Balanced(s: State, limit: nat) {
    PermitsAdd(s, limit) && CacheCounted(s)
  }

  lemma StepPermits(s: State, e: Step, percent: int, limit: nat)
    requires PermitsAdd(s, limit) && Enabled(s, e, percent)
    ensures PermitsAdd(Next(s, e, percent), limit)
  {
    hide Times, Due, Owing;
    match e
    case Ask(q, key, bypass) => AskPermits(s, q, key, bypass, percent, limit);
    case Finish(q, key, outcome) => FinishPermits(s, q, key, outcome, percent, limit);
    case Callback(q) => OwingDrop(s.pending, q);
    case Send(t, q) => SendPermits(s, t, q, percent, limit);
    case _ =>
  }

  lemma AskPermits(s: State, q: nat, key: Key, bypass: bool, percent: int, limit: nat)
    requires PermitsAdd(s, limit) && Enabled(s, Ask(q, key, bypass), percent)
    ensures PermitsAdd(Next(s, Ask(q, key, bypass), percent), limit)
  {
    hide Owing, Hit;
    OwingPut(s.pending, q, Pending(key, false, false));
    OwingDrop(s.pending, q);
  }

  lemma FinishPermits(s: State, q: nat, key: Key, outcome: Option<Answer>, percent: int, limit: nat)
    requires PermitsAdd(s, limit) && Enabled(s, Finish(q, key, outcome), percent)
    ensures PermitsAdd(Next(s, Finish(q, key, outcome), percent), limit)
  {
    hide Owing, Times;
    OwingPut(s.pending, q, s.pending[q].(finished := true));
    OwingDrop(s.pending, q);
  }

  lemma SendPermits(s: State, t: nat, q: nat, percent: int, limit: nat)
    requires PermitsAdd(s, limit) && Enabled(s, Send(t, q), percent)
    ensures PermitsAdd(Next(s, Send(t, q), percent), limit)
  {
    hide Owing, Hit;
    OwingPut(s.pending, q, Pending(s.hands[t].key, true, false));
    OwingDrop(s.pending, q);
    assert s.hands == (s.hands - {t})[t := s.hands[t]];
  }

  lemma StepCounted(s: State, e: Step, percent: int)
    requires CacheCounted(s) && Enabled(s, e, percent)
    ensures CacheCounted(Next(s, e, percent))
  {
    hide Next, Enabled, Times;
    if e.Finish? {
      FinishCounted(s, e.q, e.key, e.outcome, percent);
    } else {
      OnlyFinishStores(s, e, percent);
    }
  }

  lemma OnlyFinishStores(s: State, e: Step, percent: int)
    requires Enabled(s, e, percent) && !e.Finish?
    ensures var s' := Next(s, e, percent);
            s'.cache == s.cache && s'.newCount + s'.saved == s.newCount + s.saved
  {
    hide Hit, Due;
  }

  lemma FinishCounted(s: State, q: nat, key: Key, outcome: Option<Answer>, percent: int)
    requires CacheCounted(s) && Enabled(s, Finish(q, key, outcome), percent)
    ensures CacheCounted(Next(s, Finish(q, key, outcome), percent))
  {
    hide Times;
  }

  lemma StepBalanced(s: State, e: Step, percent: int, limit: nat)
    requires Balanced(s, limit) && Enabled(s, e, percent)
    ensures Balanced(Next(s, e, percent), limit)
  {
    hide PermitsAdd, CacheCounted;
    StepPermits(s, e, percent, limit);
    StepCounted(s, e, percent);
  }

  // ----- runs -----

  ghost predicate IsRun(now: int, limit: nat, percent: int, steps: seq<Step>, states: seq<State>) {
    && |states| == |steps| + 1 && states[0] == Start(now, limit)
    && forall i {:trigger steps[i]} | 0 <= i < |steps| ::
         Enabled(states[i], steps[i], percent) && states[i + 1] == Next(states[i], steps[i], percent)
  }

  /** The result last stored for a key. */
  function LastStored(steps: seq<Step>, key: Key): Option<Answer> {
    if steps == [] then None
    else
      var e := steps[|steps| - 1];
      if e.Finish? && e.key == key && e.outcome.Some? then e.outcome else LastStored(steps[..|steps| - 1], key)
  }

  /** Permits and outstanding refresh queries add up to the limit, every new result is
      counted once, and the cache holds exactly what was last stored. */
  lemma {:induction false} RunBalanced(now: int, limit: nat, percent: int, steps: seq<Step>, states: seq<State>, i: nat)
    requires IsRun(now, limit, percent, steps, states) && i <= |steps|
    ensures Balanced(states[i], limit)
    ensures forall k :: k in states[i].cache <==> LastStored(steps[..i], k).Some?
    ensures forall k | k in states[i].cache :: LastStored(steps[..i], k) == Some(states[i].cache[k])
  {
    hide Balanced;
    if i == 0 {
      StartBalanced(now, limit);
    } else {
      RunBalanced(now, limit, percent, steps, states, i - 1);
      var s, e := states[i - 1], steps[i - 1];
      assert Enabled(s, e, percent);
      StepBalanced(s, e, percent, limit);
      assert steps[..i][..i - 1] == steps[..i - 1];
      StepStores(s, e, percent);
    }
  }

  lemma StartBalanced(now: int, limit: nat)
    ensures Balanced(Start(now, limit), limit)
  {
    assert Outstanding(Start(now, limit)) == {};
  }

  lemma StepStores(s: State, e: Step, percent: int)
    requires Enabled(s, e, percent)
    ensures Next(s, e, percent).cache ==
              if e.Finish? && e.outcome.Some? then s.cache[e.key := e.outcome.value] else s.cache
  {
  }

  /** Whoever is not told to pass the cache over gets the result last stored for that type
      and domain, exactly as long as none of its non-zero-TTL records has expired. */
  lemma HitIsLastStored(now: int, limit: nat, percent: int, steps: seq<Step>, states: seq<State>, i: nat)
    requires IsRun(now, limit, percent, steps, states) && i < |steps| && Asked(states[i], steps[i]).Some?
    ensures var asked := Asked(states[i], steps[i]).value;
            var stored := LastStored(steps[..i], asked.key);
            Served(states[i], steps[i]) ==
              if !asked.bypass && stored.Some? && states[i].now < stored.value.expires then stored else None
    ensures Served(states[i], steps[i]).Some? ==>
              forall r <- Served(states[i], steps[i]).value.records :: TtlOf(r) != 0 ==> states[i].now < r.expires
  {
    RunBalanced(now, limit, percent, steps, states, i);
  }

  /** A result is served until its earliest expiry: the hit fails as soon as a record
      with a non-zero time to live has run out, and not before. */
  lemma ServedUntilFirstExpiry(now: int, limit: nat, percent: int, steps: seq<Step>, states: seq<State>, i: nat)
    requires IsRun(now, limit, percent, steps, states) && i < |steps|
    requires Asked(states[i], steps[i]).Some? && !Asked(states[i], steps[i]).value.bypass
    requires LastStored(steps[..i], Asked(states[i], steps[i]).value.key).Some? && states[i].now < LONG_MAX
    ensures var stored := LastStored(steps[..i], Asked(states[i], steps[i]).value.key).value;
            Served(states[i], steps[i]).Some? <==>
              forall r <- stored.records :: TtlOf(r) != 0 ==> states[i].now < r.expires
  {
    RunBalanced(now, limit, percent, steps, states, i);
  }

  /** Refresh queries never exceed the limit, and with none outstanding all permits are back. */
  lemma PermitsConserved(now: int, limit: nat, percent: int, steps: seq<Step>, states: seq<State>, i: nat)
    requires IsRun(now, limit, percent, steps, states) && i <= |steps|
    ensures var s := states[i];
            && s.permits + |s.hands| + |Outstanding(s)| == limit
            && |Outstanding(s)| <= limit
            && (s.hands == map[] && Outstanding(s) == {} ==> s.permits == limit)
            && s.newCount + s.saved == |s.cache|
  {
    RunBalanced(now, limit, percent, steps, states, i);
  }
  // ----- refreshing -----

  predicate Starts(e: Step) {
    e.StartRefresh? || e.StartForced?
  }

  function KeysOf(e: Step): seq<Key>
    requires Starts(e)
  {
    e.keys
  }

  /** The keys the refresher took a permit for at positions lo..hi, to be asked past the cache. */
  ghost function Taken(steps: seq<Step>, states: seq<State>, lo: nat, hi: nat): seq<Hand>
    requires lo <= hi <= |steps| && |states| == |steps| + 1
  {
    if lo == hi then []
    else
      Taken(steps, states, lo, hi - 1)
      + if steps[hi - 1].TakeRefresh? && 0 in states[hi].hands then [states[hi].hands[0]] else []
  }

  function PastCache(keys: seq<Key>): seq<Hand> {
    seq(|keys|, i requires 0 <= i < |keys| => Hand(keys[i], true))
  }

  /** What a step does to the work of the refresher. */
  lemma WorkStep(s: State, e: Step, percent: int)
    requires Enabled(s, e, percent)
    ensures var s' := Next(s, e, percent);
            && (Starts(e) ==> s.work.None? && s'.work == Some(KeysOf(e)))
            && (e.EndRefresh? ==> s.work == Some([]) && s'.work.None?)
            && (e.TakeRefresh? ==>
                  && s.work.Some? && s.work.value != [] && s'.work == Some(s.work.value[1..])
                  && 0 in s'.hands && s'.hands[0] == Hand(s.work.value[0], true))
            && (!Starts(e) && !e.EndRefresh? && !e.TakeRefresh? ==> s'.work == s.work)
  {
    hide Hit, Due, Times;
  }

  /** While a refresh goes on, the keys taken followed by those left are its keys. */
  lemma {:induction false} TakenAndLeft(now: int, limit: nat, percent: int, steps: seq<Step>, states: seq<State>, i: nat, j: nat)
    requires IsRun(now, limit, percent, steps, states) && i < j <= |steps| && Starts(steps[i])
    requires forall k | i < k < j :: !steps[k].EndRefresh?
    ensures states[j].work.Some?
    ensures Taken(steps, states, i + 1, j) + PastCache(states[j].work.value) == PastCache(KeysOf(steps[i]))
    decreases j
  {
    hide Enabled, Next, Starts;
    var s, e := states[j - 1], steps[j - 1];
    assert Enabled(s, e, percent);
    WorkStep(s, e, percent);
    if j - 1 == i {
    } else {
      TakenAndLeft(now, limit, percent, steps, states, i, j - 1);
      if e.TakeRefresh? {
        assert PastCache(s.work.value) == [Hand(s.work.value[0], true)] + PastCache(s.work.value[1..]);
      }
    }
  }

  /** A refresh that has ended has taken each of its keys, once and in order, to be asked
      past the cache: on the timer these are the results that were due, on demand all. */
  lemma RefreshSubmitsAll(now: int, limit: nat, percent: int, steps: seq<Step>, states: seq<State>, i: nat, j: nat)
    requires IsRun(now, limit, percent, steps, states) && i < j < |steps|
    requires Starts(steps[i]) && steps[j].EndRefresh? && forall k | i < k < j :: !steps[k].EndRefresh?
    ensures Taken(steps, states, i + 1, j) == PastCache(KeysOf(steps[i])) && states[j + 1].work.None?
    ensures forall k :: k in KeysOf(steps[i]) <==>
              && k in states[i].cache
              && (steps[i].StartForced?
                  || (states[i].cache[k].ttl > 0
                      && Due(states[i].cache[k].ttl, states[i].cache[k].expires, percent, states[i].now)))
  {
    hide Next, Due, Times;
    assert Enabled(states[i], steps[i], percent) && Enabled(states[j], steps[j], percent);
    TakenAndLeft(now, limit, percent, steps, states, i, j);
    WorkStep(states[j], steps[j], percent);
    assert PastCache([]) == [];
  }
}
