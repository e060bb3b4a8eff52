/** The cache, its queries on the way and its refresher as the objects the threads update
    in place, proved to follow the step machine of DnsCacheRuns: what each of them does
    to the cache, the permits and the queries is the corresponding step. */
module DnsCacheNode {
  import opened DnsCache
  import opened DnsCacheRuns
  import opened Wrappers

  /** What c-ares brings back for a query: the records parsed, section by section, and
      whether the parser gave up on the message. */
  datatype Reply = Reply(query: nat, answers: seq<Rec>, authority: seq<Rec>, additional: seq<Rec>, err: bool)

  predicate Parsed(m: Reply) {
    forall r <- m.answers + m.authority + m.additional :: ValidRec(r)
  }

  function Recorded(q: Query): Answer
    reads q
  {
    Answer(q.ttl, q.expires, q.Records())
  }

  method Parse(q: Query, m: Reply)
    requires q.Valid() && q.Records() == [] && Parsed(m)
    modifies q
    ensures q.Valid() && q.Records() == m.answers + m.authority + m.additional && q.err == m.err
  {
    hide Times, ValidRec;
    q.err := m.err;
    assert q.answers == [] && q.authority == [] && q.additional == [] by {
      assert |q.answers + q.authority + q.additional| == 0;
    }
    for i := 0 to |m.answers|
      invariant q.Valid() && q.answers == m.answers[..i] && q.authority == [] && q.additional == [] && q.err == m.err
    {
      assert m.answers[i] in m.answers + m.authority + m.additional;
      q.AddAnswer(m.answers[i]);
    }
    for i := 0 to |m.authority|
      invariant q.Valid() && q.answers == m.answers && q.authority == m.authority[..i] && q.additional == [] && q.err == m.err
    {
      assert m.authority[i] in m.answers + m.authority + m.additional;
      q.AddAuthority(m.authority[i]);
    }
    for i := 0 to |m.additional|
      invariant q.Valid() && q.answers == m.answers && q.authority == m.authority && q.additional == m.additional[..i] && q.err == m.err
    {
      assert m.additional[i] in m.answers + m.authority + m.additional;
      q.AddAdditional(m.additional[i]);
    }
  }

  // ----- paths of the machine -----

  ghost predicate IsPath(steps: seq<Step>, states: seq<State>, percent: int) {
    && |states| == |steps| + 1
    && forall i {:trigger steps[i]} | 0 <= i < |steps| ::
         Enabled(states[i], steps[i], percent) && states[i + 1] == Next(states[i], steps[i], percent)
  }

  /** Along every path, from wherever it starts, permits and outstanding queries add up. */
  lemma {:induction false} PathBalanced(steps: seq<Step>, states: seq<State>, percent: int, limit: nat, i: nat)
    requires IsPath(steps, states, percent) && i <= |steps| && Balanced(states[0], limit)
    ensures Balanced(states[i], limit) && |Outstanding(states[i])| <= limit
  {
    hide Enabled, Next, CacheCounted;
    if i == 0 {
    } else {
      PathBalanced(steps, states, percent, limit, i - 1);
      assert Enabled(states[i - 1], steps[i - 1], percent);
      StepBalanced(states[i - 1], steps[i - 1], percent, limit);
    }
  }

  /** What the other threads do while the refresher waits. */
  predicate FromOutside(e: Step) {
    e.Finish? || e.Callback?
  }

  /** The steps of the refresher itself. */
  function Own(steps: seq<Step>): (r: seq<Step>) {
    if steps == [] then []
    else
      var e := steps[|steps| - 1];
      Own(steps[..|steps| - 1]) + if FromOutside(e) then [] else [e]
  }

  /** A permit taken and a query sent, once for each of the given queries. */
  function Submissions(ids: seq<nat>): (r: seq<Step>) {
    if ids == [] then [] else Submissions(ids[..|ids| - 1]) + [TakeRefresh, Send(0, ids[|ids| - 1])]
  }

  /** Each of the first `n` queries was sent under a permit for the key in its place, past
      the cache, and was on its way afterwards. */
  ghost predicate Sent(steps: seq<Step>, states: seq<State>, ids: seq<nat>, keys: seq<Key>, n: nat) {
    && |states| == |steps| + 1 && n <= |ids| && n <= |keys|
    && forall i | 0 <= i < n :: WasSent(steps, states, ids[i], keys[i])
  }

  ghost predicate WasSent(steps: seq<Step>, states: seq<State>, id: nat, key: Key)
    requires |states| == |steps| + 1
  {
    exists j | 0 <= j < |steps| :: SentAt(steps[j], states[j + 1], id, key)
  }

  predicate SentAt(e: Step, after: State, id: nat, key: Key) {
    && e == Send(0, id)
    && id in after.pending && after.pending[id] == Pending(key, true, false)
  }

  lemma SentKept(steps: seq<Step>, states: seq<State>, more: seq<Step>, others: seq<State>,
                 ids: seq<nat>, keys: seq<Key>, n: nat)
    requires Sent(steps, states, ids, keys, n) && steps <= more && states <= others && |others| == |more| + 1
    ensures Sent(more, others, ids, keys, n)
  {
    hide SentAt;
    forall i | 0 <= i < n ensures WasSent(more, others, ids[i], keys[i]) {
      assert WasSent(steps, states, ids[i], keys[i]);
      var j :| 0 <= j < |steps| && SentAt(steps[j], states[j + 1], ids[i], keys[i]);
      assert SentAt(more[j], others[j + 1], ids[i], keys[i]);
    }
  }

  lemma NoneSent(states: seq<State>, ids: seq<nat>, keys: seq<Key>)
    requires |states| == 1
    ensures Sent([], states, ids, keys, 0)
  {
  }

  /** The query in place `n` was the last step. */
  lemma SentMore(steps: seq<Step>, states: seq<State>, ids: seq<nat>, keys: seq<Key>, n: nat)
    requires Sent(steps, states, ids, keys, n) && n < |ids| && n < |keys| && steps != []
    requires SentAt(steps[|steps| - 1], states[|steps|], ids[n], keys[n])
    ensures Sent(steps, states, ids, keys, n + 1)
  {
    hide SentAt;
  }

  lemma PathGrows(steps: seq<Step>, states: seq<State>, e: Step, percent: int)
    requires IsPath(steps, states, percent) && Enabled(states[|steps|], e, percent)
    ensures IsPath(steps + [e], states + [Next(states[|steps|], e, percent)], percent)
  {
    hide Enabled, Next;
    var next := Next(states[|steps|], e, percent);
    var (es, ss) := (steps + [e], states + [next]);
    forall i {:trigger es[i]} | 0 <= i < |es| ensures Enabled(ss[i], es[i], percent) && ss[i + 1] == Next(ss[i], es[i], percent) {
      assert ss[i] == states[i];
      if i < |steps| {
        assert es[i] == steps[i] && ss[i + 1] == states[i + 1];
      }
    }
  }

  lemma OwnGrows(steps: seq<Step>, e: Step)
    ensures Own(steps + [e]) == Own(steps) + if FromOutside(e) then [] else [e]
  {
    hide FromOutside;
    assert (steps + [e])[..|steps|] == steps;
  }

  lemma OneMore(ids: seq<nat>, i: nat)
    requires i < |ids|
    ensures Submissions(ids[..i + 1]) == Submissions(ids[..i]) + [TakeRefresh, Send(0, ids[i])]
  {
    assert ids[..i + 1][..i] == ids[..i];
  }

  class Resolver {
    const server: Cache
    const percent: int
    var now: int
    var saved: int
    var permits: nat
    var hands: map<nat, Hand>
    var pending: map<nat, Pending>
    var queries: map<nat, Query>
    var work: Option<seq<Key>>   // set while the refresher is submitting

    constructor (now: int, limit: nat, percent: int)
      ensures Valid() && View() == Start(now, limit) && this.percent == percent && fresh(server)
    {
      server := new Cache();
      this.now, this.percent, saved, permits := now, percent, 0, limit;
      hands, pending, queries, work := map[], map[], map[], None;
    }

    /** The results in the cache, each as it was recorded. */
    ghost function Stored(): map<Key, Answer>
      reads server`cache, server.cache.Values
    {
      map k | k in server.cache :: Recorded(server.cache[k])
    }

    ghost function View(): State
      reads this, server, server.cache.Values
    {
      State(now, Stored(), server.newQueryCount, saved, permits, hands, pending, work)
    }

    /** An open query is empty and is nobody else's. */
    ghost predicate Open(id: nat)
      requires id in queries
      reads this`queries, server`cache, server.cache.Values, queries.Values
    {
      && queries[id].Records() == []
      && queries[id] !in server.cache.Values
      && forall j <- queries | queries[j] == queries[id] :: j == id
    }

    ghost predicate Kept(id: nat)
      requires id in queries && id in pending
      reads this`queries, this`pending, server`cache, server.cache.Values, queries.Values
    {
      && queries[id].Valid()
      && Key(queries[id].rtype, queries[id].domain) == pending[id].key
      && (!pending[id].finished ==> Open(id))
    }

    ghost predicate Tracked()
      reads this`queries, this`pending, server`cache, server.cache.Values, queries.Values
    {
      pending.Keys == queries.Keys && forall id <- queries :: Kept(id)
    }

    ghost predicate Valid()
      reads this`queries, this`pending, server`cache, server.cache.Values, queries.Values
    {
      server.Valid() && Tracked()
    }

    /** A caller asks: the stored result is handed out, or a query is sent. */
    method Ask(id: nat, key: Key, bypass: bool) returns (q: Query)
      requires Valid() && id !in pending
      modifies this`pending, this`queries
      ensures Valid()
      ensures Enabled(old(View()), Step.Ask(id, key, bypass), percent)
      ensures View() == Next(old(View()), Step.Ask(id, key, bypass), percent)
      ensures Served(old(View()), Step.Ask(id, key, bypass)) ==
                if old(Hit(View(), key, bypass)) then Some(Recorded(q)) else None
    {
      hide Tracked, Cache.Valid, Stored, Times, Due;
      var hit;
      q, hit := Begin(id, key, bypass, false);
    }

    /** Looks a result up and, when there is none to hand out, sends a query for it. */
    method Begin(id: nat, key: Key, bypass: bool, permit: bool) returns (q: Query, hit: bool)
      requires Valid() && id !in pending
      modifies this`pending, this`queries
      ensures Valid()
      ensures hit == old(Hit(View(), key, bypass))
      ensures hit ==> key in old(Stored()) && Recorded(q) == old(Stored())[key]
      ensures pending == if hit then old(pending) else old(pending)[id := Pending(key, permit, false)]
      ensures fresh(queries.Values - old(queries.Values))
    {
      hide Query.Records, Query.Valid, Cache.Valid;
      q, hit := server.Ask(key.rtype, key.domain, bypass, now);
      if !hit {
        queries := queries[id := q];
        pending := pending[id := Pending(key, permit, false)];
      }
    }

    /** A thread that loads saved queries takes a permit. */
    method TakeLoad(t: nat, key: Key)
      requires Valid() && t > 0 && t !in hands && permits > 0
      modifies this`permits, this`hands
      ensures Valid()
      ensures Enabled(old(View()), Step.TakeLoad(t, key), percent)
      ensures View() == Next(old(View()), Step.TakeLoad(t, key), percent)
    {
      hide Tracked, Cache.Valid, Stored, Times, Due;
      permits := permits - 1;
      hands := hands[t := Hand(key, false)];
    }

    /** The refresher takes a permit for its next key. */
    method TakeRefresh()
      requires Valid() && work.Some? && work.value != [] && permits > 0 && 0 !in hands
      modifies this`permits, this`hands, this`work
      ensures Valid()
      ensures Enabled(old(View()), Step.TakeRefresh, percent)
      ensures View() == Next(old(View()), Step.TakeRefresh, percent)
      ensures hands.Keys == old(hands).Keys + {0} && work == Some(old(work).value[1..])
    {
      hide Tracked, Cache.Valid, Stored, Times, Due;
      permits := permits - 1;
      hands := hands[0 := Hand(work.value[0], true)];
      work := Some(work.value[1..]);
    }

    /** The query of a thread that holds a permit; when the result is in the cache the
        callback is made at once and returns the permit. */
    method Send(t: nat, id: nat)
      requires Valid() && t in hands && id !in pending
      modifies this`pending, this`queries, this`hands, this`permits
      ensures Valid()
      ensures Enabled(old(View()), Step.Send(t, id), percent)
      ensures View() == Next(old(View()), Step.Send(t, id), percent)
      ensures hands == old(hands) - {t} && pending.Keys <= old(pending).Keys + {id}
      ensures fresh(queries.Values - old(queries.Values))
    {
      hide Tracked, Cache.Valid, Stored, Times, Due;
      var h := hands[t];
      var _, hit := Begin(id, h.key, h.bypass, true);
      hands := hands - {t};
      if hit {
        permits := permits + 1;
      }
    }

    /** The outcome of a query as the machine sees it. */
    ghost function Outcome(q: Query): Option<Answer>
      reads q
    {
      if q.err then None else Some(Recorded(q))
    }

    /** A message came back: its records are parsed into the query, which is then stored
        unless the parser gave up. */
    method Finish(m: Reply) returns (ghost outcome: Option<Answer>)
      requires Valid() && m.query in pending && !pending[m.query].finished && Parsed(m)
      modifies this`pending, server, queries[m.query]
      ensures Valid()
      ensures Enabled(old(View()), Step.Finish(m.query, old(pending)[m.query].key, outcome), percent)
      ensures View() == Next(old(View()), Step.Finish(m.query, old(pending)[m.query].key, outcome), percent)
      ensures queries == old(queries) && pending.Keys == old(pending).Keys && pending[m.query].finished
      ensures m.err ==> outcome.None?
      ensures !m.err ==> outcome.Some? && outcome.value.records == m.answers + m.authority + m.additional
    {
      hide Cache.Valid, Kept, Stored, Query.Valid, Recorded, Query.Records, Parsed;
      var q := queries[m.query];
      OpenOnes(m.query);
      Parse(q, m);
      outcome := Outcome(q);
      Recordings(q);
      CacheKept(q);
      if !q.err {
        server.UpdateCache(q);
      }
      pending := pending[m.query := pending[m.query].(finished := true)];
      ResultStored(q);
      OthersKept(m.query);
    }

    /** An open query is new to the cache. */
    lemma OpenOnes(id: nat)
      requires Tracked() && id in queries && !pending[id].finished
      ensures queries[id] !in server.cache.Values && queries[id].Records() == [] && queries[id].Valid()
      ensures Key(queries[id].rtype, queries[id].domain) == pending[id].key
      ensures forall j <- queries | queries[j] == queries[id] :: j == id
    {
    }

    lemma Recordings(q: Query)
      requires q.Valid()
      ensures Recorded(q).records == q.Records()
      ensures Times(Recorded(q).ttl, Recorded(q).expires, Recorded(q).records)
    {
    }

    /** What is parsed into a query that is not in the cache does not touch the cache. */
    twostate lemma CacheKept(q: Query)
      requires old(server.Valid()) && q !in server.cache.Values && server.cache == old(server.cache)
      requires forall k <- server.cache :: unchanged(server.cache[k])
      ensures server.Valid()
    {
    }

    twostate lemma ResultStored(q: Query)
      requires q !in old(server.cache.Values)
      requires forall k <- old(server.cache) :: unchanged(old(server.cache)[k])
      ensures old(Stored()).Keys == old(server.cache.Keys)
      ensures server.cache == old(server.cache) ==> Stored() == old(Stored())
      ensures server.cache == old(server.cache)[Key(q.rtype, q.domain) := q] ==>
                Stored() == old(Stored())[Key(q.rtype, q.domain) := Recorded(q)]
    {
    }

    /** The other queries are as they were. */
    twostate lemma OthersKept(id: nat)
      requires old(Tracked()) && id in queries && id in old(pending) && !old(pending[id].finished) && queries == old(queries)
      requires pending == old(pending)[id := old(pending[id]).(finished := true)]
      requires forall j <- queries | j != id :: unchanged(queries[j])
      requires queries[id].Valid() && server.cache.Values <= old(server.cache.Values) + {queries[id]}
      ensures Tracked()
    {
      hide Times, Query.Valid, Query.Records;
      forall j <- queries ensures Kept(j) {
        if j != id { assert old(Kept(j)); }
      }
    }

    /** The callback of a finished query returns its permit if it had one. */
    method Callback(id: nat)
      requires Valid() && id in pending && pending[id].finished
      modifies this`pending, this`queries, this`permits
      ensures Valid()
      ensures Enabled(old(View()), Step.Callback(id), percent)
      ensures View() == Next(old(View()), Step.Callback(id), percent)
      ensures pending == old(pending) - {id} && queries == old(queries) - {id}
    {
      hide Cache.Valid, Stored, Due, Query.Valid, Query.Records;
      if pending[id].permit {
        permits := permits + 1;
      }
      pending := pending - {id};
      queries := queries - {id};
    }

    // ----- the refresher -----

    /** On the timer: the results due for refresh become the work, unless there is some. */
    method StartRefresh() returns (started: bool)
      requires Valid()
      modifies this`work
      ensures Valid() && started == old(work.None?)
      ensures !started ==> work == old(work)
      ensures started ==>
                && work.Some?
                && Enabled(old(View()), Step.StartRefresh(work.value), percent)
                && View() == Next(old(View()), Step.StartRefresh(work.value), percent)
    {
      hide Tracked, Cache.Valid, Cache.Stale, Due, Times;
      if work.Some? {
        return false;
      }
      var keys := server.IdentifyExpired(percent, now);
      StaleIsDue(keys);
      work := Some(keys);
      started := true;
    }

    lemma StaleIsDue(keys: seq<Key>)
      requires Valid() && work.None? && forall k :: k in keys <==> server.Stale(k, percent, now)
      ensures Enabled(View(), Step.StartRefresh(keys), percent)
    {
      hide Tracked, Due, Times;
    }

    /** On demand: everything in the cache becomes the work. */
    method ForceRefresh() returns (started: bool)
      requires Valid()
      modifies this`work
      ensures Valid() && started == old(work.None?)
      ensures !started ==> work == old(work)
      ensures started ==>
                && work.Some?
                && Enabled(old(View()), Step.StartForced(work.value), percent)
                && View() == Next(old(View()), Step.StartForced(work.value), percent)
    {
      hide Tracked, Cache.Valid, Due, Times;
      if work.Some? {
        return false;
      }
      var keys := server.GetCacheKeys();
      work := Some(keys);
      started := true;
    }

    method EndRefresh()
      requires Valid() && work == Some([]) && 0 !in hands
      modifies this`work
      ensures Valid()
      ensures Enabled(old(View()), Step.EndRefresh, percent)
      ensures View() == Next(old(View()), Step.EndRefresh, percent)
      ensures work.None?
    {
      hide Tracked, Cache.Valid, Stored, Due, Times;
      work := None;
    }

    /** A path and one that goes on from it. */
    ghost predicate Longer(steps: seq<Step>, states: seq<State>, steps': seq<Step>, states': seq<State>) {
      steps <= steps' && states <= states' && |states| == |steps| + 1 && |states'| == |steps'| + 1
    }

    ghost predicate AtEnd(steps: seq<Step>, states: seq<State>)
      reads this, server, server.cache.Values
    {
      IsPath(steps, states, percent) && states[|steps|] == View()
    }

    /** The thread of c-ares hands a message to its query and makes the callback. */
    method AresCallback(m: Reply, ghost steps: seq<Step>, ghost states: seq<State>)
      returns (ghost steps': seq<Step>, ghost states': seq<State>)
      requires Valid() && Parsed(m) && AtEnd(steps, states) && states != []
      modifies this`pending, this`queries, this`permits, server, queries.Values
      ensures Valid() && AtEnd(steps', states') && states' != [] && states'[0] == states[0] && Own(steps') == Own(steps)
      ensures Longer(steps, states, steps', states')
      ensures pending.Keys == old(pending).Keys - {m.query} && queries.Values <= old(queries).Values
    {
      hide Valid, View, IsPath, Enabled, Next, Own;
      SameIds();
      PathLength(steps, states);
      steps', states' := steps, states;
      if m.query in pending {
        if !pending[m.query].finished {
          var key := pending[m.query].key;
          ghost var outcome := Finish(m);
          steps', states' := Extended(steps', states', Step.Finish(m.query, key, outcome));
        }
        Callback(m.query);
        steps', states' := Extended(steps', states', Step.Callback(m.query));
      }
    }

    /** After a permit was taken and a query sent, the query is on its way. */
    lemma SentByRefresh(s: State, id: nat, key: Key)
      requires Enabled(s, Step.TakeRefresh, percent) && id !in s.pending && s.work.value[0] == key
      requires Enabled(Next(s, Step.TakeRefresh, percent), Step.Send(0, id), percent)
      requires View() == Next(Next(s, Step.TakeRefresh, percent), Step.Send(0, id), percent)
      ensures SentAt(Step.Send(0, id), View(), id, key)
    {
      hide Next, Enabled;
      RefreshAsksServer(s, id, percent);
    }

    /** One pass of the submitting loop with a permit at hand. */
    method SubmitQuery(id: nat, ghost steps: seq<Step>, ghost states: seq<State>)
      returns (ghost steps': seq<Step>, ghost states': seq<State>)
      requires Valid() && work.Some? && work.value != [] && permits > 0 && 0 !in hands && id !in pending
      requires AtEnd(steps, states) && states != []
      modifies this`permits, this`hands, this`work, this`pending, this`queries
      ensures Valid() && AtEnd(steps', states') && states' != [] && states'[0] == states[0]
      ensures Own(steps') == Own(steps) + [Step.TakeRefresh, Step.Send(0, id)]
      ensures Longer(steps, states, steps', states') && steps' != []
      ensures SentAt(steps'[|steps'| - 1], states'[|steps'|], id, old(work).value[0])
      ensures work == Some(old(work).value[1..]) && 0 !in hands && pending.Keys <= old(pending).Keys + {id}
      ensures fresh(queries.Values - old(queries.Values))
    {
      hide Valid, View, IsPath, Enabled, Next, Own;
      ghost var s := View();
      ViewFields();
      TakeRefresh();
      steps', states' := Extended(steps, states, Step.TakeRefresh);
      Send(0, id);
      steps', states' := Extended(steps', states', Step.Send(0, id));
      SentByRefresh(s, id, old(work).value[0]);
    }

    /** Submits the work key by key.  When no permit is left the refresher waits; the
        messages that come back meanwhile are `replies`, and once they are used up it
        waits on.  All of it is a path of the machine whose steps other than the arrivals
        are one permit and one query for each key, in order. */
    method SubmitQueries(ids: seq<nat>, replies: seq<Reply>)
      returns (done: bool, sent: nat, ghost steps: seq<Step>, ghost states: seq<State>)
      requires Valid() && work.Some? && |ids| == |work.value| && 0 !in hands
      requires forall i, j | 0 <= i < j < |ids| :: ids[i] != ids[j]
      requires forall id <- ids :: id !in pending
      requires forall m <- replies :: Parsed(m)
      modifies this, server, queries.Values
      ensures Valid() && AtEnd(steps, states) && states != [] && states[0] == old(View())
      ensures sent <= |ids| && Own(steps) == Submissions(ids[..sent]) + if done then [Step.EndRefresh] else []
      ensures Sent(steps, states, ids, old(work).value, sent)
      ensures if done then sent == |ids| && work == None
              else permits == 0 && work == Some(old(work).value[sent..]) && sent < |ids|
    {
      hide Valid, View, IsPath, Enabled, Next, Own, Submissions, Parsed, Sent, SentAt;
      sent := 0;
      steps, states := [], [View()];
      var left := replies;
      NoSteps();
      NoneSent(states, ids, work.value);
      while work.value != []
        invariant Valid() && AtEnd(steps, states) && states != [] && states[0] == old(View())
        invariant sent <= |ids| && work == Some(old(work).value[sent..]) && 0 !in hands
        invariant Own(steps) == Submissions(ids[..sent]) && Sent(steps, states, ids, old(work).value, sent)
        invariant forall i | sent <= i < |ids| :: ids[i] !in pending
        invariant fresh(queries.Values - old(queries.Values))
        invariant forall m <- left :: Parsed(m)
        decreases |ids| - sent, |left|
      {
        if permits == 0 {
          if left == [] {
            return false, sent, steps, states;
          }
          ghost var earlier, reached := steps, states;
          steps, states := AresCallback(left[0], steps, states);
          SentKept(earlier, reached, steps, states, ids, old(work).value, sent);
          left := left[1..];
        } else {
          ghost var earlier, reached := steps, states;
          steps, states := SubmitQuery(ids[sent], steps, states);
          SentKept(earlier, reached, steps, states, ids, old(work).value, sent);
          SentMore(steps, states, ids, old(work).value, sent);
          OneMore(ids, sent);
          sent := sent + 1;
        }
      }
      EndRefresh();
      ghost var earlier, reached := steps, states;
      steps, states := Extended(steps, states, Step.EndRefresh);
      SentKept(earlier, reached, steps, states, ids, old(work).value, sent);
      done := true;
    }

    lemma ViewFields()
      ensures View().pending == pending && View().work == work
    {
    }

    lemma PathLength(steps: seq<Step>, states: seq<State>)
      requires IsPath(steps, states, percent)
      ensures |states| == |steps| + 1
    {
    }

    lemma SameIds()
      requires Valid()
      ensures queries.Keys == pending.Keys
    {
      hide Kept, Cache.Valid;
    }

    lemma NoSteps()
      ensures AtEnd([], [View()]) && Own([]) == Submissions([]) == []
    {
    }

    /** One more step of the path, just taken. */
    ghost method Extended(steps: seq<Step>, states: seq<State>, e: Step)
      returns (steps': seq<Step>, states': seq<State>)
      requires IsPath(steps, states, percent) && Enabled(states[|steps|], e, percent)
      requires View() == Next(states[|steps|], e, percent)
      ensures AtEnd(steps', states') && states' != [] && states'[0] == states[0]
      ensures Own(steps') == Own(steps) + if FromOutside(e) then [] else [e]
      ensures steps' == steps + [e] && Longer(steps, states, steps', states') && states'[|steps'|] == View()
    {
      hide View, Enabled, Next, Own;
      PathGrows(steps, states, e, percent);
      OwnGrows(steps, e);
      steps', states' := steps + [e], states + [View()];
    }

    /** The clock goes on. */
    method Tick(d: nat)
      requires Valid()
      modifies this`now
      ensures Valid()
      ensures View() == Next(old(View()), Step.Tick(d), percent)
    {
      hide Tracked, Cache.Valid, Stored, Due, Times;
      now := now + d;
    }

    /** The new results are counted as saved. */
    method SaveCount() returns (count: int)
      requires Valid()
      modifies this`saved, server`newQueryCount
      ensures Valid()
      ensures Enabled(old(View()), Step.SaveCount, percent)
      ensures View() == Next(old(View()), Step.SaveCount, percent) && count == old(View()).newCount
    {
      hide Tracked, Cache.Valid, Stored, Times, Due;
      count := server.newQueryCount;
      server.newQueryCount := 0;
      saved := saved + count;
    }
  }
}
