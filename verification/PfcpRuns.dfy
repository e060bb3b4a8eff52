/** Theorems about whole runs of the PFCP step machine: every interleaving of
    datagrams (lost, duplicated, reordered), application requests and responses,
    timer expiries, decode errors and clock ticks. */
module PfcpRuns {
  import opened PfcpModel
  import opened Wrappers

  datatype Rec = Rec(pre: State, ev: Event, post: State, outs: set<Output>)

  type Run = seq<Rec>

  /** A record is legal if its event was enabled and its effect is that of the step machine. */
  ghost predicate Legal(x: Rec) {
    Inv(x.pre) ==> Enabled(x.pre, x.ev) && (x.post, x.outs) == Step(x.pre, x.ev)
  }

  ghost predicate IsRun(naw: nat, r: Run) {
    && naw >= 1
    && (forall i {:trigger StateAt(naw, r, i)} | 0 <= i < |r| :: r[i].pre == StateAt(naw, r, i))
    && (forall i {:trigger Legal(r[i])} | 0 <= i < |r| :: Legal(r[i]))
  }

  ghost function StateAt(naw: nat, r: Run, n: nat): State
    requires n <= |r|
  {
    if n == 0 then Init(naw) else r[n - 1].post
  }

  /** Safety of the whole machine: the invariant holds in every state of every run. */
  lemma {:induction false} RunInv(naw: nat, r: Run, n: nat)
    requires IsRun(naw, r) && n <= |r|
    ensures Inv(StateAt(naw, r, n)) && StateAt(naw, r, n).naw == naw
  {
    if n == 0 {
    } else {
      RunInv(naw, r, n - 1);
      assert Legal(r[n - 1]);
      StepInv(r[n - 1].pre, r[n - 1].ev);
    }
  }

  lemma TogglesBack(s: State)
    requires Inv(s)
    ensures s.crw in {RW_ONE, RW_TWO} && Toggle(s.crw) != s.crw && Toggle(Toggle(s.crw)) == s.crw
  {
  }

  /** A record whose step really is one: what `IsRun` gives for each position. */
  ghost predicate Good(x: Rec) {
    Inv(x.pre) && Enabled(x.pre, x.ev) && (x.post, x.outs) == Step(x.pre, x.ev)
  }

  lemma GoodAt(naw: nat, r: Run, i: nat)
    requires IsRun(naw, r) && i < |r|
    ensures Good(r[i]) && r[i].pre == StateAt(naw, r, i) && r[i].post == StateAt(naw, r, i + 1)
  {
    RunInv(naw, r, i);
    assert Legal(r[i]);
  }

  // ---------------------------------------------------------------------------
  // Incoming requests: duplicate suppression
  // ---------------------------------------------------------------------------

  /** Response window of a received request, if the remote node still tracks it. */
  function RcvdWnd(s: State, a: Addr, sn: SeqNbr): Option<int> {
    if a in s.peers && sn in s.peers[a].rcvd then Some(s.peers[a].rcvd[sn]) else None
  }

  ghost predicate Removed(x: Rec, a: Addr, sn: SeqNbr) {
    RcvdWnd(x.pre, a, sn).Some? && RcvdWnd(x.post, a, sn).None?
  }

  /** A datagram's arrival leaves everything but its remote node's state and counters alone. */
  lemma TouchEffect(s: State, b: Addr, admit: bool)
    requires Inv(s)
    ensures var (r, outs) := Touch(s, b, admit);
            && outs <= {StateChange(b, Started)}
            && (r.None? ==> outs == {} && b !in s.peers && !admit)
            && (r.Some? ==>
                  && b in r.value.peers
                  && r.value == s.(peers := s.peers[b := r.value.peers[b]])
                  && r.value.peers[b].rcvd == (if b in s.peers then s.peers[b].rcvd else map[])
                  && (b !in s.peers ==> admit))
  {
  }

  /** How the memory of one received request changes in a step. */
  ghost predicate RcvdChange(x: Rec, a: Addr, sn: SeqNbr) {
    var before, after := RcvdWnd(x.pre, a, sn), RcvdWnd(x.post, a, sn);
    && (Deliver(a, sn) in x.outs <==> before.None? && after.Some?)
    && (WriteRsp(a, sn) in x.outs <==> x.ev == SndRsp(a, sn) && before.Some?)
    && (before.None? ==> after in {None, Some(NO_RSP)})
    && (before.Some? ==>
          after == (if x.ev == ReqDecodeError(a, sn) then None
                    else if x.ev == RspTick && before.value == Toggle(x.pre.crw) then None
                    else if x.ev == SndRsp(a, sn) then Some(x.pre.crw)
                    else before))
    && x.post.crw == (if x.ev == RspTick then Toggle(x.pre.crw) else x.pre.crw)
  }

  lemma RcvdStepDatagram(x: Rec, a: Addr, sn: SeqNbr)
    requires Good(x) && (x.ev.RcvReq? || x.ev.RcvRsp?)
    ensures RcvdChange(x, a, sn)
  {
    hide Touch;
    TouchEffect(x.pre, x.ev.peer, x.ev.admit);
  }

  lemma RcvdStepTick(x: Rec, a: Addr, sn: SeqNbr)
    requires Good(x) && (x.ev.RspTick? || x.ev.ActivityTick?)
    ensures RcvdChange(x, a, sn)
  {
  }

  lemma RcvdStepRequest(x: Rec, a: Addr, sn: SeqNbr)
    requires Good(x) && (x.ev.SndReq? || x.ev.T1Expiry?)
    ensures RcvdChange(x, a, sn)
  {
  }

  lemma RcvdStep(x: Rec, a: Addr, sn: SeqNbr)
    requires Good(x)
    ensures RcvdChange(x, a, sn)
  {
    match x.ev {
      case RcvReq(b, m, admit, session) => RcvdStepDatagram(x, a, sn);
      case RcvRsp(b, m, admit) => RcvdStepDatagram(x, a, sn);
      case SndReq(m, ro) => RcvdStepRequest(x, a, sn);
      case T1Expiry(m) => RcvdStepRequest(x, a, sn);
      case RspTick => RcvdStepTick(x, a, sn);
      case ActivityTick => RcvdStepTick(x, a, sn);
      case _ =>
    }
  }

  /** Between two hand-offs of the same (remote, sequence number) request its
      entry is removed, by a decode error or by a response-window tick. */
  lemma {:induction false} DuplicateSuppressed(naw: nat, r: Run, i: nat, j: nat, a: Addr, sn: SeqNbr)
    requires IsRun(naw, r) && i < j < |r|
    requires Deliver(a, sn) in r[i].outs && Deliver(a, sn) in r[j].outs
    ensures exists k | i < k < j ::
              Removed(r[k], a, sn) && (r[k].ev == ReqDecodeError(a, sn) || r[k].ev == RspTick)
  {
    hide Good, IsRun, Inv, Step;
    GoodAt(naw, r, i);
    RcvdStep(r[i], a, sn);
    GoodAt(naw, r, j);
    RcvdStep(r[j], a, sn);
    RemovalBetween(naw, r, i + 1, j, a, sn);
  }

  lemma {:induction false} RemovalBetween(naw: nat, r: Run, i: nat, j: nat, a: Addr, sn: SeqNbr)
    requires IsRun(naw, r) && i <= j <= |r|
    requires RcvdWnd(StateAt(naw, r, i), a, sn).Some? && RcvdWnd(StateAt(naw, r, j), a, sn).None?
    ensures exists k | i <= k < j ::
              Removed(r[k], a, sn) && (r[k].ev == ReqDecodeError(a, sn) || r[k].ev == RspTick)
    decreases j - i
  {
    hide Good, IsRun, Inv, Step;
    GoodAt(naw, r, i);
    RcvdStep(r[i], a, sn);
    if RcvdWnd(StateAt(naw, r, i + 1), a, sn).Some? {
      RemovalBetween(naw, r, i + 1, j, a, sn);
    } else {
      assert Removed(r[i], a, sn);
    }
  }

  /** Number of response-window ticks at positions lo..hi. */
  ghost function RspTicks(r: Run, lo: nat, hi: nat): nat
    requires lo <= hi <= |r|
  {
    if lo == hi then 0 else RspTicks(r, lo, hi - 1) + (if r[hi - 1].ev == RspTick then 1 else 0)
  }

  ghost predicate NoEvent(r: Run, lo: nat, hi: nat, e: Event) {
    forall k | lo <= k < hi && k < |r| :: r[k].ev != e
  }

  /** After a reply was written the entry stays at least until the second
      response-window tick, unless the request is withdrawn by a decode error. */
  lemma {:induction false} ReplyIsRemembered(naw: nat, r: Run, p: nat, q: nat, a: Addr, sn: SeqNbr)
    requires IsRun(naw, r) && p < q <= |r|
    requires r[p].ev == SndRsp(a, sn) && WriteRsp(a, sn) in r[p].outs
    requires NoEvent(r, p + 1, q, ReqDecodeError(a, sn))
    requires RspTicks(r, p + 1, q) <= 1
    ensures var s := StateAt(naw, r, q);
            RcvdWnd(s, a, sn).Some? && RcvdWnd(s, a, sn).value in {RW_ONE, RW_TWO}
            && (RspTicks(r, p + 1, q) == 0 ==> RcvdWnd(s, a, sn).value == s.crw)
    decreases q
  {
    GoodAt(naw, r, q - 1);
    RcvdStep(r[q - 1], a, sn);
    if q - 1 == p {
    } else {
      ReplyIsRemembered(naw, r, p, q - 1, a, sn);
    }
  }

  /** A retransmission that arrives before the second tick after the reply is not
      delivered again. */
  lemma RetransmissionNotRedelivered(naw: nat, r: Run, p: nat, q: nat, a: Addr, sn: SeqNbr)
    requires IsRun(naw, r) && p < q < |r|
    requires r[p].ev == SndRsp(a, sn) && WriteRsp(a, sn) in r[p].outs
    requires NoEvent(r, p + 1, q, ReqDecodeError(a, sn))
    requires RspTicks(r, p + 1, q) <= 1
    ensures Deliver(a, sn) !in r[q].outs
  {
    ReplyIsRemembered(naw, r, p, q, a, sn);
    GoodAt(naw, r, q);
    RcvdStep(r[q], a, sn);
  }

  /** Without a second reply, the second tick after the reply removes the entry. */
  lemma {:induction false} ReplyIsForgotten(naw: nat, r: Run, p: nat, q: nat, a: Addr, sn: SeqNbr)
    requires IsRun(naw, r) && p < q <= |r|
    requires r[p].ev == SndRsp(a, sn) && WriteRsp(a, sn) in r[p].outs
    requires NoEvent(r, p + 1, q, SndRsp(a, sn))
    requires forall k | p < k < q :: Deliver(a, sn) !in r[k].outs
    ensures var w := RcvdWnd(StateAt(naw, r, q), a, sn);
            var s := StateAt(naw, r, q);
            && (RspTicks(r, p + 1, q) == 0 ==> w in {None, Some(s.crw)})
            && (RspTicks(r, p + 1, q) == 1 ==> w in {None, Some(Toggle(s.crw))})
            && (RspTicks(r, p + 1, q) >= 2 ==> w == None)
    decreases q
  {
    hide Good, IsRun, Inv, Step;
    GoodAt(naw, r, q - 1);
    RcvdStep(r[q - 1], a, sn);
    RunInv(naw, r, q);
    TogglesBack(StateAt(naw, r, q));
    RunInv(naw, r, q - 1);
    TogglesBack(StateAt(naw, r, q - 1));
    if q - 1 == p {
    } else {
      ReplyIsForgotten(naw, r, p, q - 1, a, sn);
    }
  }

  /** Both directions: after one reply and no decode error, a request datagram
      whose session is found is delivered again exactly when two or more ticks
      have passed. */
  lemma RedeliveredIffTwoTicks(naw: nat, r: Run, p: nat, q: nat, a: Addr, sn: SeqNbr, admit: bool)
    requires IsRun(naw, r) && p < q < |r|
    requires r[p].ev == SndRsp(a, sn) && WriteRsp(a, sn) in r[p].outs
    requires NoEvent(r, p + 1, q, SndRsp(a, sn)) && NoEvent(r, p + 1, q, ReqDecodeError(a, sn))
    requires forall k | p < k < q :: Deliver(a, sn) !in r[k].outs
    requires r[q].ev == RcvReq(a, sn, admit, true)
    ensures Deliver(a, sn) in r[q].outs <==> RspTicks(r, p + 1, q) >= 2
  {
    if RspTicks(r, p + 1, q) <= 1 {
      RetransmissionNotRedelivered(naw, r, p, q, a, sn);
    } else {
      ReplyIsForgotten(naw, r, p, q, a, sn);
      GoodAt(naw, r, p);
      PeersStay(naw, r, p, q, a);
      GoodAt(naw, r, q);
    }
  }

  lemma PeerStep(x: Rec, a: Addr)
    requires Good(x) && a in x.pre.peers
    ensures a in x.post.peers
  {
    match x.ev {
      case RcvReq(b, m, admit, session) =>
      case RcvRsp(b, m, admit) =>
      case _ =>
    }
  }

  lemma {:induction false} PeersStay(naw: nat, r: Run, i: nat, j: nat, a: Addr)
    requires IsRun(naw, r) && i <= j <= |r| && a in StateAt(naw, r, i).peers
    ensures a in StateAt(naw, r, j).peers
    decreases j
  {
    if i == j {
    } else {
      PeersStay(naw, r, i, j - 1, a);
      GoodAt(naw, r, j - 1);
      PeerStep(r[j - 1], a);
    }
  }

  /** A delivered request that nobody has answered is never purged, however many
      ticks pass, so its retransmissions are not delivered. */
  lemma {:induction false} UnansweredNeverPurged(naw: nat, r: Run, i: nat, q: nat, a: Addr, sn: SeqNbr)
    requires IsRun(naw, r) && i < q <= |r|
    requires Deliver(a, sn) in r[i].outs
    requires NoEvent(r, i + 1, q, SndRsp(a, sn)) && NoEvent(r, i + 1, q, ReqDecodeError(a, sn))
    ensures RcvdWnd(StateAt(naw, r, q), a, sn) == Some(NO_RSP)
    ensures q < |r| ==> Deliver(a, sn) !in r[q].outs
    decreases q
  {
    GoodAt(naw, r, q - 1);
    RcvdStep(r[q - 1], a, sn);
    if q - 1 == i {
    } else {
      UnansweredNeverPurged(naw, r, i, q - 1, a, sn);
    }
    if q < |r| {
      GoodAt(naw, r, q);
      RcvdStep(r[q], a, sn);
    }
  }

  // ---------------------------------------------------------------------------
  // Outgoing requests: ageing
  // ---------------------------------------------------------------------------

  function OutEntry(s: State, sn: SeqNbr): Option<ReqOut> {
    if sn in s.out then Some(s.out[sn]) else None
  }

  /** A step that accepts a response carrying the sequence number. */
  ghost predicate AcceptsRsp(x: Rec, sn: SeqNbr) {
    exists a, g :: HandRsp(a, sn, g) in x.outs
  }

  /** How one step changes an outstanding request that has been answered. */
  lemma AnsweredStep(x: Rec, sn: SeqNbr)
    requires Good(x)
    ensures AcceptsRsp(x, sn) ==> x.ev.RcvRsp? && sn in x.post.out && x.post.out[sn].rw == x.pre.crw
                                  && !x.post.out[sn].app && !x.post.out[sn].armed
    ensures sn in x.pre.out && x.pre.out[sn].rw != NO_RSP && !AcceptsRsp(x, sn) ==>
              OutEntry(x.post, sn) ==
                (if x.ev == RspTick && x.pre.out[sn].rw == Toggle(x.pre.crw) then None
                 else if x.ev == RspDecodeError(sn) then Some(x.pre.out[sn].(rw := NO_RSP))
                 else Some(x.pre.out[sn]))
    ensures x.post.crw == if x.ev == RspTick then Toggle(x.pre.crw) else x.pre.crw
  {
    match x.ev {
      case RcvRsp(b, m, admit) => hide Step; RcvRspOut(x, 0);
      case SndReq(m, ro) => hide Step; SubmitOther(x, ro.req + 1);
      case T1Expiry(m) => hide Step; ExpiryOut(x, 0);
      case RspTick =>
      case RspDecodeError(m) =>
      case _ => hide Step; OutFrame(x, 0);
    }
  }

  /** An answered request keeps its sequence number reserved through the first
      response-window tick and is gone after the second. */
  lemma {:induction false} AnsweredRequestAges(naw: nat, r: Run, p: nat, q: nat, sn: SeqNbr)
    requires IsRun(naw, r) && p < q <= |r|
    requires AcceptsRsp(r[p], sn)
    requires forall k | p < k < q :: !AcceptsRsp(r[k], sn) && r[k].ev != RspDecodeError(sn)
    requires RspTicks(r, p + 1, q) <= 1
             || (r[q - 1].ev == RspTick && RspTicks(r, p + 1, q) == 2)
    ensures var s := StateAt(naw, r, q);
            sn in s.out <==> RspTicks(r, p + 1, q) <= 1
    ensures var s := StateAt(naw, r, q);
            sn in s.out ==>
              && s.out[sn].rw == (if RspTicks(r, p + 1, q) == 0 then s.crw else Toggle(s.crw))
              && !s.out[sn].app && !s.out[sn].armed
    decreases q
  {
    GoodAt(naw, r, q - 1);
    AnsweredStep(r[q - 1], sn);
    RunInv(naw, r, q - 1);
    if q - 1 == p {
    } else {
      AnsweredRequestAges(naw, r, p, q - 1, sn);
    }
  }

  /** The submission found its sequence number in use. */
  predicate Collides(x: Rec) {
    x.ev.SndReq? && x.ev.sn in x.pre.out
  }

  /** What a step other than the acceptance of a response does to a request that
      still waits for one: only its own T1 expiry changes it. */
  lemma WaitingStep(x: Rec, sn: SeqNbr)
    requires Good(x) && sn in x.pre.out && x.pre.out[sn].rw == NO_RSP && !AcceptsRsp(x, sn)
    ensures var ro := x.pre.out[sn];
            OutEntry(x.post, sn) ==
              if x.ev != T1Expiry(sn) then Some(ro)
              else if ro.n1 >= 1 then Some(ro.(n1 := ro.n1 - 1, armed := true))
              else None
  {
    match x.ev {
      case RcvRsp(b, m, admit) => hide Step; RcvRspOut(x, 0);
      case SndReq(m, ro) => hide Step; SubmitOther(x, ro.req + 1);
      case T1Expiry(m) => hide Step; ExpiryOut(x, 0);
      case RspTick =>
      case RspDecodeError(m) =>
      case _ => hide Step; OutFrame(x, 0);
    }
  }

  /** Number of T1 expiries of a sequence number at positions lo..hi. */
  ghost function Expiries(r: Run, lo: nat, hi: nat, sn: SeqNbr): nat
    requires lo <= hi <= |r|
  {
    if lo == hi then 0 else Expiries(r, lo, hi - 1, sn) + (if r[hi - 1].ev == T1Expiry(sn) then 1 else 0)
  }

  /** From its submission until a response is accepted, a request stays under its number
      with one attempt less for each expiry, whatever ticks pass and whatever else is
      received or submitted; it goes with its N1-th expiry and not before. */
  lemma {:induction false} UnansweredStaysUntilLastExpiry(naw: nat, r: Run, i: nat, q: nat)
    requires IsRun(naw, r) && i < q <= |r| && r[i].ev.SndReq? && !Collides(r[i]) && r[i].ev.ro.n1 >= 1
    requires forall k | i < k < q :: !AcceptsRsp(r[k], r[i].ev.sn)
    requires var expiries := Expiries(r, i + 1, q, r[i].ev.sn);
             expiries < r[i].ev.ro.n1 || (expiries == r[i].ev.ro.n1 && r[q - 1].ev == T1Expiry(r[i].ev.sn))
    ensures var ro, expiries := r[i].ev.ro, Expiries(r, i + 1, q, r[i].ev.sn);
            OutEntry(StateAt(naw, r, q), r[i].ev.sn) ==
              if expiries == ro.n1 then None else Some(ro.(n1 := ro.n1 - 1 - expiries, armed := true))
    decreases q
  {
    hide Step, Inv;
    GoodAt(naw, r, q - 1);
    if q - 1 == i {
      SubmittedEntry(r[i]);
    } else {
      UnansweredStaysUntilLastExpiry(naw, r, i, q - 1);
      GoodAt(naw, r, i);
      WaitingStep(r[q - 1], r[i].ev.sn);
    }
  }

  lemma SubmittedEntry(x: Rec)
    requires Good(x) && x.ev.SndReq? && !Collides(x)
    ensures x.ev.ro.n1 >= 1 ==> OutEntry(x.post, x.ev.sn) == Some(x.ev.ro.(n1 := x.ev.ro.n1 - 1, armed := true))
    ensures x.ev.ro.n1 < 1 ==> OutEntry(x.post, x.ev.sn) == Some(x.ev.ro.(app := false))
    ensures x.ev.ro.rw == NO_RSP && !x.ev.ro.armed
  {
  }

  /** A request submitted with no attempts is given up at once, but its entry stays until
      a response with its number is accepted. */
  lemma {:induction false} NoAttemptsPins(naw: nat, r: Run, i: nat, q: nat)
    requires IsRun(naw, r) && i < q <= |r| && r[i].ev.SndReq? && !Collides(r[i]) && r[i].ev.ro.n1 < 1
    requires forall k | i < k < q :: !AcceptsRsp(r[k], r[i].ev.sn)
    ensures Pinned(StateAt(naw, r, q), r[i].ev.sn)
    decreases q
  {
    hide Step, Inv;
    GoodAt(naw, r, q - 1);
    if q - 1 == i {
      SubmittedEntry(r[i]);
    } else {
      NoAttemptsPins(naw, r, i, q - 1);
      PinnedStep(r[q - 1], r[i].ev.sn);
    }
  }

  /** An entry that is neither waiting for a response nor in a response window. */
  predicate Pinned(s: State, sn: SeqNbr) {
    sn in s.out && s.out[sn].rw == NO_RSP && !s.out[sn].armed
  }

  /** A response that cannot be decoded takes its request out of the response
      window although T1 has been stopped: from then on neither ticks nor expiries
      remove the entry, until another response with that number is accepted. */
  lemma {:induction false} UndecodableResponsePins(naw: nat, r: Run, p: nat, q: nat, sn: SeqNbr)
    requires IsRun(naw, r) && p < q <= |r|
    requires r[p].ev == RspDecodeError(sn) && sn in r[p].pre.out && r[p].pre.out[sn].rw != NO_RSP
    requires forall k | p < k < q :: !AcceptsRsp(r[k], sn)
    ensures Pinned(StateAt(naw, r, q), sn)
    decreases q
  {
    GoodAt(naw, r, q - 1);
    if q - 1 == p {
      AnsweredStep(r[p], sn);
      assert r[p].ev == RspDecodeError(sn) ==> !AcceptsRsp(r[p], sn);
    } else {
      UndecodableResponsePins(naw, r, p, q - 1, sn);
      PinnedStep(r[q - 1], sn);
    }
  }

  lemma {:induction false} FirstEvent(r: Run, lo: nat, hi: nat, e: Event) returns (k: nat)
    requires lo <= hi <= |r| && !NoEvent(r, lo, hi, e)
    ensures lo <= k < hi && r[k].ev == e && NoEvent(r, lo, k, e)
    decreases hi
  {
    if NoEvent(r, lo, hi - 1, e) {
      k := hi - 1;
    } else {
      k := FirstEvent(r, lo, hi - 1, e);
    }
  }

  lemma {:induction false} RspTicksGrow(r: Run, lo: nat, mid: nat, hi: nat)
    requires lo <= mid <= hi <= |r|
    ensures RspTicks(r, lo, mid) <= RspTicks(r, lo, hi)
    decreases hi
  {
    if mid == hi {
    } else {
      RspTicksGrow(r, lo, mid, hi - 1);
    }
  }

  /** Both directions: an answered request is gone at the second tick after its response
      exactly when no response with its number failed to decode in between. */
  lemma GoneAtSecondTickIff(naw: nat, r: Run, p: nat, q: nat, sn: SeqNbr)
    requires IsRun(naw, r) && p < q <= |r| && AcceptsRsp(r[p], sn)
    requires forall k | p < k < q :: !AcceptsRsp(r[k], sn)
    requires r[q - 1].ev == RspTick && RspTicks(r, p + 1, q) == 2
    ensures sn !in StateAt(naw, r, q).out <==> NoEvent(r, p + 1, q, RspDecodeError(sn))
  {
    hide AcceptsRsp, IsRun;
    if NoEvent(r, p + 1, q, RspDecodeError(sn)) {
      AnsweredRequestAges(naw, r, p, q, sn);
    } else {
      var k := FirstEvent(r, p + 1, q, RspDecodeError(sn));
      RspTicksGrow(r, p + 1, k, q - 1);
      AnsweredRequestAges(naw, r, p, k, sn);
      GoodAt(naw, r, k);
      RunInv(naw, r, k);
      UndecodableResponsePins(naw, r, k, q, sn);
    }
  }

  lemma PinnedStep(x: Rec, sn: SeqNbr)
    requires Good(x) && Pinned(x.pre, sn) && !AcceptsRsp(x, sn)
    ensures Pinned(x.post, sn)
  {
    match x.ev {
      case RcvRsp(b, m, admit) => hide Step; RcvRspOut(x, 0);
      case SndReq(m, ro) => hide Step; SubmitOther(x, ro.req + 1);
      case T1Expiry(m) => hide Step; ExpiryOut(x, 0);
      case RspTick =>
      case RspDecodeError(m) =>
      case _ => hide Step; OutFrame(x, 0);
    }
  }

  // ---------------------------------------------------------------------------
  // Outgoing requests: attempts and ownership of the application message
  // ---------------------------------------------------------------------------

  /** Outputs that part with the application message of request `req`. */
  predicate PartsWith(o: Output, req: ReqId) {
    match o
    case HandRsp(_, _, given) => given == Some(req)
    case Timeout(given) => given == Some(req)
    case SndError(given) => given == Some(req)
    case Free(f) => f == req
    case _ => false
  }

  function PartSet(outs: set<Output>, req: ReqId): set<Output> {
    set o | o in outs && PartsWith(o, req)
  }

  ghost predicate Writes(x: Rec, req: ReqId) {
    exists a, n :: WriteReq(req, a, n) in x.outs
  }

  ghost function Parts(r: Run, n: nat, req: ReqId): nat
    requires n <= |r|
  {
    if n == 0 then 0 else Parts(r, n - 1, req) + |PartSet(r[n - 1].outs, req)|
  }

  ghost function WriteCount(r: Run, n: nat, req: ReqId): nat
    requires n <= |r|
  {
    if n == 0 then 0 else WriteCount(r, n - 1, req) + (if Writes(r[n - 1], req) then 1 else 0)
  }

  /** Request objects are distinct: each is submitted once. */
  ghost predicate DistinctReqs(r: Run) {
    forall i, j | 0 <= i < j < |r| && r[i].ev.SndReq? && r[j].ev.SndReq? ::
      r[i].ev.ro.req != r[j].ev.ro.req
  }

  ghost predicate NotHeld(s: State, req: ReqId) {
    forall n <- s.out :: s.out[n].req != req
  }

  ghost predicate HeldAt(s: State, req: ReqId, sn: SeqNbr) {
    && sn in s.out && s.out[sn].req == req
    && forall n <- s.out :: s.out[n].req == req ==> n == sn
  }

  predicate Submits(e: Event, req: ReqId) {
    e.SndReq? && e.ro.req == req
  }

  /** Steps that neither submit, time out nor answer a request leave the map of
      outstanding requests and its application messages alone, apart from ageing. */
  lemma OutFrame(x: Rec, req: ReqId)
    requires Good(x)
    requires !(x.ev.SndReq? || x.ev.T1Expiry? || x.ev.RcvRsp? || x.ev.RspDecodeError? || x.ev.RspTick?)
    ensures x.post.out == x.pre.out && x.post.crw == x.pre.crw && PartSet(x.outs, req) == {} && !Writes(x, req)
    ensures forall m :: !AcceptsRsp(x, m)
  {
    match x.ev {
      case RcvReq(b, m, admit, session) =>
        hide Touch;
        TouchEffect(x.pre, b, admit);
      case ActivityTick =>
      case _ =>
    }
  }

  lemma TickOut(x: Rec, req: ReqId)
    requires Good(x) && x.ev.RspTick?
    ensures PartSet(x.outs, req) == {} && !Writes(x, req)
    ensures x.post.out.Keys <= x.pre.out.Keys && forall n <- x.post.out :: x.post.out[n] == x.pre.out[n]
    ensures forall n <- x.pre.out :: n !in x.post.out ==> !x.pre.out[n].app
  {
  }

  /** What accepting a response does to the map. */
  lemma RcvRspOut(x: Rec, req: ReqId)
    requires Good(x) && x.ev.RcvRsp?
    ensures !Writes(x, req) && x.post.crw == x.pre.crw
    ensures forall m :: AcceptsRsp(x, m) <==>
              m == x.ev.sn && m in x.pre.out && Touch(x.pre, x.ev.peer, x.ev.admit).0.Some?
    ensures var sn := x.ev.sn;
            if sn in x.pre.out && Touch(x.pre, x.ev.peer, x.ev.admit).0.Some? then
              var ro := x.pre.out[sn];
              && x.post.out == x.pre.out[sn := ro.(rw := x.pre.crw, armed := false, app := false)]
              && PartSet(x.outs, req) ==
                   (if ro.app && ro.req == req then {HandRsp(x.ev.peer, sn, Some(req))} else {})
            else
              x.post.out == x.pre.out && PartSet(x.outs, req) == {}
  {
    hide Touch;
    TouchEffect(x.pre, x.ev.peer, x.ev.admit);
    if x.ev.sn in x.pre.out && Touch(x.pre, x.ev.peer, x.ev.admit).0.Some? {
      assert HandRsp(x.ev.peer, x.ev.sn, AppOf(x.pre.out[x.ev.sn])) in x.outs;
    }
  }

  /** What a T1 expiry does to the map. */
  lemma ExpiryOut(x: Rec, req: ReqId)
    requires Good(x) && x.ev.T1Expiry?
    ensures x.post.crw == x.pre.crw && forall m :: !AcceptsRsp(x, m)
    ensures var sn := x.ev.sn;
            var ro := x.pre.out[sn];
            if ro.n1 >= 1 then
              && x.post.out == x.pre.out[sn := ro.(n1 := ro.n1 - 1, armed := true)]
              && PartSet(x.outs, req) == {} && (Writes(x, req) <==> ro.req == req)
            else
              && x.post.out == x.pre.out - {sn} && !Writes(x, req)
              && PartSet(x.outs, req) ==
                   if !ro.app || ro.req != req then {}
                   else if ro.heartbeat then {Free(req)} else {Timeout(Some(req))}
  {
    var ro := x.pre.out[x.ev.sn];
    assert ro.n1 >= 1 ==> WriteReq(ro.req, ro.peer, x.ev.sn) in x.outs;
  }

  /** What a submission of another request does to the map. */
  lemma SubmitOther(x: Rec, req: ReqId)
    requires Good(x) && x.ev.SndReq? && !Submits(x.ev, req)
    ensures PartSet(x.outs, req) == {} && !Writes(x, req)
    ensures x.post.crw == x.pre.crw && forall m :: !AcceptsRsp(x, m)
    ensures x.ev.sn in x.pre.out ==> x.post.out == x.pre.out
    ensures x.ev.sn !in x.pre.out ==>
              x.ev.sn in x.post.out && x.post.out[x.ev.sn].req == x.ev.ro.req
              && x.post.out == x.pre.out[x.ev.sn := x.post.out[x.ev.sn]]
  {
  }

  /** A request object that is not in the map is not touched by any step but its own submission. */
  lemma UnheldStep(x: Rec, req: ReqId)
    requires Good(x) && NotHeld(x.pre, req) && !Submits(x.ev, req)
    ensures NotHeld(x.post, req) && PartSet(x.outs, req) == {} && !Writes(x, req)
  {
    match x.ev {
      case RcvRsp(b, m, admit) => hide Step; RcvRspOut(x, req);
      case SndReq(m, ro) => hide Step; SubmitOther(x, req);
      case T1Expiry(m) => hide Step; ExpiryOut(x, req);
      case RspTick => hide Step; TickOut(x, req);
      case RspDecodeError(m) =>
      case _ => hide Step; OutFrame(x, req);
    }
  }

  /** Submission under a free sequence number stores the request and makes the first attempt. */
  lemma SubmitStep(x: Rec, req: ReqId)
    requires Good(x) && NotHeld(x.pre, req) && Submits(x.ev, req) && x.ev.sn !in x.pre.out
    ensures HeldAt(x.post, req, x.ev.sn)
    ensures var ro := x.post.out[x.ev.sn];
            if x.ev.ro.n1 >= 1 then
              ro == x.ev.ro.(n1 := x.ev.ro.n1 - 1, armed := true)
              && Writes(x, req) && PartSet(x.outs, req) == {}
            else
              ro == x.ev.ro.(app := false) && !Writes(x, req)
              && |PartSet(x.outs, req)| == (if x.ev.ro.app then 1 else 0)
  {
    var ro := x.ev.ro;
    if ro.n1 >= 1 {
      assert WriteReq(req, ro.peer, x.ev.sn) in x.outs;
    } else {
      assert PartSet(x.outs, req) ==
        if !ro.app then {} else if ro.heartbeat then {Free(req)} else {Timeout(Some(req))};
    }
  }

  /** Submission under a sequence number still in use reports the message to the
      application and destroys it with the request object. */
  lemma CollideStep(x: Rec, req: ReqId)
    requires Good(x) && NotHeld(x.pre, req) && Submits(x.ev, req) && x.ev.sn in x.pre.out
    ensures x.post == x.pre && !Writes(x, req)
    ensures PartSet(x.outs, req) == if x.ev.ro.app then {SndError(Some(req)), Free(req)} else {}
  {
  }

  /** What one step can do to a held request. */
  lemma HeldStep(x: Rec, req: ReqId, sn: SeqNbr)
    requires Good(x) && HeldAt(x.pre, req, sn) && !Submits(x.ev, req)
    ensures HeldAt(x.post, req, sn) || NotHeld(x.post, req)
    ensures HeldAt(x.post, req, sn) ==>
              && (x.post.out[sn].app ==> x.pre.out[sn].app)
              && x.post.out[sn].n1 + (if Writes(x, req) then 1 else 0) == x.pre.out[sn].n1
              && |PartSet(x.outs, req)| ==
                   (if x.pre.out[sn].app && !x.post.out[sn].app then 1 else 0)
    ensures NotHeld(x.post, req) ==>
              !Writes(x, req) && |PartSet(x.outs, req)| == if x.pre.out[sn].app then 1 else 0
    ensures Writes(x, req) ==> x.pre.out[sn].n1 >= 1
    ensures Timeout(Some(req)) in x.outs || Free(req) in x.outs ==> x.pre.out[sn].n1 < 1
  {
    match x.ev {
      case RcvRsp(b, m, admit) => hide Step; RcvRspOut(x, req);
      case SndReq(m, ro) => hide Step; SubmitOther(x, req);
      case T1Expiry(m) => hide Step; ExpiryOut(x, req);
      case RspTick => hide Step; TickOut(x, req);
      case RspDecodeError(m) => assert PartSet(x.outs, req) == {};
      case _ => hide Step; OutFrame(x, req);
    }
    PartsAreOutputs(x.outs, req);
  }

  lemma PartsAreOutputs(outs: set<Output>, req: ReqId)
    ensures Timeout(Some(req)) in outs ==> Timeout(Some(req)) in PartSet(outs, req)
    ensures Free(req) in outs ==> Free(req) in PartSet(outs, req)
  {
  }

  /** Before a request is submitted nothing happens to it. */
  lemma {:induction false} BeforeSubmission(naw: nat, r: Run, i: nat, n: nat)
    requires IsRun(naw, r) && DistinctReqs(r) && n <= i < |r| && r[i].ev.SndReq?
    ensures var req := r[i].ev.ro.req;
            NotHeld(StateAt(naw, r, n), req) && Parts(r, n, req) == 0 && WriteCount(r, n, req) == 0
  {
    if n == 0 {
    } else {
      BeforeSubmission(naw, r, i, n - 1);
      GoodAt(naw, r, n - 1);
      UnheldStep(r[n - 1], r[i].ev.ro.req);
    }
  }

  /** Account of one request after its submission at position `i`. */
  ghost predicate Account(naw: nat, r: Run, i: nat, n: nat)
    requires i < n <= |r| && r[i].ev.SndReq?
  {
    var s, ro, sn := StateAt(naw, r, n), r[i].ev.ro, r[i].ev.sn;
    var writes, parts := WriteCount(r, n, ro.req), Parts(r, n, ro.req);
    if HeldAt(s, ro.req, sn) then
      && !Collides(r[i])
      && writes + s.out[sn].n1 == ro.n1
      && (if ro.n1 >= 0 then s.out[sn].n1 >= 0 else writes == 0)
      && (s.out[sn].app ==> ro.app)
      && parts == (if ro.app && !s.out[sn].app then 1 else 0)
    else
      && NotHeld(s, ro.req)
      && writes <= (if ro.n1 >= 0 then ro.n1 else 0)
      && parts == if !ro.app then 0 else if Collides(r[i]) then 2 else 1
  }

  lemma {:induction false} AccountHolds(naw: nat, r: Run, i: nat, n: nat)
    requires IsRun(naw, r) && DistinctReqs(r) && i < n <= |r| && r[i].ev.SndReq?
    ensures Account(naw, r, i, n)
    decreases n
  {
    var req, sn := r[i].ev.ro.req, r[i].ev.sn;
    GoodAt(naw, r, n - 1);
    if n - 1 == i {
      BeforeSubmission(naw, r, i, i);
      if Collides(r[i]) { CollideStep(r[i], req); } else { SubmitStep(r[i], req); }
    } else {
      AccountHolds(naw, r, i, n - 1);
      if HeldAt(r[n - 1].pre, req, sn) { HeldStep(r[n - 1], req, sn); } else { UnheldStep(r[n - 1], req); }
      assert !(HeldAt(r[n - 1].post, req, sn) && NotHeld(r[n - 1].post, req));
    }
  }

  /** Each outgoing request is written to the socket at most N1 times. */
  lemma AtMostN1Writes(naw: nat, r: Run, i: nat)
    requires IsRun(naw, r) && DistinctReqs(r) && i < |r| && r[i].ev.SndReq? && r[i].ev.ro.n1 >= 0
    ensures WriteCount(r, |r|, r[i].ev.ro.req) <= r[i].ev.ro.n1
  {
    AccountHolds(naw, r, i, |r|);
  }

  /** A request is given up (timed out, or its heartbeat freed) only after all N1 attempts. */
  lemma GivesUpAfterN1(naw: nat, r: Run, i: nat, j: nat)
    requires IsRun(naw, r) && DistinctReqs(r) && i < j < |r| && r[i].ev.SndReq? && r[i].ev.ro.n1 >= 0
    requires Timeout(Some(r[i].ev.ro.req)) in r[j].outs || Free(r[i].ev.ro.req) in r[j].outs
    ensures WriteCount(r, j, r[i].ev.ro.req) == r[i].ev.ro.n1
  {
    var req, sn := r[i].ev.ro.req, r[i].ev.sn;
    AccountHolds(naw, r, i, j);
    GoodAt(naw, r, j);
    PartsAreOutputs(r[j].outs, req);
    if HeldAt(r[j].pre, req, sn) {
      HeldStep(r[j], req, sn);
    } else {
      UnheldStep(r[j], req);
    }
  }

  /** The application message of a request leaves the request object at most once
      in a run, exactly when its submission did not meet a sequence number still
      in use (or carried no message): in that one branch it is both handed back
      and destroyed. */
  lemma OwnershipAtMostOnce(naw: nat, r: Run, i: nat)
    requires IsRun(naw, r) && DistinctReqs(r) && i < |r| && r[i].ev.SndReq?
    ensures Parts(r, |r|, r[i].ev.ro.req) <= 1 <==> !(Collides(r[i]) && r[i].ev.ro.app)
  {
    AccountHolds(naw, r, i, |r|);
  }

  /** The live request objects are exactly the map's values, each under its own sequence number. */
  lemma {:induction false} LiveRequestsAreKeyed(naw: nat, r: Run, n: nat, sn: SeqNbr)
    requires IsRun(naw, r) && DistinctReqs(r) && n <= |r| && sn in StateAt(naw, r, n).out
    ensures exists i | 0 <= i < n :: r[i].ev.SndReq? && r[i].ev.sn == sn && !Collides(r[i])
                                     && HeldAt(StateAt(naw, r, n), r[i].ev.ro.req, sn)
    decreases n
  {
    var x := r[n - 1];
    GoodAt(naw, r, n - 1);
    KeyedStep(x, sn);
    if sn in x.pre.out {
      LiveRequestsAreKeyed(naw, r, n - 1, sn);
      var i :| 0 <= i < n - 1 && r[i].ev.SndReq? && r[i].ev.sn == sn && !Collides(r[i])
               && HeldAt(x.pre, r[i].ev.ro.req, sn);
      HeldStep(x, r[i].ev.ro.req, sn);
    } else {
      BeforeSubmission(naw, r, n - 1, n - 1);
      SubmitStep(x, x.ev.ro.req);
    }
  }

  lemma KeyedStep(x: Rec, sn: SeqNbr)
    requires Good(x) && sn in x.post.out
    ensures sn in x.pre.out ==> x.post.out[sn].req == x.pre.out[sn].req
    ensures sn !in x.pre.out ==> x.ev.SndReq? && x.ev.sn == sn && x.post.out[sn].req == x.ev.ro.req
  {
    match x.ev {
      case RcvRsp(b, m, admit) => hide Step; RcvRspOut(x, 0);
      case SndReq(m, ro) => hide Step; SubmitOther(x, ro.req + 1);
      case T1Expiry(m) => hide Step; ExpiryOut(x, 0);
      case RspTick => hide Step; TickOut(x, 0);
      case RspDecodeError(m) =>
      case _ => hide Step; OutFrame(x, 0);
    }
  }

  // ---------------------------------------------------------------------------
  // Activity windows and heartbeats
  // ---------------------------------------------------------------------------

  function Bump(h: seq<nat>, d: nat): seq<nat> {
    if h == [] then h else h[|h| - 1 := h[|h| - 1] + d]
  }

  /** The step counts as activity of the remote node. */
  predicate Touches(e: Event, a: Addr) {
    (e.RcvReq? || e.RcvRsp?) && e.peer == a
  }

  /** The history extended by one step. */
  function Extend(x: Rec, a: Addr, h: seq<nat>): seq<nat> {
    if a !in x.post.peers then []
    else if a !in x.pre.peers then [if x.ev.AddPeer? then 0 else 1]
    else if x.ev == ActivityTick then Bump(h, if Heartbeat(a) in x.outs then 1 else 0) + [0]
    else if Touches(x.ev, a) then Bump(h, 1)
    else h
  }

  /** Activity of a remote node per activity window since it was created, oldest
      window first; the last element is the window now open. */
  ghost function History(naw: nat, r: Run, n: nat, a: Addr): seq<nat>
    requires n <= |r|
  {
    if n == 0 then [] else Extend(r[n - 1], a, History(naw, r, n - 1, a))
  }

  /** The ring holds the last `|p.awnds|` windows of the history. */
  ghost predicate IsWindow(p: Peer, h: seq<nat>) {
    var w := |p.awnds|;
    && h != [] && p.aw < w
    && p.awndcnt == (if |h| < w then |h| else w)
    && forall j | 0 <= j < |h| && j < w :: p.awnds[Back(p.aw, j, w)] == h[|h| - 1 - j]
  }

  function Back(aw: nat, j: nat, w: nat): nat
    requires aw < w && j < w
    ensures Back(aw, j, w) < w
  {
    if j <= aw then aw - j else aw + w - j
  }

  /** The meaning of the activity check on the history: false exactly when a full
      set of windows has been opened and none of the last ones saw activity. */
  ghost predicate RecentlyActive(h: seq<nat>, w: nat) {
    |h| < w || exists k | 0 <= k < |h| && |h| - w <= k :: h[k] > 0
  }

  lemma CheckActivityIsSlidingWindow(p: Peer, h: seq<nat>)
    requires IsWindow(p, h)
    ensures CheckActivity(p) <==> RecentlyActive(h, |p.awnds|)
  {
    var w := |p.awnds|;
    if |h| >= w {
      if i :| 0 <= i < w && p.awnds[i] > 0 {
        var j := if i <= p.aw then p.aw - i else p.aw + w - i;
        assert Back(p.aw, j, w) == i;
        assert h[|h| - 1 - j] > 0;
      }
      if k :| 0 <= k < |h| && |h| - w <= k && h[k] > 0 {
        var j := |h| - 1 - k;
        assert p.awnds[Back(p.aw, j, w)] == h[|h| - 1 - j];
      }
    }
  }

  lemma BumpWindow(p: Peer, h: seq<nat>)
    requires IsWindow(p, h)
    ensures IsWindow(IncActivity(p), Bump(h, 1))
  {
    var q, g, w := IncActivity(p), Bump(h, 1), |p.awnds|;
    forall j | 0 <= j < |g| && j < w ensures q.awnds[Back(q.aw, j, w)] == g[|g| - 1 - j] {
      assert p.awnds[Back(p.aw, j, w)] == h[|h| - 1 - j];
    }
  }

  lemma OpenWindow(p: Peer, h: seq<nat>, next: nat)
    requires IsWindow(p, h) && next == if p.aw + 1 >= |p.awnds| then 0 else p.aw + 1
    ensures IsWindow(NextWnd(p, next), h + [0])
  {
    var q, g, w := NextWnd(p, next), h + [0], |p.awnds|;
    forall j | 0 <= j < |g| && j < w ensures q.awnds[Back(q.aw, j, w)] == g[|g| - 1 - j] {
      if j > 0 {
        assert p.awnds[Back(p.aw, j - 1, w)] == h[|h| - j];
        assert Back(q.aw, j, w) == Back(p.aw, j - 1, w);
      }
    }
  }

  lemma NewPeerWindow(s: State)
    requires Inv(s)
    ensures IsWindow(NewPeer(s), [0])
  {
    assert Back(s.caw, 0, s.naw) == s.caw;
  }

  /** The activity counters of a remote node after a step that is not a tick. */
  ghost predicate QuietChange(x: Rec, a: Addr)
    requires Inv(x.pre) && a in x.post.peers
  {
    var was := if a in x.pre.peers then x.pre.peers[a] else NewPeer(x.pre);
    var want := if Touches(x.ev, a) then IncActivity(was) else was;
    var p := x.post.peers[a];
    && p.awnds == want.awnds && p.awndcnt == want.awndcnt && p.aw == want.aw
    && (a !in x.pre.peers ==> x.ev == AddPeer(a, true) || (Touches(x.ev, a) && x.ev.admit))
    && Heartbeat(a) !in x.outs
  }

  lemma QuietDatagram(x: Rec, a: Addr)
    requires Good(x) && a in x.post.peers && (x.ev.RcvReq? || x.ev.RcvRsp?)
    ensures QuietChange(x, a)
  {
    hide Touch;
    TouchEffect(x.pre, x.ev.peer, x.ev.admit);
    if Touch(x.pre, x.ev.peer, x.ev.admit).0.Some? {
      TouchCounts(x.pre, x.ev.peer, x.ev.admit);
    }
  }

  lemma TouchCounts(s: State, b: Addr, admit: bool)
    requires Inv(s) && Touch(s, b, admit).0.Some?
    ensures var p := Touch(s, b, admit).0.value.peers[b];
            var want := IncActivity(if b in s.peers then s.peers[b] else NewPeer(s));
            p.awnds == want.awnds && p.awndcnt == want.awndcnt && p.aw == want.aw
  {
  }

  lemma QuietRequest(x: Rec, a: Addr)
    requires Good(x) && a in x.post.peers && (x.ev.SndReq? || x.ev.T1Expiry?)
    ensures QuietChange(x, a)
  {
  }

  lemma QuietStep(x: Rec, a: Addr)
    requires Good(x) && a in x.post.peers && x.ev != ActivityTick
    ensures QuietChange(x, a)
  {
    match x.ev {
      case RcvReq(b, m, admit, session) => QuietDatagram(x, a);
      case RcvRsp(b, m, admit) => QuietDatagram(x, a);
      case SndReq(m, ro) => QuietRequest(x, a);
      case T1Expiry(m) => QuietRequest(x, a);
      case _ =>
    }
  }

  /** The effect of an activity tick on one remote node. */
  lemma TickStep(x: Rec, a: Addr)
    requires Good(x) && x.ev == ActivityTick
    ensures a in x.post.peers <==> a in x.pre.peers
    ensures a in x.pre.peers ==>
              var p := x.pre.peers[a];
              && (Heartbeat(a) in x.outs <==> Idle(p))
              && x.post.peers[a] == NextWnd(if Idle(p) then IncActivity(p) else p, NextCaw(x.pre))
    ensures a !in x.pre.peers ==> Heartbeat(a) !in x.outs
  {
  }

  /** In every reachable state each activity ring equals the sliding window over
      the windows opened since its remote node was created. */
  lemma {:induction false} RingIsSlidingWindow(naw: nat, r: Run, n: nat, a: Addr)
    requires IsRun(naw, r) && n <= |r| && a in StateAt(naw, r, n).peers
    ensures IsWindow(StateAt(naw, r, n).peers[a], History(naw, r, n, a))
    ensures |StateAt(naw, r, n).peers[a].awnds| == naw
    decreases n
  {
    hide Step;
    RunInv(naw, r, n);
    GoodAt(naw, r, n - 1);
    var x, h := r[n - 1], History(naw, r, n - 1, a);
    if a in x.pre.peers { RingIsSlidingWindow(naw, r, n - 1, a); }
    RingStep(x, a, h);
  }

  lemma RingStep(x: Rec, a: Addr, h: seq<nat>)
    requires Good(x) && a in x.post.peers
    requires a in x.pre.peers ==> IsWindow(x.pre.peers[a], h)
    ensures IsWindow(x.post.peers[a], Extend(x, a, h))
  {
    hide Step;
    if x.ev == ActivityTick {
      TickStep(x, a);
      var p := x.pre.peers[a];
      if Idle(p) {
        BumpWindow(p, h);
        OpenWindow(IncActivity(p), Bump(h, 1), NextCaw(x.pre));
      } else {
        assert Bump(h, 0) == h;
        OpenWindow(p, h, NextCaw(x.pre));
      }
    } else {
      QuietStep(x, a);
      if a !in x.pre.peers {
        NewPeerWindow(x.pre);
        BumpWindow(NewPeer(x.pre), [0]);
        assert Bump([0], 1) == [1];
      } else {
        BumpWindow(x.pre.peers[a], h);
      }
    }
  }

  /** A heartbeat goes out at a tick exactly to the started nodes with a full set
      of windows and no activity in any of the last `naw` of them. */
  lemma HeartbeatIffSilent(naw: nat, r: Run, i: nat, a: Addr)
    requires IsRun(naw, r) && i < |r| && r[i].ev == ActivityTick && a in r[i].pre.peers
    ensures Heartbeat(a) in r[i].outs <==>
              r[i].pre.peers[a].state == Started && !RecentlyActive(History(naw, r, i, a), naw)
  {
    GoodAt(naw, r, i);
    RingIsSlidingWindow(naw, r, i, a);
    CheckActivityIsSlidingWindow(r[i].pre.peers[a], History(naw, r, i, a));
  }

  ghost function ActivityTicks(r: Run, lo: nat, hi: nat): nat
    requires lo <= hi <= |r|
  {
    if lo == hi then 0
    else ActivityTicks(r, lo, hi - 1) + (if r[hi - 1].ev == ActivityTick then 1 else 0)
  }

  /** After a heartbeat at position `i` the window then open keeps a non-zero
      count, and every later tick opens one more window. */
  lemma {:induction false} HeartbeatLeavesMark(naw: nat, r: Run, i: nat, n: nat, a: Addr)
    requires IsRun(naw, r) && i < n <= |r| && Heartbeat(a) in r[i].outs && r[i].ev == ActivityTick
    ensures a in r[i].pre.peers && a in StateAt(naw, r, n).peers
    ensures var m := |History(naw, r, i, a)| - 1;
            var h := History(naw, r, n, a);
            m >= 0 && |h| == m + 2 + ActivityTicks(r, i + 1, n) && h[m] > 0
    decreases n
  {
    GoodAt(naw, r, i);
    TickStep(r[i], a);
    RingIsSlidingWindow(naw, r, i, a);
    PeersStay(naw, r, i, n - 1, a);
    PeersStay(naw, r, i, n, a);
    if n - 1 == i {
    } else {
      HeartbeatLeavesMark(naw, r, i, n - 1, a);
    }
  }

  /** Heartbeats to one node are at least `naw` activity ticks apart. */
  lemma HeartbeatsAreSpaced(naw: nat, r: Run, i: nat, j: nat, a: Addr)
    requires IsRun(naw, r) && i < j < |r|
    requires r[i].ev == ActivityTick && r[j].ev == ActivityTick
    requires Heartbeat(a) in r[i].outs && Heartbeat(a) in r[j].outs
    ensures ActivityTicks(r, i + 1, j + 1) >= naw
  {
    HeartbeatLeavesMark(naw, r, i, j, a);
    HeartbeatIffSilent(naw, r, j, a);
    var h := History(naw, r, j, a);
    assert h[|History(naw, r, i, a)| - 1] > 0;
  }
}
