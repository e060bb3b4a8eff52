/** What the PFCP communication thread does do: when requests and responses are handed up,
    when replies go out, where requests are written to, and how remote nodes change state. */
module PfcpProgress {
  import opened PfcpModel
  import opened PfcpRuns
  import opened Wrappers

  /** The sender of a datagram is known or may be created. */
  predicate Reaches(s: State, a: Addr, admit: bool) {
    a in s.peers || admit
  }

  // ----- incoming requests -----

  /** A request is handed to the application exactly when its sender is known or can be
      created, its session is found and its number is not remembered: also the first one
      of a node not heard of before. */
  lemma DeliveredIff(naw: nat, r: Run, q: nat, a: Addr, sn: SeqNbr, admit: bool, session: bool)
    requires IsRun(naw, r) && q < |r| && r[q].ev == RcvReq(a, sn, admit, session)
    ensures var s := StateAt(naw, r, q);
            Deliver(a, sn) in r[q].outs <==> Reaches(s, a, admit) && session && RcvdWnd(s, a, sn).None?
  {
    hide Inv, Touch, IsRun;
    GoodAt(naw, r, q);
    TouchEffect(r[q].pre, a, admit);
  }

  /** A number is remembered only since a hand-off that no removal has followed. */
  lemma {:induction false} RememberedSince(naw: nat, r: Run, n: nat, a: Addr, sn: SeqNbr) returns (i: nat)
    requires IsRun(naw, r) && n <= |r| && RcvdWnd(StateAt(naw, r, n), a, sn).Some?
    ensures i < n && Deliver(a, sn) in r[i].outs && forall k | i < k < n :: !Removed(r[k], a, sn)
    decreases n
  {
    hide Good, IsRun, Inv, Step;
    GoodAt(naw, r, n - 1);
    RcvdStep(r[n - 1], a, sn);
    if RcvdWnd(r[n - 1].pre, a, sn).None? {
      i := n - 1;
    } else {
      i := RememberedSince(naw, r, n - 1, a, sn);
      assert !Removed(r[n - 1], a, sn);
    }
  }

  /** Exactly once: over a whole run a request that reaches the application's session is
      handed off if and only if every earlier hand-off of that number by that node has
      been followed by the removal of its entry. */
  lemma DeliveredIffForgotten(naw: nat, r: Run, q: nat, a: Addr, sn: SeqNbr, admit: bool)
    requires IsRun(naw, r) && q < |r| && r[q].ev == RcvReq(a, sn, admit, true)
    requires Reaches(StateAt(naw, r, q), a, admit)
    ensures Deliver(a, sn) in r[q].outs <==>
              forall i | 0 <= i < q && Deliver(a, sn) in r[i].outs :: exists k | i < k < q :: Removed(r[k], a, sn)
  {
    hide Good, IsRun, Inv, Step;
    DeliveredIff(naw, r, q, a, sn, admit, true);
    if RcvdWnd(StateAt(naw, r, q), a, sn).Some? {
      var i := RememberedSince(naw, r, q, a, sn);
    } else {
      forall i | 0 <= i < q && Deliver(a, sn) in r[i].outs ensures exists k | i < k < q :: Removed(r[k], a, sn) {
        GoodAt(naw, r, i);
        RcvdStep(r[i], a, sn);
        RemovalBetween(naw, r, i + 1, q, a, sn);
      }
    }
  }

  /** A reply is written exactly while its request is remembered, and otherwise returned
      to the application. */
  lemma ReplyWrittenIff(naw: nat, r: Run, q: nat, a: Addr, sn: SeqNbr)
    requires IsRun(naw, r) && q < |r| && r[q].ev == SndRsp(a, sn)
    ensures r[q].outs == if RcvdWnd(StateAt(naw, r, q), a, sn).Some? then {WriteRsp(a, sn)} else {RspError(a, sn)}
  {
    GoodAt(naw, r, q);
  }

  // ----- outgoing requests -----

  /** A response is handed up exactly when its sender is known or can be created and a
      request with its number is held; the application message goes with it. */
  lemma ResponseHandedUpIff(naw: nat, r: Run, q: nat, a: Addr, sn: SeqNbr, admit: bool)
    requires IsRun(naw, r) && q < |r| && r[q].ev == RcvRsp(a, sn, admit)
    ensures var s := StateAt(naw, r, q);
            && (AcceptsRsp(r[q], sn) <==> Reaches(s, a, admit) && sn in s.out)
            && (AcceptsRsp(r[q], sn) ==>
                  HandRsp(a, sn, if s.out[sn].app then Some(s.out[sn].req) else None) in r[q].outs)
  {
    GoodAt(naw, r, q);
    RcvRspOut(r[q], 0);
    hide Touch;
    TouchEffect(r[q].pre, a, admit);
  }

  /** The first response to a request, before its last expiry, gives the application its
      message back together with the response. */
  lemma FirstResponseReturnsMessage(naw: nat, r: Run, i: nat, q: nat, a: Addr, admit: bool)
    requires IsRun(naw, r) && i < q < |r| && r[i].ev.SndReq? && !Collides(r[i]) && r[i].ev.ro.n1 >= 1
    requires r[q].ev == RcvRsp(a, r[i].ev.sn, admit) && Reaches(StateAt(naw, r, q), a, admit)
    requires forall k | i < k < q :: !AcceptsRsp(r[k], r[i].ev.sn)
    requires Expiries(r, i + 1, q, r[i].ev.sn) < r[i].ev.ro.n1 && r[i].ev.ro.app
    ensures HandRsp(a, r[i].ev.sn, Some(r[i].ev.ro.req)) in r[q].outs
  {
    hide IsRun, AcceptsRsp;
    UnansweredStaysUntilLastExpiry(naw, r, i, q);
    ResponseHandedUpIff(naw, r, q, a, r[i].ev.sn, admit);
  }

  /** While a request is held it keeps the address and the number it was submitted with. */
  ghost predicate KeepsAddress(s: State, req: ReqId, sn: SeqNbr, a: Addr) {
    forall n <- s.out | s.out[n].req == req :: n == sn && s.out[n].peer == a
  }

  lemma AddressStep(x: Rec, req: ReqId, sn: SeqNbr, a: Addr)
    requires Good(x) && KeepsAddress(x.pre, req, sn, a) && !Submits(x.ev, req)
    ensures KeepsAddress(x.post, req, sn, a)
    ensures forall b, n :: WriteReq(req, b, n) in x.outs ==> b == a && n == sn
  {
    match x.ev {
      case RcvRsp(b, m, admit) => hide Step; RcvRspOut(x, req);
      case SndReq(m, ro) => hide Step; SubmitOther(x, req); SubmittedWrites(x);
      case T1Expiry(m) => ExpiryWrites(x); hide Step; ExpiryOut(x, req);
      case RspTick => hide Step; TickOut(x, req);
      case RspDecodeError(m) =>
      case _ => hide Step; OutFrame(x, req);
    }
  }

  lemma SubmittedWrites(x: Rec)
    requires Good(x) && x.ev.SndReq?
    ensures forall req, b, n :: WriteReq(req, b, n) in x.outs ==>
              req == x.ev.ro.req && b == x.ev.ro.peer && n == x.ev.sn
    ensures x.ev.sn !in x.pre.out ==> x.ev.sn in x.post.out && x.post.out[x.ev.sn].peer == x.ev.ro.peer
  {
  }

  lemma ExpiryWrites(x: Rec)
    requires Good(x) && x.ev.T1Expiry?
    ensures forall req, b, n :: WriteReq(req, b, n) in x.outs ==>
              req == x.pre.out[x.ev.sn].req && b == x.pre.out[x.ev.sn].peer && n == x.ev.sn
  {
  }

  lemma {:induction false} AddressKept(naw: nat, r: Run, i: nat, n: nat)
    requires IsRun(naw, r) && DistinctReqs(r) && i < n <= |r| && r[i].ev.SndReq?
    ensures KeepsAddress(StateAt(naw, r, n), r[i].ev.ro.req, r[i].ev.sn, r[i].ev.ro.peer)
    decreases n
  {
    hide Good, IsRun, Step, Inv;
    var req, sn, a := r[i].ev.ro.req, r[i].ev.sn, r[i].ev.ro.peer;
    GoodAt(naw, r, n - 1);
    if n - 1 == i {
      BeforeSubmission(naw, r, i, i);
      SubmittedAddress(r[i]);
    } else {
      AddressKept(naw, r, i, n - 1);
      AddressStep(r[n - 1], req, sn, a);
    }
  }

  lemma SubmittedAddress(x: Rec)
    requires Good(x) && x.ev.SndReq? && NotHeld(x.pre, x.ev.ro.req)
    ensures KeepsAddress(x.post, x.ev.ro.req, x.ev.sn, x.ev.ro.peer)
  {
  }

  /** Every transmission of a request goes to the node and carries the number it was
      submitted with. */
  lemma WritesGoWhereSubmitted(naw: nat, r: Run, i: nat, j: nat, a: Addr, sn: SeqNbr)
    requires IsRun(naw, r) && DistinctReqs(r) && i < |r| && j < |r| && r[i].ev.SndReq?
    requires WriteReq(r[i].ev.ro.req, a, sn) in r[j].outs
    ensures i <= j && a == r[i].ev.ro.peer && sn == r[i].ev.sn
  {
    hide Good, IsRun, Step, Inv;
    var req := r[i].ev.ro.req;
    GoodAt(naw, r, j);
    assert Writes(r[j], req);
    if j < i {
      BeforeSubmission(naw, r, i, j);
      UnheldStep(r[j], req);
    } else if j == i {
      SubmittedWrites(r[i]);
    } else {
      AddressKept(naw, r, i, j);
      AddressStep(r[j], req, r[i].ev.sn, r[i].ev.ro.peer);
    }
  }

  /** The expiry after the last attempt tells the application, with its message, that the
      request timed out; for a heartbeat the node is marked failed instead. */
  lemma LastExpiryReports(naw: nat, r: Run, i: nat, q: nat)
    requires IsRun(naw, r) && i < q < |r| && r[i].ev.SndReq? && !Collides(r[i]) && r[i].ev.ro.n1 >= 1
    requires forall k | i < k < q :: !AcceptsRsp(r[k], r[i].ev.sn)
    requires r[q].ev == T1Expiry(r[i].ev.sn) && Expiries(r, i + 1, q, r[i].ev.sn) == r[i].ev.ro.n1 - 1
    ensures var ro := r[i].ev.ro;
            if ro.heartbeat then
              && StateChange(ro.peer, Failed) in r[q].outs
              && ro.peer in r[q].post.peers && r[q].post.peers[ro.peer].state == Failed
            else r[q].outs == {Timeout(if ro.app then Some(ro.req) else None)}
  {
    hide IsRun, AcceptsRsp;
    UnansweredStaysUntilLastExpiry(naw, r, i, q);
    GoodAt(naw, r, q);
    LastExpiryOut(r[q]);
  }

  lemma LastExpiryOut(x: Rec)
    requires Good(x) && x.ev.T1Expiry? && x.pre.out[x.ev.sn].n1 < 1
    ensures var ro := x.pre.out[x.ev.sn];
            if ro.heartbeat then
              && StateChange(ro.peer, Failed) in x.outs
              && ro.peer in x.post.peers && x.post.peers[ro.peer].state == Failed
            else x.outs == {Timeout(if ro.app then Some(ro.req) else None)}
  {
  }

  // ----- the states of remote nodes -----

  function StateOf(s: State, a: Addr): Option<PeerState> {
    if a in s.peers then Some(s.peers[a].state) else None
  }

  /** A heartbeat that has used up its attempts. */
  predicate HeartbeatFails(x: Rec, a: Addr) {
    || (x.ev.SndReq? && x.ev.sn !in x.pre.out && x.ev.ro.heartbeat && x.ev.ro.n1 < 1 && x.ev.ro.peer == a)
    || (x.ev.T1Expiry? && x.ev.sn in x.pre.out && x.pre.out[x.ev.sn].heartbeat && x.pre.out[x.ev.sn].n1 < 1
        && x.pre.out[x.ev.sn].peer == a)
  }

  /** What a step makes of a node's state: a datagram from it and its addition start it,
      the application sets it, a heartbeat without answer fails it, nothing else does. */
  function StateAfter(x: Rec, a: Addr): Option<PeerState> {
    var before := StateOf(x.pre, a);
    if HeartbeatFails(x, a) then Some(Failed)
    else match x.ev
      case RcvReq(b, _, admit, _) => if a == b && Reaches(x.pre, a, admit) then Some(Started) else before
      case RcvRsp(b, _, admit) => if a == b && Reaches(x.pre, a, admit) then Some(Started) else before
      case AddPeer(b, admit) => if a == b && Reaches(x.pre, a, admit) then Some(Started) else before
      case ChangePeer(b, to) => if a == b then Some(to) else before
      case _ => before
  }

  /** How nodes change state, and that each change is announced. */
  lemma StateStep(x: Rec, a: Addr)
    requires Good(x)
    ensures StateOf(x.post, a) == StateAfter(x, a)
    ensures StateOf(x.post, a) != StateOf(x.pre, a) ==> StateChange(a, x.post.peers[a].state) in x.outs
    ensures forall to :: StateChange(a, to) in x.outs ==> StateOf(x.post, a) == Some(to)
  {
    match x.ev {
      case RcvReq(b, m, admit, session) => DatagramState(x, a);
      case RcvRsp(b, m, admit) => DatagramState(x, a);
      case SndReq(m, ro) => RequestState(x, a);
      case T1Expiry(m) => RequestState(x, a);
      case RspTick =>
      case ActivityTick => TickState(x, a);
      case _ =>
    }
  }

  lemma DatagramState(x: Rec, a: Addr)
    requires Good(x) && (x.ev.RcvReq? || x.ev.RcvRsp?)
    ensures StateOf(x.post, a) == StateAfter(x, a)
    ensures StateOf(x.post, a) != StateOf(x.pre, a) ==> StateChange(a, x.post.peers[a].state) in x.outs
    ensures forall to :: StateChange(a, to) in x.outs ==> StateOf(x.post, a) == Some(to)
  {
    TouchState(x.pre, x.ev.peer, x.ev.admit);
    hide Touch;
    TouchEffect(x.pre, x.ev.peer, x.ev.admit);
  }

  lemma TouchState(s: State, b: Addr, admit: bool)
    requires Inv(s)
    ensures var (t, outs) := Touch(s, b, admit);
            && (t.Some? <==> Reaches(s, b, admit))
            && (t.Some? ==> b in t.value.peers && t.value.peers[b].state == Started)
            && (t.Some? ==> (StateChange(b, Started) in outs <==> StateOf(s, b) != Some(Started)))
  {
  }

  lemma RequestState(x: Rec, a: Addr)
    requires Good(x) && (x.ev.SndReq? || x.ev.T1Expiry?)
    ensures StateOf(x.post, a) == StateAfter(x, a)
    ensures StateOf(x.post, a) != StateOf(x.pre, a) ==> StateChange(a, x.post.peers[a].state) in x.outs
    ensures forall to :: StateChange(a, to) in x.outs ==> StateOf(x.post, a) == Some(to)
  {
  }

  lemma TickState(x: Rec, a: Addr)
    requires Good(x) && x.ev.ActivityTick?
    ensures StateOf(x.post, a) == StateOf(x.pre, a) && forall to :: StateChange(a, to) !in x.outs
  {
  }
}
