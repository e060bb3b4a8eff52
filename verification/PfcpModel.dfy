/** The PFCP communication thread as a step machine over values.

    One local node is modelled: its outstanding requests, its remote nodes and
    the two clocks (response windows and activity windows) that the communication
    thread drives.  A datagram is an abstract record; everything that leaves the
    thread in one step is returned as a set of outputs. */
module PfcpModel {

  import opened Wrappers

  /** Identity of an outgoing request object and of the application message it carries. */
  type ReqId = nat
  /** Remote IP address. */
  type Addr = nat
  type SeqNbr = nat

  datatype PeerState = Initialized | Started | Stopping | Stopped | Failed | Restarted

  /** A remote node.  `rcvd` maps the sequence number of a received request to its
      response window; window 0 means that no response has been sent yet. */
  datatype Peer = Peer(
    state: PeerState,
    rcvd: map<SeqNbr, int>,
    awnds: seq<nat>,
    awndcnt: nat,
    aw: nat)

  /** An outgoing request.  `app` says whether it still holds its application
      message, `armed` whether its T1 timer is running. */
  datatype ReqOut = ReqOut(
    req: ReqId,
    peer: Addr,
    heartbeat: bool,
    app: bool,
    n1: int,
    armed: bool,
    rw: int)

  datatype State = State(
    naw: nat,                  // configured number of activity windows
    caw: nat,                  // current activity window
    crw: int,                  // current response window
    out: map<SeqNbr, ReqOut>,
    peers: map<Addr, Peer>)

  datatype Event =
    | RcvReq(peer: Addr, sn: SeqNbr, admit: bool, session: bool)
    | RcvRsp(peer: Addr, sn: SeqNbr, admit: bool)
    | SndReq(sn: SeqNbr, ro: ReqOut)
    | SndRsp(peer: Addr, sn: SeqNbr)
    | T1Expiry(sn: SeqNbr)
    | ReqDecodeError(peer: Addr, sn: SeqNbr)
    | RspDecodeError(sn: SeqNbr)
    | RspTick
    | ActivityTick
    | AddPeer(peer: Addr, admit: bool)
    | ChangePeer(peer: Addr, to: PeerState)

  datatype Output =
    | Deliver(peer: Addr, sn: SeqNbr)
    | HandRsp(peer: Addr, sn: SeqNbr, given: Option<ReqId>)
    | WriteReq(req: ReqId, peer: Addr, sn: SeqNbr)
    | WriteRsp(peer: Addr, sn: SeqNbr)
    | RspError(peer: Addr, sn: SeqNbr)
    | Timeout(given: Option<ReqId>)
    | SndError(given: Option<ReqId>)
    | Free(req: ReqId)
    | Heartbeat(peer: Addr)
    | StateChange(peer: Addr, to: PeerState)

  const NO_RSP := 0
  const RW_ONE := 1
  const RW_TWO := 2

  /** Exclusive-or with RW_ONE ^ RW_TWO, which is 3: on 0..3 that is subtraction from 3. */
  function Toggle(w: int): int {
    3 - w
  }

  function Init(naw: nat): State {
    State(naw, 0, RW_ONE, map[], map[])
  }

  /** What every reachable state satisfies. */
  ghost predicate Inv(s: State) {
    && s.caw < s.naw
    && s.crw in {RW_ONE, RW_TWO}
    && (forall p <- s.peers :: PeerInv(s, s.peers[p]))
    && (forall n <- s.out :: ReqInv(s, s.out[n]))
  }

  ghost predicate PeerInv(s: State, p: Peer) {
    && |p.awnds| == s.naw
    && p.aw == s.caw
    && 1 <= p.awndcnt <= s.naw
    && (forall n <- p.rcvd :: p.rcvd[n] in {NO_RSP, RW_ONE, RW_TWO})
  }

  /** A request in a response window has given its application message away and
      its retransmission timer is stopped; its remote node exists. */
  ghost predicate ReqInv(s: State, ro: ReqOut) {
    && ro.rw in {NO_RSP, RW_ONE, RW_TWO}
    && (ro.rw != NO_RSP ==> !ro.app && !ro.armed)
    && (ro.armed ==> ro.n1 >= 0)
    && ro.peer in s.peers
  }

  // ----- remote node operations -----

  function SetPeer(s: State, a: Addr, p: Peer): State {
    s.(peers := s.peers[a := p])
  }

  function SetOut(s: State, sn: SeqNbr, ro: ReqOut): State {
    s.(out := s.out[sn := ro])
  }

  function NextWnd(p: Peer, wnd: nat): Peer
    requires wnd < |p.awnds|
  {
    p.(aw := wnd,
       awndcnt := if p.awndcnt < |p.awnds| then p.awndcnt + 1 else p.awndcnt,
       awnds := p.awnds[wnd := 0])
  }

  predicate CheckActivity(p: Peer) {
    p.awndcnt < |p.awnds| || exists i | 0 <= i < |p.awnds| :: p.awnds[i] > 0
  }

  function IncActivity(p: Peer): Peer
    requires p.aw < |p.awnds|
  {
    p.(awnds := p.awnds[p.aw := p.awnds[p.aw] + 1])
  }

  function NewPeer(s: State): Peer
    requires s.caw < s.naw
  {
    NextWnd(Peer(Initialized, map[], seq(s.naw, i => 0), 0, 0), s.caw).(state := Started)
  }

  /** The part of a datagram's arrival that does not depend on its kind: find or
      create the remote node, start it and count the activity.  `None` when the
      remote node is unknown and cannot be created. */
  function Touch(s: State, a: Addr, admit: bool): (r: (Option<State>, set<Output>))
    requires Inv(s)
    ensures r.0.Some? ==> Inv(r.0.value) && a in r.0.value.peers
  {
    if a in s.peers then
      var p := s.peers[a];
      (Some(SetPeer(s, a, IncActivity(p.(state := Started)))),
       if p.state != Started then {StateChange(a, Started)} else {})
    else if admit then
      (Some(SetPeer(s, a, IncActivity(NewPeer(s)))), {StateChange(a, Started)})
    else
      (None, {})
  }

  // ----- outgoing requests -----

  function AppOf(ro: ReqOut): Option<ReqId> {
    if ro.app then Some(ro.req) else None
  }

  /** Destroying a request object destroys the application message it still holds. */
  function Destroy(ro: ReqOut): set<Output> {
    if ro.app then {Free(ro.req)} else {}
  }

  /** One transmission attempt: write and restart T1 while attempts remain, else
      give up and part with the application message. */
  function TrySend(s: State, sn: SeqNbr): (bool, State, set<Output>)
    requires sn in s.out && s.out[sn].peer in s.peers
  {
    var ro := s.out[sn];
    if ro.n1 >= 1 then
      (true, SetOut(s, sn, ro.(n1 := ro.n1 - 1, armed := true)), {WriteReq(ro.req, ro.peer, sn)})
    else if ro.heartbeat then
      var p := s.peers[ro.peer];
      (false,
       SetPeer(SetOut(s, sn, ro.(app := false)), ro.peer, p.(state := Failed)),
       {StateChange(ro.peer, Failed)} + Destroy(ro))
    else
      (false, SetOut(s, sn, ro.(app := false)), {Timeout(AppOf(ro))})
  }

  function OnSndReq(s: State, sn: SeqNbr, ro: ReqOut): (State, set<Output>)
    requires ro.peer in s.peers
  {
    if sn !in s.out then
      var (_, t, outs) := TrySend(SetOut(s, sn, ro), sn);
      (t, outs)
    else
      (s, {SndError(AppOf(ro))} + Destroy(ro))
  }

  function OnT1Expiry(s: State, sn: SeqNbr): (State, set<Output>)
    requires sn in s.out && s.out[sn].peer in s.peers
  {
    var (ok, t, outs) := TrySend(SetOut(s, sn, s.out[sn].(armed := false)), sn);
    if ok then (t, outs) else (t.(out := t.out - {sn}), outs)
  }

  // ----- datagrams and responses -----

  function OnRcvReq(s: State, a: Addr, sn: SeqNbr, admit: bool, session: bool): (State, set<Output>)
    requires Inv(s)
  {
    var (r, outs) := Touch(s, a, admit);
    if r.None? then (s, outs) else
    var t := r.value;
    var p := t.peers[a];
    if sn in p.rcvd || !session then (t, outs)
    else (SetPeer(t, a, p.(rcvd := p.rcvd[sn := NO_RSP])), outs + {Deliver(a, sn)})
  }

  function OnRcvRsp(s: State, a: Addr, sn: SeqNbr, admit: bool): (State, set<Output>)
    requires Inv(s)
  {
    var (r, outs) := Touch(s, a, admit);
    if r.None? then (s, outs) else
    var t := r.value;
    if sn !in t.out then (t, outs)
    else
      var ro := t.out[sn];
      (SetOut(t, sn, ro.(rw := t.crw, armed := false, app := false)), outs + {HandRsp(a, sn, AppOf(ro))})
  }

  function OnSndRsp(s: State, a: Addr, sn: SeqNbr): (State, set<Output>)
    requires a in s.peers
  {
    var p := s.peers[a];
    if sn in p.rcvd then (SetPeer(s, a, p.(rcvd := p.rcvd[sn := s.crw])), {WriteRsp(a, sn)})
    else (s, {RspError(a, sn)})
  }

  // ----- clocks -----

  function PurgeRcvd(p: Peer, w: int): Peer {
    p.(rcvd := map n | n in p.rcvd && p.rcvd[n] != w :: p.rcvd[n])
  }

  function OnRspTick(s: State): (State, set<Output>) {
    var w := Toggle(s.crw);
    (s.(crw := w,
        out := map n | n in s.out && s.out[n].rw != w :: s.out[n],
        peers := map a | a in s.peers :: PurgeRcvd(s.peers[a], w)),
     set n | n in s.out && s.out[n].rw == w && s.out[n].app :: Free(s.out[n].req))
  }

  predicate Idle(p: Peer) {
    p.state == Started && !CheckActivity(p)
  }

  function NextCaw(s: State): nat {
    if s.caw + 1 >= s.naw then 0 else s.caw + 1
  }

  function OnActivityTick(s: State): (State, set<Output>)
    requires Inv(s)
  {
    var w := NextCaw(s);
    (s.(caw := w,
        peers := map a | a in s.peers ::
          NextWnd(if Idle(s.peers[a]) then IncActivity(s.peers[a]) else s.peers[a], w)),
     set a | a in s.peers && Idle(s.peers[a]) :: Heartbeat(a))
  }

  // ----- the step machine -----

  /** Which events can happen in a state.  T1 expiries come only from running
      timers; messages about a remote node hold a pointer to an existing one. */
  predicate Enabled(s: State, e: Event) {
    match e
    case SndReq(_, ro) => ro.peer in s.peers && !ro.armed && ro.rw == NO_RSP
    case SndRsp(a, _) => a in s.peers
    case T1Expiry(sn) => sn in s.out && s.out[sn].armed
    case ReqDecodeError(a, _) => a in s.peers
    case ChangePeer(a, _) => a in s.peers
    case _ => true
  }

  function Step(s: State, e: Event): (State, set<Output>)
    requires Inv(s) && Enabled(s, e)
  {
    match e
    case RcvReq(a, sn, admit, session) => OnRcvReq(s, a, sn, admit, session)
    case RcvRsp(a, sn, admit) => OnRcvRsp(s, a, sn, admit)
    case SndReq(sn, ro) => OnSndReq(s, sn, ro)
    case SndRsp(a, sn) => OnSndRsp(s, a, sn)
    case T1Expiry(sn) => OnT1Expiry(s, sn)
    case ReqDecodeError(a, sn) =>
      (SetPeer(s, a, s.peers[a].(rcvd := s.peers[a].rcvd - {sn})), {})
    case RspDecodeError(sn) =>
      (if sn in s.out then SetOut(s, sn, s.out[sn].(rw := NO_RSP)) else s, {})
    case RspTick => OnRspTick(s)
    case ActivityTick => OnActivityTick(s)
    case AddPeer(a, admit) =>
      if a in s.peers then
        if s.peers[a].state == Started then (s, {})
        else (SetPeer(s, a, s.peers[a].(state := Started)), {StateChange(a, Started)})
      else if admit then (SetPeer(s, a, NewPeer(s)), {StateChange(a, Started)})
      else (s, {})
    case ChangePeer(a, to) =>
      (SetPeer(s, a, s.peers[a].(state := to)), {StateChange(a, to)})
  }

  lemma TrySendInv(s: State, sn: SeqNbr)
    requires Inv(s) && sn in s.out && s.out[sn].rw == NO_RSP
    ensures Inv(TrySend(s, sn).1) && TrySend(s, sn).1.naw == s.naw
  {
  }

  lemma RcvReqInv(s: State, a: Addr, sn: SeqNbr, admit: bool, session: bool)
    requires Inv(s)
    ensures Inv(OnRcvReq(s, a, sn, admit, session).0) && OnRcvReq(s, a, sn, admit, session).0.naw == s.naw
  {
  }

  lemma RcvRspInv(s: State, a: Addr, sn: SeqNbr, admit: bool)
    requires Inv(s)
    ensures Inv(OnRcvRsp(s, a, sn, admit).0) && OnRcvRsp(s, a, sn, admit).0.naw == s.naw
  {
  }

  lemma T1ExpiryInv(s: State, sn: SeqNbr)
    requires Inv(s) && sn in s.out && s.out[sn].armed
    ensures Inv(OnT1Expiry(s, sn).0) && OnT1Expiry(s, sn).0.naw == s.naw
  {
    TrySendInv(SetOut(s, sn, s.out[sn].(armed := false)), sn);
  }

  lemma RspTickInv(s: State)
    requires Inv(s)
    ensures Inv(OnRspTick(s).0)
  {
  }

  lemma ActivityTickInv(s: State)
    requires Inv(s)
    ensures Inv(OnActivityTick(s).0)
  {
  }

  lemma SndReqInv(s: State, sn: SeqNbr, ro: ReqOut)
    requires Inv(s) && ro.peer in s.peers && !ro.armed && ro.rw == NO_RSP
    ensures Inv(OnSndReq(s, sn, ro).0) && OnSndReq(s, sn, ro).0.naw == s.naw
  {
    hide TrySend;
    if sn !in s.out { TrySendInv(SetOut(s, sn, ro), sn); }
  }

  lemma ReplyInv(s: State, e: Event)
    requires Inv(s) && Enabled(s, e) && (e.SndRsp? || e.ReqDecodeError? || e.RspDecodeError?)
    ensures Inv(Step(s, e).0) && Step(s, e).0.naw == s.naw
  {
  }

  lemma PeerEventInv(s: State, e: Event)
    requires Inv(s) && Enabled(s, e) && (e.AddPeer? || e.ChangePeer?)
    ensures Inv(Step(s, e).0) && Step(s, e).0.naw == s.naw
  {
  }

  /** Every step keeps the invariant and the configured number of activity windows. */
  lemma StepInv(s: State, e: Event)
    requires Inv(s) && Enabled(s, e)
    ensures Inv(Step(s, e).0) && Step(s, e).0.naw == s.naw
  {
    hide Inv, OnRcvReq, OnRcvRsp, OnSndReq, OnT1Expiry, OnSndRsp;
    match e {
      case RcvReq(a, sn, admit, session) => RcvReqInv(s, a, sn, admit, session);
      case RcvRsp(a, sn, admit) => RcvRspInv(s, a, sn, admit);
      case SndReq(sn, ro) => SndReqInv(s, sn, ro);
      case T1Expiry(sn) => T1ExpiryInv(s, sn);
      case RspTick => RspTickInv(s);
      case ActivityTick => ActivityTickInv(s);
      case AddPeer(_, _) => PeerEventInv(s, e);
      case ChangePeer(_, _) => PeerEventInv(s, e);
      case SndRsp(_, _) => ReplyInv(s, e);
      case ReqDecodeError(_, _) => ReplyInv(s, e);
      case RspDecodeError(_) => ReplyInv(s, e);
    }
  }
}
