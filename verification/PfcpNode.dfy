/** The PFCP local node as the objects the handlers update in place, proved to
    follow the step machine of PfcpModel: every handler's new state and outputs
    are those of the corresponding step. */
module PfcpNode {
  import opened PfcpModel
  import opened Wrappers

  /** A remote node: the requests received from it and its ring of activity windows. */
  class RemoteNode {
    const addr: Addr
    var state: PeerState
    var rrumap: map<SeqNbr, int>
    var awnds: seq<nat>
    var awndcnt: nat
    var aw: nat

    constructor (addr: Addr, nbr: nat)
      ensures this.addr == addr
      ensures View() == Peer(Initialized, map[], seq(nbr, i => 0), 0, 0)
    {
      this.addr := addr;
      state := Initialized;
      rrumap := map[];
      awnds := seq(nbr, i => 0);
      awndcnt := 0;
      aw := 0;
    }

    function View(): Peer
      reads this
    {
      Peer(state, rrumap, awnds, awndcnt, aw)
    }

    method AddRcvdReq(sn: SeqNbr) returns (added: bool)
      modifies this`rrumap
      ensures added <==> sn !in old(rrumap)
      ensures rrumap == if added then old(rrumap)[sn := NO_RSP] else old(rrumap)
    {
      if sn in rrumap {
        return false;
      }
      rrumap := rrumap[sn := NO_RSP];
      added := true;
    }

    method SetRcvdReqRspWnd(sn: SeqNbr, wnd: int) returns (found: bool)
      modifies this`rrumap
      ensures found <==> sn in old(rrumap)
      ensures rrumap == if found then old(rrumap)[sn := wnd] else old(rrumap)
    {
      if sn !in rrumap {
        return false;
      }
      rrumap := rrumap[sn := wnd];
      found := true;
    }

    method DelRcvdReq(sn: SeqNbr)
      modifies this`rrumap
      ensures rrumap == old(rrumap) - {sn}
    {
      rrumap := rrumap - {sn};
    }

    /** Erase while iterating: every entry is visited once, in some order. */
    method RemoveOldReqs(rw: int)
      modifies this`rrumap
      ensures View() == PurgeRcvd(old(View()), rw)
    {
      var todo := rrumap.Keys;
      while todo != {}
        invariant todo <= rrumap.Keys
        invariant forall n :: n in rrumap <==>
                    n in old(rrumap) && (n in todo || old(rrumap)[n] != rw)
        invariant forall n <- rrumap :: rrumap[n] == old(rrumap)[n]
        decreases todo
      {
        var n :| n in todo;
        if rrumap[n] == rw {
          rrumap := rrumap - {n};
        }
        todo := todo - {n};
      }
    }

    method NextActivityWnd(wnd: nat)
      requires wnd < |awnds|
      modifies this`aw, this`awndcnt, this`awnds
      ensures View() == NextWnd(old(View()), wnd)
    {
      aw := wnd;
      if awndcnt < |awnds| {
        awndcnt := awndcnt + 1;
      }
      awnds := awnds[aw := 0];
    }

    method IncrementActivity()
      requires aw < |awnds|
      modifies this`awnds
      ensures View() == IncActivity(old(View()))
    {
      awnds := awnds[aw := awnds[aw] + 1];
    }

    method HasActivity() returns (active: bool)
      ensures active <==> CheckActivity(View())
    {
      if awndcnt < |awnds| {
        return true;
      }
      for i := 0 to |awnds|
        invariant forall k | 0 <= k < i :: awnds[k] == 0
      {
        if awnds[i] > 0 {
          return true;
        }
      }
      active := false;
    }

    /** Whether a heartbeat is to be sent; if so it counts as activity. */
    method HeartbeatDue() returns (due: bool)
      requires aw < |awnds|
      modifies this`awnds
      ensures due == Idle(old(View()))
      ensures View() == if due then IncActivity(old(View())) else old(View())
    {
      hide CheckActivity;
      due := false;
      if state == Started {
        var active := HasActivity();
        if !active {
          due := true;
          IncrementActivity();
        }
      }
    }

    method ChangeState(to: PeerState) returns (outs: set<Output>)
      modifies this`state
      ensures state == to && outs == {StateChange(addr, to)}
    {
      state := to;
      outs := {StateChange(addr, to)};
    }
  }

  /** An outgoing request object. */
  class RequestOut {
    const req: ReqId
    const seqNbr: SeqNbr
    const remote: RemoteNode
    const heartbeat: bool
    var hasApp: bool
    var n1: int
    var t1Running: bool
    var rspWnd: int

    constructor (req: ReqId, seqNbr: SeqNbr, remote: RemoteNode, heartbeat: bool, hasApp: bool, n1: int)
      ensures this.remote == remote && this.seqNbr == seqNbr
      ensures View() == ReqOut(req, remote.addr, heartbeat, hasApp, n1, false, NO_RSP)
    {
      this.req := req;
      this.seqNbr := seqNbr;
      this.remote := remote;
      this.heartbeat := heartbeat;
      this.hasApp := hasApp;
      this.n1 := n1;
      t1Running := false;
      rspWnd := NO_RSP;
    }

    function View(): ReqOut
      reads this
    {
      ReqOut(req, remote.addr, heartbeat, hasApp, n1, t1Running, rspWnd)
    }

    /** Consumes one transmission attempt, if one is left. */
    method OkToSnd() returns (ok: bool)
      modifies this`n1
      ensures ok <==> old(n1) >= 1
      ensures n1 == if ok then old(n1) - 1 else old(n1)
    {
      if n1 < 1 {
        return false;
      }
      n1 := n1 - 1;
      ok := true;
    }
  }

  /** A local node together with the clocks of the communication thread. */
  class LocalNode {
    const naw: nat
    var caw: nat
    var crw: int
    var roumap: map<SeqNbr, RequestOut>
    var rns: map<Addr, RemoteNode>

    constructor (naw: nat)
      requires naw >= 1
      ensures Valid() && View() == Init(naw)
      ensures fresh(roumap.Values) && fresh(rns.Values)
    {
      this.naw := naw;
      caw := 0;
      crw := RW_ONE;
      roumap := map[];
      rns := map[];
    }

    ghost function View(): State
      reads this, roumap.Values, rns.Values
    {
      State(naw, caw, crw,
            map n | n in roumap :: roumap[n].View(),
            map a | a in rns :: rns[a].View())
    }

    /** Each request object is stored under its own sequence number, each remote
        node under its own address, and requests point to stored remote nodes. */
    ghost predicate Linked()
      reads this
    {
      && (forall n <- roumap :: roumap[n].seqNbr == n)
      && Keyed()
      && (forall n <- roumap :: roumap[n].remote.addr in rns && rns[roumap[n].remote.addr] == roumap[n].remote)
    }

    /** Remote nodes are distinct objects, each under its own address. */
    ghost predicate Keyed()
      reads this`rns
    {
      forall a <- rns :: rns[a].addr == a
    }

    ghost predicate Valid()
      reads this, roumap.Values, rns.Values
    {
      Linked() && Inv(View())
    }

    /** Only remote node `rn` has changed. */
    twostate lemma PeerUpdated(rn: RemoteNode)
      requires old(Linked()) && rns == old(rns) && roumap == old(roumap) && caw == old(caw) && crw == old(crw)
      requires rn.addr in rns && rns[rn.addr] == rn
      requires forall a <- rns :: a != rn.addr ==> unchanged(rns[a])
      requires forall n <- roumap :: unchanged(roumap[n])
      ensures View() == SetPeer(old(View()), rn.addr, rn.View())
    {
      assert View().out == old(View()).out;
      assert View().peers == old(View()).peers[rn.addr := rn.View()];
    }

    /** A new remote node has been added. */
    twostate lemma PeerAdded(new rn: RemoteNode)
      requires old(Linked()) && roumap == old(roumap) && caw == old(caw) && crw == old(crw)
      requires rn.addr !in old(rns) && rns == old(rns)[rn.addr := rn]
      requires forall a <- old(rns) :: unchanged(old(rns)[a])
      requires forall n <- roumap :: unchanged(roumap[n])
      ensures View() == SetPeer(old(View()), rn.addr, rn.View())
    {
      assert View().out == old(View()).out;
      assert View().peers == old(View()).peers[rn.addr := rn.View()];
    }

    /** Only request `ro` has changed. */
    twostate lemma RequestUpdated(ro: RequestOut)
      requires old(Linked()) && rns == old(rns) && roumap == old(roumap) && caw == old(caw) && crw == old(crw)
      requires ro.seqNbr in roumap && roumap[ro.seqNbr] == ro
      requires forall a <- rns :: unchanged(rns[a])
      requires forall n <- roumap :: n != ro.seqNbr ==> unchanged(roumap[n])
      ensures View() == SetOut(old(View()), ro.seqNbr, ro.View())
    {
      assert View().out == old(View()).out[ro.seqNbr := ro.View()];
      assert View().peers == old(View()).peers;
    }

    /** Request `ro` has been stored under a free sequence number. */
    twostate lemma RequestAdded(ro: RequestOut)
      requires rns == old(rns) && caw == old(caw) && crw == old(crw)
      requires ro.seqNbr !in old(roumap) && roumap == old(roumap)[ro.seqNbr := ro]
      requires unchanged(ro) && unchanged(rns.Values) && unchanged(old(roumap).Values)
      ensures View() == SetOut(old(View()), ro.seqNbr, ro.View())
    {
      assert View().out == old(View()).out[ro.seqNbr := ro.View()];
      assert View().peers == old(View()).peers;
    }

    /** The request stored under `n` has been taken out. */
    twostate lemma RequestRemoved(n: SeqNbr)
      requires rns == old(rns) && caw == old(caw) && crw == old(crw)
      requires roumap == old(roumap) - {n}
      requires unchanged(rns.Values) && unchanged(old(roumap).Values)
      ensures View() == old(View()).(out := old(View()).out - {n})
    {
      assert View().out == old(View()).out - {n};
      assert View().peers == old(View()).peers;
    }

    // ----- datagrams -----

    /** Find or create the sender of a datagram and count its activity. */
    method Arrive(src: Addr, admit: bool) returns (rn: RemoteNode?, outs: set<Output>)
      requires Valid()
      modifies this`rns, rns.Values
      ensures Linked() && roumap == old(roumap)
      ensures forall a <- old(rns) :: a in rns && rns[a] == old(rns)[a]
      ensures fresh(rns.Values - old(rns.Values))
      ensures outs == Touch(old(View()), src, admit).1
      ensures rn == null <==> Touch(old(View()), src, admit).0.None?
      ensures rn == null ==> View() == old(View())
      ensures rn != null ==> View() == Touch(old(View()), src, admit).0.value && src in rns && rn == rns[src]
    {
      outs := {};
      if src in rns {
        rn := rns[src];
        ViewAt(src);
        if rn.state != Started {
          outs := rn.ChangeState(Started);
        }
        rn.IncrementActivity();
        PeerUpdated(rn);
      } else if admit {
        rn, outs := CreateRemoteNode(src);
        rn.IncrementActivity();
        PeerAdded(rn);
      } else {
        return null, {};
      }
    }

    method CreateRemoteNode(src: Addr) returns (rn: RemoteNode, outs: set<Output>)
      requires Linked() && caw < naw && src !in rns
      modifies this`rns
      ensures fresh(rn) && rn.addr == src && rns == old(rns)[src := rn] && Linked()
      ensures rn.View() == NewPeer(old(View()))
      ensures outs == {StateChange(src, Started)}
    {
      rn := new RemoteNode(src, naw);
      rn.NextActivityWnd(caw);
      rns := rns[src := rn];
      outs := rn.ChangeState(Started);
    }

    method OnReceiveReq(src: Addr, sn: SeqNbr, admit: bool, session: bool) returns (outs: set<Output>)
      requires Valid()
      modifies this`rns, rns.Values
      ensures Valid() && fresh(rns.Values - old(rns.Values))
      ensures (View(), outs) == Step(old(View()), RcvReq(src, sn, admit, session))
    {
      hide View, Touch;
      StepInv(View(), RcvReq(src, sn, admit, session));
      var rn;
      rn, outs := Arrive(src, admit);
      if rn == null {
        return;
      }
      label arrived:
      ViewAt(src);
      if sn !in rn.rrumap && session {
        var added := rn.AddRcvdReq(sn);
        if added {
          outs := outs + {Deliver(src, sn)};
        }
        PeerUpdated@arrived(rn);
      }
    }

    /** What the abstract state says about one remote node or request. */
    lemma ViewAt(a: Addr)
      ensures a in View().peers <==> a in rns
      ensures a in rns ==> View().peers[a] == rns[a].View()
    {
    }

    lemma ViewOut(n: SeqNbr)
      ensures View().crw == crw
      ensures n in View().out <==> n in roumap
      ensures n in roumap ==> View().out[n] == roumap[n].View()
    {
    }

    method OnReceiveRsp(src: Addr, sn: SeqNbr, admit: bool) returns (outs: set<Output>)
      requires Valid()
      modifies this`rns, rns.Values, roumap.Values
      ensures Valid() && fresh(rns.Values - old(rns.Values))
      ensures (View(), outs) == Step(old(View()), RcvRsp(src, sn, admit))
    {
      hide View, Touch, Inv;
      StepInv(View(), RcvRsp(src, sn, admit));
      var rn;
      rn, outs := Arrive(src, admit);
      if rn == null {
        return;
      }
      label arrived:
      ViewOut(sn);
      if sn in roumap {
        var ro := roumap[sn];
        ro.rspWnd := crw;
        ro.t1Running := false;
        outs := outs + {HandRsp(src, sn, if ro.hasApp then Some(ro.req) else None)};
        ro.hasApp := false;
        RequestUpdated@arrived(ro);
      }
    }

    // ----- outgoing requests -----

    /** One transmission attempt. */
    method SndReq(ro: RequestOut) returns (ok: bool, outs: set<Output>)
      requires Linked() && ro.seqNbr in roumap && roumap[ro.seqNbr] == ro
      modifies ro, ro.remote`state
      ensures Linked()
      ensures (ok, View(), outs) == TrySend(old(View()), ro.seqNbr)
    {
      hide View;
      ViewOut(ro.seqNbr);
      ViewAt(ro.remote.addr);
      ok := ro.OkToSnd();
      if ok {
        outs := {WriteReq(ro.req, ro.remote.addr, ro.seqNbr)};
        ro.t1Running := true;
        RequestUpdated(ro);
      } else {
        label attempt:
        if ro.heartbeat {
          outs := ro.remote.ChangeState(Failed);
          PeerUpdated(ro.remote);
          if ro.hasApp {
            outs := outs + {Free(ro.req)};
          }
          assert outs == {StateChange(ro.remote.addr, Failed)} + Destroy(ro.View());
        } else {
          outs := {Timeout(if ro.hasApp then Some(ro.req) else None)};
        }
        label notified:
        ro.hasApp := false;
        RequestUpdated@notified(ro);
      }
    }

    method SndInitialReq(ro: RequestOut) returns (outs: set<Output>)
      requires Valid() && ro !in roumap.Values
      requires ro.remote.addr in rns && rns[ro.remote.addr] == ro.remote
      requires !ro.t1Running && ro.rspWnd == NO_RSP
      modifies this`roumap, ro, ro.remote`state
      ensures Valid()
      ensures (View(), outs) == Step(old(View()), PfcpModel.Event.SndReq(ro.seqNbr, old(ro.View())))
    {
      hide Inv, TrySend, View;
      StepInv(View(), PfcpModel.Event.SndReq(ro.seqNbr, ro.View())) by { ViewAt(ro.remote.addr); }
      ViewOut(ro.seqNbr);
      if ro.seqNbr !in roumap {
        roumap := roumap[ro.seqNbr := ro];
        RequestAdded(ro);
        var ok;
        ok, outs := SndReq(ro);
      } else {
        outs := {SndError(if ro.hasApp then Some(ro.req) else None)};
        if ro.hasApp {
          outs := outs + {Free(ro.req)};
        }
        assert outs == {SndError(AppOf(ro.View()))} + Destroy(ro.View());
      }
    }

    method OnReqOutTimeout(ro: RequestOut) returns (outs: set<Output>)
      requires Valid() && ro.seqNbr in roumap && roumap[ro.seqNbr] == ro && ro.t1Running
      modifies this`roumap, ro, ro.remote`state
      ensures Valid()
      ensures (View(), outs) == Step(old(View()), T1Expiry(ro.seqNbr))
    {
      hide Inv, TrySend, View;
      ViewOut(ro.seqNbr);
      ViewAt(ro.remote.addr);
      StepInv(View(), T1Expiry(ro.seqNbr));
      ro.t1Running := false;
      RequestUpdated(ro);
      var ok;
      ok, outs := SndReq(ro);
      if !ok {
        label given_up:
        roumap := roumap - {ro.seqNbr};
        RequestRemoved@given_up(ro.seqNbr);
      }
    }

    // ----- responses and decode errors -----

    method SndRspTo(rn: RemoteNode, sn: SeqNbr) returns (outs: set<Output>)
      requires Valid() && rn.addr in rns && rns[rn.addr] == rn
      modifies rn`rrumap
      ensures Valid()
      ensures (View(), outs) == Step(old(View()), SndRsp(rn.addr, sn))
    {
      StepInv(View(), SndRsp(rn.addr, sn));
      var found := rn.SetRcvdReqRspWnd(sn, crw);
      outs := if found then {WriteRsp(rn.addr, sn)} else {RspError(rn.addr, sn)};
      PeerUpdated(rn);
    }

    method OnRcvdReqError(rn: RemoteNode, sn: SeqNbr)
      requires Valid() && rn.addr in rns && rns[rn.addr] == rn
      modifies rn`rrumap
      ensures Valid()
      ensures View() == Step(old(View()), ReqDecodeError(rn.addr, sn)).0
    {
      StepInv(View(), ReqDecodeError(rn.addr, sn));
      rn.DelRcvdReq(sn);
      PeerUpdated(rn);
    }

    /** Used on a response decode error, with window `NO_RSP`. */
    method SetRqstOutRespWnd(sn: SeqNbr, wnd: int) returns (found: bool)
      requires Valid() && wnd == NO_RSP
      modifies roumap.Values
      ensures Valid() && (found <==> sn in roumap)
      ensures View() == Step(old(View()), RspDecodeError(sn)).0
    {
      StepInv(View(), RspDecodeError(sn));
      hide Inv;
      found := sn in roumap;
      if found {
        roumap[sn].rspWnd := wnd;
        RequestUpdated(roumap[sn]);
      }
    }

    // ----- clocks -----

    static ghost function Survivors(ros: map<SeqNbr, RequestOut>, rw: int): map<SeqNbr, RequestOut>
      reads ros.Values
    {
      map n | n in ros && ros[n].rspWnd != rw :: ros[n]
    }

    /** What destroying the requests in window `rw` frees. */
    static ghost function Freed(ros: map<SeqNbr, RequestOut>, rw: int): set<Output>
      reads ros.Values
    {
      set n | n in ros && ros[n].rspWnd == rw && ros[n].hasApp :: Free(ros[n].req)
    }

    /** Erase the request objects in response window `rw`, destroying each. */
    method PurgeRequests(rw: int) returns (outs: set<Output>)
      modifies this`roumap
      ensures roumap == Survivors(old(roumap), rw)
      ensures outs == Freed(old(roumap), rw)
    {
      outs := {};
      ghost var was := roumap;
      var todo := roumap.Keys;
      while todo != {}
        invariant todo <= roumap.Keys
        invariant forall n :: n in roumap <==> n in was && (n in todo || was[n].rspWnd != rw)
        invariant forall n <- roumap :: roumap[n] == was[n]
        invariant outs == set n | n in was && n !in todo && was[n].rspWnd == rw && was[n].hasApp :: Free(was[n].req)
        decreases todo
      {
        var n :| n in todo;
        var ro := roumap[n];
        if ro.rspWnd == rw {
          roumap := roumap - {n};
          if ro.hasApp {
            outs := outs + {Free(ro.req)};
          }
        }
        todo := todo - {n};
      }
    }

    method PurgePeers(rw: int)
      requires Keyed()
      modifies rns.Values
      ensures forall a <- rns :: rns[a].View() == PurgeRcvd(old(rns[a].View()), rw)
    {
      var todo := rns.Keys;
      while todo != {}
        modifies rns.Values
        invariant todo <= rns.Keys
        invariant forall a <- rns :: rns[a].View() ==
                    if a in todo then old(rns[a].View()) else PurgeRcvd(old(rns[a].View()), rw)
        decreases todo
      {
        var a :| a in todo;
        rns[a].RemoveOldReqs(rw);
        todo := todo - {a};
      }
    }

    /** A step that ages every remote node with `crw` and thins the map of requests. */
    twostate lemma Aged(outs: set<Output>)
      requires old(Linked()) && rns == old(rns) && caw == old(caw) && crw == Toggle(old(crw))
      requires roumap == Survivors(old(roumap), crw)
      requires unchanged(old(roumap).Values)
      requires forall a <- rns :: rns[a].View() == PurgeRcvd(old(rns[a].View()), crw)
      requires outs == Freed(old(roumap), crw)
      ensures Linked() && (View(), outs) == OnRspTick(old(View()))
    {
      hide PurgeRcvd, Inv;
      var want := OnRspTick(old(View()));
      assert View().out == want.0.out;
      assert View().peers == want.0.peers;
      AgedOutputs(outs);
    }

    twostate lemma AgedOutputs(outs: set<Output>)
      requires old(Linked()) && crw == Toggle(old(crw))
      requires unchanged(old(roumap).Values)
      requires outs == Freed(old(roumap), crw)
      ensures outs == OnRspTick(old(View())).1
    {
      hide PurgeRcvd, Inv;
      var want := OnRspTick(old(View())).1;
      forall o | o in want ensures o in outs {
        var n :| n in old(View()).out && old(View()).out[n].rw == crw && old(View()).out[n].app
                 && o == Free(old(View()).out[n].req);
        assert n in old(roumap) && old(roumap)[n].rspWnd == crw;
      }
      forall o | o in outs ensures o in want {
        var n :| n in old(roumap) && old(roumap)[n].rspWnd == crw && old(roumap)[n].hasApp
                 && o == Free(old(roumap)[n].req);
        assert n in old(View()).out && old(View()).out[n].rw == crw;
      }
    }

    static lemma RspTickStep(s: State)
      requires Inv(s)
      ensures Step(s, RspTick) == OnRspTick(s) && Inv(OnRspTick(s).0)
    {
      RspTickInv(s);
    }

    method OnRspTimer() returns (outs: set<Output>)
      requires Valid()
      modifies this`crw, this`roumap, rns.Values
      ensures Valid()
      ensures (View(), outs) == Step(old(View()), RspTick)
    {
      hide Step, Inv, View, OnRspTick, PurgeRcvd, Survivors, Freed;
      RspTickStep(View());
      crw := Toggle(crw);
      outs := PurgeRequests(crw);
      PurgePeers(crw);
      Aged(outs);
    }

    /** Ask for a heartbeat to every started remote node without recent activity,
        and count that as activity. */
    method SendHeartbeats() returns (outs: set<Output>)
      requires Keyed() && forall a <- rns :: rns[a].aw < |rns[a].awnds|
      modifies rns.Values
      ensures forall a <- rns :: rns[a].View() ==
                var p := old(rns[a].View()); if Idle(p) then IncActivity(p) else p
      ensures outs == set a | a in rns && Idle(old(rns[a].View())) :: Heartbeat(a)
    {
      hide Idle, IncActivity;
      outs := {};
      var todo := rns.Keys;
      while todo != {}
        modifies rns.Values
        invariant todo <= rns.Keys
        invariant forall a <- rns :: rns[a].View() ==
                    var p := old(rns[a].View()); if a !in todo && Idle(p) then IncActivity(p) else p
        invariant outs == set a | a in rns && a !in todo && Idle(old(rns[a].View())) :: Heartbeat(a)
        decreases todo
      {
        var a :| a in todo;
        var due := rns[a].HeartbeatDue();
        if due {
          outs := outs + {Heartbeat(a)};
        }
        todo := todo - {a};
      }
    }

    method AdvancePeers()
      requires Keyed() && caw < naw && forall a <- rns :: |rns[a].awnds| == naw
      modifies rns.Values
      ensures forall a <- rns :: rns[a].View() == NextWnd(old(rns[a].View()), caw)
    {
      var todo := rns.Keys;
      while todo != {}
        modifies rns.Values
        invariant todo <= rns.Keys
        invariant forall a <- rns :: rns[a].View() ==
                    if a in todo then old(rns[a].View()) else NextWnd(old(rns[a].View()), caw)
        decreases todo
      {
        var a :| a in todo;
        rns[a].NextActivityWnd(caw);
        todo := todo - {a};
      }
    }

    /** Every remote node has had its heartbeat check and opened the next window. */
    twostate lemma Advanced(outs: set<Output>)
      requires old(Linked()) && old(Inv(View()))
      requires rns == old(rns) && roumap == old(roumap) && crw == old(crw) && caw == NextCaw(old(View()))
      requires forall n <- roumap :: unchanged(roumap[n])
      requires outs == set a | a in rns && Idle(old(rns[a].View())) :: Heartbeat(a)
      requires forall a <- rns ::
                 var p := old(rns[a].View());
                 PeerInv(old(View()), p) && rns[a].View() == NextWnd(if Idle(p) then IncActivity(p) else p, caw)
      ensures (View(), outs) == OnActivityTick(old(View()))
    {
      hide NextWnd, IncActivity, Idle, PeerInv, ReqInv;
      var want := OnActivityTick(old(View()));
      assert View().out == want.0.out;
      assert View().peers == want.0.peers;
      assert outs == want.1;
    }

    method NextActivityWnd()
      requires Keyed() && naw >= 1 && forall a <- rns :: |rns[a].awnds| == naw
      modifies this`caw, rns.Values
      ensures caw == (if old(caw) + 1 >= naw then 0 else old(caw) + 1)
      ensures caw < naw && forall a <- rns :: rns[a].View() == NextWnd(old(rns[a].View()), caw)
    {
      caw := caw + 1;
      if caw >= naw {
        caw := 0;
      }
      AdvancePeers();
    }

    lemma SameRing(p: Peer, a: Addr)
      requires p.aw < |p.awnds| == naw
      requires a in rns && rns[a].View() == (if Idle(p) then IncActivity(p) else p)
      ensures |rns[a].awnds| == naw
    {
    }

    lemma TickReady()
      requires Valid()
      ensures caw < naw && NextCaw(View()) == if caw + 1 >= naw then 0 else caw + 1
      ensures Step(View(), ActivityTick) == OnActivityTick(View()) && Inv(OnActivityTick(View()).0)
      ensures forall a <- rns ::
                PeerInv(View(), rns[a].View()) && |rns[a].awnds| == naw && rns[a].aw < |rns[a].awnds|
    {
      StepInv(View(), ActivityTick);
      forall a <- rns
        ensures PeerInv(View(), rns[a].View()) && |rns[a].awnds| == naw && rns[a].aw < |rns[a].awnds|
      {
        ViewAt(a);
      }
    }

    method OnActivityTimer() returns (outs: set<Output>)
      requires Valid()
      modifies this`caw, rns.Values
      ensures Valid()
      ensures (View(), outs) == Step(old(View()), ActivityTick)
    {
      hide Inv, View, OnActivityTick, Step, NextWnd, IncActivity, Idle, PeerInv;
      TickReady();
      outs := SendHeartbeats();
      forall a <- rns ensures |rns[a].awnds| == naw { SameRing(old(rns[a].View()), a); }
      NextActivityWnd();
      Advanced(outs);
    }

    // ----- the application -----

    /** Create a remote node or restart one that is not started. */
    method AddRemoteNode(src: Addr, admit: bool) returns (outs: set<Output>)
      requires Valid()
      modifies this`rns, rns.Values
      ensures Valid() && fresh(rns.Values - old(rns.Values))
      ensures (View(), outs) == Step(old(View()), AddPeer(src, admit))
    {
      StepInv(View(), AddPeer(src, admit));
      outs := {};
      if src in rns {
        if rns[src].state != Started {
          outs := rns[src].ChangeState(Started);
          PeerUpdated(rns[src]);
        }
      } else if admit {
        var rn;
        rn, outs := CreateRemoteNode(src);
        PeerAdded(rn);
      }
    }

    method ChangeRemoteState(rn: RemoteNode, to: PeerState) returns (outs: set<Output>)
      requires Valid() && rn.addr in rns && rns[rn.addr] == rn
      modifies rn`state
      ensures Valid()
      ensures (View(), outs) == Step(old(View()), ChangePeer(rn.addr, to))
    {
      StepInv(View(), ChangePeer(rn.addr, to));
      outs := rn.ChangeState(to);
      PeerUpdated(rn);
    }
  }
}
