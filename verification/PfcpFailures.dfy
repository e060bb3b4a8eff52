/** Runs of the PFCP machine on which a promise fails, event by event. */
module PfcpFailures {
  import opened PfcpModel
  import opened PfcpRuns
  import opened Wrappers

  const NODE: Addr := 1
  const NUMBER: SeqNbr := 7

  function Request(req: ReqId): ReqOut {
    ReqOut(req, NODE, false, true, 3, false, NO_RSP)
  }

  ghost predicate Ready(naw: nat, r: Run, e: Event) {
    IsRun(naw, r) && Enabled(StateAt(naw, r, |r|), e)
  }

  /** A run continued by one event that can happen. */
  lemma Continue(naw: nat, r: Run, e: Event) returns (longer: Run)
    requires Ready(naw, r, e)
    ensures IsRun(naw, longer) && |longer| == |r| + 1 && longer[..|r|] == r
    ensures longer[|r|].ev == e && Good(longer[|r|]) && longer[|r|].pre == StateAt(naw, r, |r|)
    ensures StateAt(naw, longer, |longer|) == longer[|r|].post
  {
    RunInv(naw, r, |r|);
    hide Inv, Step, Enabled;
    var s := StateAt(naw, r, |r|);
    var x := Rec(s, e, Step(s, e).0, Step(s, e).1);
    longer := r + [x];
    forall i | 0 <= i < |longer| ensures longer[i].pre == StateAt(naw, longer, i) && Legal(longer[i]) {
      if i < |r| {
        assert r[i].pre == StateAt(naw, r, i) && Legal(r[i]);
      }
    }
  }

  /** A node is added and a request sent to it under a number. */
  lemma Submitted() returns (r: Run)
    ensures IsRun(1, r) && |r| == 2
    ensures r[0].ev == AddPeer(NODE, true) && r[1].ev == SndReq(NUMBER, Request(0)) && !Collides(r[1])
    ensures NODE in StateAt(1, r, 2).peers && StateAt(1, r, 2).crw == RW_ONE
    ensures OutEntry(StateAt(1, r, 2), NUMBER) == Some(Request(0).(n1 := 2, armed := true))
  {
    r := Continue(1, [], AddPeer(NODE, true));
    r := Continue(1, r, SndReq(NUMBER, Request(0)));
  }

  /** The sequence number of a second request is still in use: its application message
      is handed back to the application and freed as well. */
  lemma CollisionDisposesTwice() returns (r: Run)
    ensures IsRun(1, r) && DistinctReqs(r) && |r| == 3
    ensures r[1].ev == SndReq(NUMBER, Request(0)) && r[2].ev == SndReq(NUMBER, Request(1))
    ensures r[2].outs == {SndError(Some(1)), Free(1)} && Parts(r, 3, 1) == 2
  {
    r := Submitted();
    var first := r;
    assert Enabled(StateAt(1, r, 2), SndReq(NUMBER, Request(1)));
    r := Continue(1, r, SndReq(NUMBER, Request(1)));
    assert r[0] == first[0] && r[1] == first[1];
    assert DistinctReqs(r);
    AccountHolds(1, r, 2, 3);
  }

  /** A response to the request arrives and cannot be decoded. */
  lemma Undecoded() returns (r: Run)
    ensures IsRun(1, r) && |r| == 4 && NODE in StateAt(1, r, 4).peers && Given(StateAt(1, r, 4))
    ensures r[2].ev == RcvRsp(NODE, NUMBER, true) && r[3].ev == RspDecodeError(NUMBER)
    ensures AcceptsRsp(r[2], NUMBER)
  {
    r := Submitted();
    r := Continue(1, r, RcvRsp(NODE, NUMBER, true));
    assert HandRsp(NODE, NUMBER, Some(0)) in r[2].outs;
    r := Continue(1, r, RspDecodeError(NUMBER));
  }

  /** The number is held although its application message is gone and no timer runs. */
  predicate Given(s: State) {
    Pinned(s, NUMBER) && !s.out[NUMBER].app
  }

  lemma Tick(r: Run) returns (longer: Run)
    requires IsRun(1, r) && NODE in StateAt(1, r, |r|).peers && Given(StateAt(1, r, |r|))
    ensures IsRun(1, longer) && |longer| == |r| + 1 && longer[..|r|] == r && longer[|r|].ev == RspTick
    ensures NODE in StateAt(1, longer, |longer|).peers && Given(StateAt(1, longer, |longer|))
  {
    longer := Continue(1, r, RspTick);
  }

  lemma Refused(r: Run) returns (longer: Run)
    requires IsRun(1, r) && NODE in StateAt(1, r, |r|).peers && NUMBER in StateAt(1, r, |r|).out
    ensures IsRun(1, longer) && |longer| == |r| + 1 && longer[..|r|] == r
    ensures longer[|r|].ev == SndReq(NUMBER, Request(1)) && Collides(longer[|r|])
    ensures SndError(Some(1)) in longer[|r|].outs
  {
    longer := Continue(1, r, SndReq(NUMBER, Request(1)));
  }

  /** Three ticks after a response that could not be decoded the answered request still
      holds its number, and a further request under it is turned away. */
  lemma DecodeErrorPins() returns (r: Run)
    ensures IsRun(1, r) && |r| == 8
    ensures r[2].ev == RcvRsp(NODE, NUMBER, true) && r[3].ev == RspDecodeError(NUMBER)
    ensures AcceptsRsp(r[2], NUMBER) && forall k | 4 <= k < 7 :: r[k].ev == RspTick
    ensures Given(StateAt(1, r, 7))
    ensures r[7].ev == SndReq(NUMBER, Request(1)) && Collides(r[7]) && SndError(Some(1)) in r[7].outs
  {
    hide IsRun, AcceptsRsp;
    var first := Undecoded();
    var second := Tick(first);
    var third := Tick(second);
    var fourth := Tick(third);
    r := Refused(fourth);
    assert r[6] == fourth[6] && r[5] == third[5] && r[4] == second[4];
    assert forall k | 0 <= k < 4 :: r[k] == first[k];
  }
}
