/** The send side of WebRtcVideoChannel: live streams, the SSRCs in use, the receiver-report SSRC. */
module SendStreams {
  type Ssrc = nat

  const DEFAULT_RTCP_RECEIVER_REPORT_SSRC: Ssrc := 1

  /** `primary` and `rtx` are what GetPrimarySsrcs and GetFidSsrcs yield. */
  datatype StreamParams = StreamParams(ssrcs: seq<Ssrc>, primary: seq<Ssrc>, rtx: seq<Ssrc>)

  /** Streams by key, each with its SSRCs. */
  datatype State = State(streams: map<Ssrc, seq<Ssrc>>, ssrcs: set<Ssrc>, reportSsrc: Ssrc)

  ghost function Members(ssrcs: seq<Ssrc>): set<Ssrc> {
    set x | x in ssrcs
  }

  ghost predicate AcceptableParams(sp: StreamParams) {
    && sp.ssrcs != []
    && (forall i :: 0 <= i < |sp.rtx| ==> sp.rtx[i] in sp.ssrcs)
    && (sp.rtx != [] ==> |sp.primary| == |sp.rtx|)
  }

  /* ---- invariant ---- */

  ghost predicate Keyed(s: State) {
    forall k :: k in s.streams ==> s.streams[k] != [] && s.streams[k][0] == k && k != 0
  }

  ghost predicate InUse(s: State, x: Ssrc) {
    exists k :: k in s.streams && x in s.streams[k]
  }

  ghost predicate Disjoint(s: State) {
    forall k, l, x :: k in s.streams && l in s.streams && x in s.streams[k] && x in s.streams[l] ==> k == l
  }

  /** The index is the disjoint union of the live streams' SSRCs, each stream sits under its first SSRC,
      and receiver reports carry the key of a live stream, or 1 if there is none. */
  ghost predicate Valid(s: State) {
    && Keyed(s) && Disjoint(s)
    && (forall x :: x in s.ssrcs <==> InUse(s, x))
    && (if s.streams == map[] then s.reportSsrc == DEFAULT_RTCP_RECEIVER_REPORT_SSRC else s.reportSsrc in s.streams)
  }

  /* ---- specification ---- */

  ghost predicate CanAdd(s: State, sp: StreamParams) {
    AcceptableParams(sp) && Members(sp.ssrcs) !! s.ssrcs
  }

  ghost function Added(s: State, sp: StreamParams): State
    requires CanAdd(s, sp)
  {
    var key := sp.ssrcs[0];
    State(s.streams[key := sp.ssrcs], s.ssrcs + Members(sp.ssrcs),
      if s.reportSsrc == DEFAULT_RTCP_RECEIVER_REPORT_SSRC then key else s.reportSsrc)
  }

  ghost predicate IsLeast(keys: set<Ssrc>, k: Ssrc) {
    k in keys && forall l :: l in keys ==> k <= l
  }

  /** begin()->first of a sorted map. */
  ghost function Least(keys: set<Ssrc>): (k: Ssrc)
    requires keys != {}
    ensures IsLeast(keys, k)
  {
    LeastExists(keys);
    var k :| IsLeast(keys, k);
    k
  }

  lemma {:induction false} LeastExists(keys: set<Ssrc>)
    requires keys != {}
    ensures exists k :: IsLeast(keys, k)
    decreases |keys|
  {
    var k: Ssrc :| k in keys;
    if keys == {k} {
      assert IsLeast(keys, k);
    } else {
      assert keys - {k} != {};
      LeastExists(keys - {k});
      var l :| IsLeast(keys - {k}, l);
      assert forall x :: x in keys ==> x == k || x in keys - {k};
      assert IsLeast(keys, if k <= l then k else l);
    }
  }

  ghost function Removed(s: State, ssrc: Ssrc): State
    requires ssrc in s.streams
  {
    var streams := s.streams - {ssrc};
    State(streams, s.ssrcs - Members(s.streams[ssrc]),
      if s.reportSsrc != ssrc then s.reportSsrc
      else if streams.Keys == {} then DEFAULT_RTCP_RECEIVER_REPORT_SSRC
      else Least(streams.Keys))
  }

  class SendSide {
    var sendStreams: map<Ssrc, seq<Ssrc>>
    var sendSsrcs: set<Ssrc>
    var rtcpReceiverReportSsrc: Ssrc

    ghost function View(): State
      reads this
    {
      State(sendStreams, sendSsrcs, rtcpReceiverReportSsrc)
    }

    constructor ()
      ensures View() == State(map[], {}, DEFAULT_RTCP_RECEIVER_REPORT_SSRC) && Valid(View())
    {
      sendStreams, sendSsrcs := map[], {};
      rtcpReceiverReportSsrc := DEFAULT_RTCP_RECEIVER_REPORT_SSRC;
    }

    method ValidateSendSsrcAvailability(sp: StreamParams) returns (ok: bool)
      ensures ok <==> Members(sp.ssrcs) !! sendSsrcs
    {
      for i := 0 to |sp.ssrcs|
        invariant forall k :: 0 <= k < i ==> sp.ssrcs[k] !in sendSsrcs
      {
        if sp.ssrcs[i] in sendSsrcs {
          assert sp.ssrcs[i] in Members(sp.ssrcs);
          return false;
        }
      }
      return true;
    }

    /** The source requires the first SSRC not to be 0. */
    method AddSendStream(sp: StreamParams) returns (ok: bool)
      requires sp.ssrcs != [] ==> sp.ssrcs[0] != 0
      modifies this
      ensures ok <==> CanAdd(old(View()), sp)
      ensures View() == if ok then Added(old(View()), sp) else old(View())
      ensures ok ==>
                && sp.ssrcs != [] && sendStreams == old(sendStreams)[sp.ssrcs[0] := sp.ssrcs]
                && (forall x :: x in sendSsrcs <==> x in old(sendSsrcs) || x in sp.ssrcs)
                && rtcpReceiverReportSsrc == if old(rtcpReceiverReportSsrc) == 1 then sp.ssrcs[0]
                                             else old(rtcpReceiverReportSsrc)
      ensures old(Valid(View())) ==> Valid(View())
    {
      ok := ValidateStreamParams(sp);
      if !ok {
        return;
      }
      ok := ValidateSendSsrcAvailability(sp);
      if !ok {
        return;
      }
      for i := 0 to |sp.ssrcs|
        invariant sendSsrcs == old(sendSsrcs) + Members(sp.ssrcs[..i])
        invariant sendStreams == old(sendStreams) && rtcpReceiverReportSsrc == old(rtcpReceiverReportSsrc)
      {
        sendSsrcs := sendSsrcs + {sp.ssrcs[i]};
        assert sp.ssrcs[..i + 1] == sp.ssrcs[..i] + [sp.ssrcs[i]];
      }
      assert sp.ssrcs[..|sp.ssrcs|] == sp.ssrcs;
      var ssrc := sp.ssrcs[0];
      sendStreams := sendStreams[ssrc := sp.ssrcs];
      if rtcpReceiverReportSsrc == DEFAULT_RTCP_RECEIVER_REPORT_SSRC {
        rtcpReceiverReportSsrc := ssrc;
      }
      if old(Valid(View())) {
        AddKeepsValid(old(View()), sp);
      }
    }

    method RemoveSendStream(ssrc: Ssrc) returns (ok: bool)
      modifies this
      ensures ok <==> ssrc in old(sendStreams)
      ensures View() == if ok then Removed(old(View()), ssrc) else old(View())
      ensures ok ==>
                && sendStreams == old(sendStreams) - {ssrc}
                && (forall x :: x in sendSsrcs <==> x in old(sendSsrcs) && x !in old(sendStreams)[ssrc])
                && (old(rtcpReceiverReportSsrc) != ssrc ==> rtcpReceiverReportSsrc == old(rtcpReceiverReportSsrc))
                && (old(rtcpReceiverReportSsrc) == ssrc ==>
                     if sendStreams == map[] then rtcpReceiverReportSsrc == 1
                     else rtcpReceiverReportSsrc in sendStreams && forall k :: k in sendStreams ==> rtcpReceiverReportSsrc <= k)
      ensures old(Valid(View())) ==> Valid(View())
    {
      if ssrc !in sendStreams {
        return false;
      }
      var gone := sendStreams[ssrc];
      for i := 0 to |gone|
        invariant sendSsrcs == old(sendSsrcs) - Members(gone[..i])
        invariant sendStreams == old(sendStreams) && rtcpReceiverReportSsrc == old(rtcpReceiverReportSsrc)
      {
        sendSsrcs := sendSsrcs - {gone[i]};
        assert gone[..i + 1] == gone[..i] + [gone[i]];
      }
      assert gone[..|gone|] == gone;
      sendStreams := sendStreams - {ssrc};
      if rtcpReceiverReportSsrc == ssrc {
        if sendStreams.Keys == {} {
          rtcpReceiverReportSsrc := DEFAULT_RTCP_RECEIVER_REPORT_SSRC;
        } else {
          rtcpReceiverReportSsrc := FirstKey(sendStreams);
        }
      }
      if old(Valid(View())) {
        RemoveKeepsValid(old(View()), ssrc);
      }
      return true;
    }
  }

  method ValidateStreamParams(sp: StreamParams) returns (ok: bool)
    ensures ok <==> AcceptableParams(sp)
  {
    if sp.ssrcs == [] {
      return false;
    }
    for i := 0 to |sp.rtx|
      invariant forall k :: 0 <= k < i ==> sp.rtx[k] in sp.ssrcs
    {
      var present := false;
      for j := 0 to |sp.ssrcs|
        invariant present <==> sp.rtx[i] in sp.ssrcs[..j]
      {
        if sp.ssrcs[j] == sp.rtx[i] {
          present := true;
        }
        assert sp.ssrcs[..j + 1] == sp.ssrcs[..j] + [sp.ssrcs[j]];
      }
      assert sp.ssrcs[..|sp.ssrcs|] == sp.ssrcs;
      if !present {
        return false;
      }
    }
    if sp.rtx != [] && |sp.primary| != |sp.rtx| {
      return false;
    }
    return true;
  }

  method FirstKey(streams: map<Ssrc, seq<Ssrc>>) returns (k: Ssrc)
    requires streams.Keys != {}
    ensures k == Least(streams.Keys)
  {
    var items := streams.Items;
    assert items != {} by {
      var any: Ssrc :| any in streams;
      assert (any, streams[any]) in items;
    }
    var first :| first in items;
    assert first.0 in streams;
    k := first.0;
    while items != {}
      invariant items <= streams.Items && k in streams
      invariant forall l :: l in streams && (l, streams[l]) !in items ==> k <= l
    {
      var item :| item in items;
      var key := item.0;
      assert key in streams;
      if key < k {
        k := key;
      }
      items := items - {item};
    }
    assert IsLeast(streams.Keys, k);
  }

  /* ---- lemmas ---- */

  lemma AddKeepsValid(s: State, sp: StreamParams)
    requires Valid(s) && CanAdd(s, sp) && sp.ssrcs[0] != 0
    ensures Valid(Added(s, sp))
  {
    var t, key := Added(s, sp), sp.ssrcs[0];
    assert key in Members(sp.ssrcs);
    if key in s.streams {
      assert InUse(s, key);
      assert false;
    }
    forall x ensures x in t.ssrcs <==> InUse(t, x) {
      if InUse(s, x) {
        var k :| k in s.streams && x in s.streams[k];
        assert x in t.streams[k];
      }
      if x in sp.ssrcs {
        assert x in t.streams[key];
      }
    }
    forall x | x in sp.ssrcs ensures !InUse(s, x) {
      assert x in Members(sp.ssrcs);
    }
    assert Disjoint(t);
    assert key in t.streams;
  }

  lemma RemoveKeepsValid(s: State, ssrc: Ssrc)
    requires Valid(s) && ssrc in s.streams
    ensures Valid(Removed(s, ssrc))
  {
    var t := Removed(s, ssrc);
    forall x ensures x in t.ssrcs <==> InUse(t, x) {
      if InUse(t, x) {
        var k :| k in t.streams && x in t.streams[k];
        assert k in s.streams && x in s.streams[k] && InUse(s, x);
        assert x in s.streams[ssrc] ==> k == ssrc;
      }
      if x in t.ssrcs {
        var k :| k in s.streams && x in s.streams[k];
        assert k != ssrc;
        assert k in t.streams && x in t.streams[k];
      }
    }
    assert t.streams == map[] <==> t.streams.Keys == {};
  }

  datatype Op = AddStream(params: StreamParams) | RemoveStream(ssrc: Ssrc)

  /** A refused call changes nothing. */
  ghost function Step(s: State, op: Op): State {
    match op
    case AddStream(sp) => if CanAdd(s, sp) then Added(s, sp) else s
    case RemoveStream(ssrc) => if ssrc in s.streams then Removed(s, ssrc) else s
  }

  ghost function Run(s: State, ops: seq<Op>): State {
    if ops == [] then s else Step(Run(s, ops[..|ops| - 1]), ops[|ops| - 1])
  }

  /** The invariant holds in every state that adds and removes can reach. */
  lemma {:induction false} RunKeepsValid(s: State, ops: seq<Op>)
    requires Valid(s)
    requires forall i :: 0 <= i < |ops| && ops[i].AddStream? && ops[i].params.ssrcs != [] ==> ops[i].params.ssrcs[0] != 0
    ensures Valid(Run(s, ops))
  {
    if ops != [] {
      var before := ops[..|ops| - 1];
      RunKeepsValid(s, before);
      match ops[|ops| - 1]
      case AddStream(sp) =>
        if CanAdd(Run(s, before), sp) {
          AddKeepsValid(Run(s, before), sp);
        }
      case RemoveStream(ssrc) =>
        if ssrc in Run(s, before).streams {
          RemoveKeepsValid(Run(s, before), ssrc);
        }
    }
  }

  /** Removing the stream just added restores everything, the receiver-report SSRC included. */
  lemma RemoveUndoesAdd(s: State, sp: StreamParams)
    requires Valid(s) && CanAdd(s, sp) && sp.ssrcs[0] != 0
    ensures sp.ssrcs[0] in Added(s, sp).streams
    ensures Removed(Added(s, sp), sp.ssrcs[0]) == s
  {
    var t, key := Added(s, sp), sp.ssrcs[0];
    assert key in Members(sp.ssrcs);
    if key in s.streams {
      assert InUse(s, key);
      assert false;
    }
    var u := Removed(t, key);
    assert u.streams == s.streams;
    assert u.ssrcs == s.ssrcs;
    if s.streams == map[] {
      assert t.reportSsrc == key && u.streams.Keys == {};
    } else if s.reportSsrc == DEFAULT_RTCP_RECEIVER_REPORT_SSRC {
      assert IsLeast(s.streams.Keys, 1);
      assert u.reportSsrc == Least(s.streams.Keys) == 1;
    }
  }
}
