/** RtcpMuxFilter, and two filters at the ends of one negotiation (RFC 5761, section 5.1.1). */
module RtcpMux {
  import opened Sdp

  datatype State = Init | ReceivedOffer | SentOffer | SentPrAnswer | ReceivedPrAnswer | Active
  datatype ContentSource = Local | Remote

  /** The two fields of a filter. */
  datatype Filter = Filter(state: State, offerEnable: bool)

  datatype Outcome = Outcome(filter: Filter, ok: bool)

  const NEW_FILTER := Filter(Init, false)

  /* ---- the transition a description makes ---- */

  predicate ExpectsOffer(f: Filter, source: ContentSource) {
    f.state == Init ||
    (f.state == SentOffer && source == Local) ||
    (f.state == ReceivedOffer && source == Remote)
  }

  predicate ExpectsAnswer(f: Filter, source: ContentSource) {
    (f.state in {SentOffer, ReceivedPrAnswer} && source == Remote) ||
    (f.state in {ReceivedOffer, SentPrAnswer} && source == Local)
  }

  /** The state in which the offer of the other side, or one's own, stands unanswered. */
  function Offered(answerer: ContentSource): State {
    if answerer == Remote then SentOffer else ReceivedOffer
  }

  ghost function Next(f: Filter, sdpType: SdpType, enable: bool, source: ContentSource): Outcome {
    if f.state == Active then Outcome(f, enable)
    else if sdpType == Offer then
      if ExpectsOffer(f, source)
      then Outcome(Filter(if source == Local then SentOffer else ReceivedOffer, enable), true)
      else Outcome(f, false)
    else if !ExpectsAnswer(f, source) || (enable && !f.offerEnable) then Outcome(f, false)
    else if sdpType == Answer then Outcome(f.(state := if enable then Active else Init), true)
    else if !f.offerEnable then Outcome(f, true)
    else if enable then Outcome(f.(state := if source == Remote then ReceivedPrAnswer else SentPrAnswer), true)
    else Outcome(f.(state := Offered(source)), true)
  }

  class RtcpMuxFilter {
    var state: State
    var offerEnable: bool

    ghost function View(): Filter
      reads this
    {
      Filter(state, offerEnable)
    }

    constructor ()
      ensures View() == NEW_FILTER
    {
      state, offerEnable := Init, false;
    }

    predicate IsFullyActive()
      reads this
    {
      state == Active
    }

    predicate IsProvisionallyActive()
      reads this
    {
      state == SentPrAnswer || state == ReceivedPrAnswer
    }

    predicate IsActive()
      reads this
    {
      IsFullyActive() || IsProvisionallyActive()
    }

    predicate ExpectOffer(enable: bool, source: ContentSource)
      reads this
    {
      state == Init ||
      (state == Active && enable == offerEnable) ||
      (state == SentOffer && source == Local) ||
      (state == ReceivedOffer && source == Remote)
    }

    predicate ExpectAnswer(source: ContentSource)
      reads this
    {
      (state == SentOffer && source == Remote) ||
      (state == ReceivedOffer && source == Local) ||
      (state == SentPrAnswer && source == Local) ||
      (state == ReceivedPrAnswer && source == Remote)
    }

    /** For an endpoint that requires RTCP mux. */
    method SetActive()
      modifies this
      ensures View() == old(View()).(state := Active)
    {
      state := Active;
    }

    method SetOffer(enable: bool, source: ContentSource) returns (ok: bool)
      modifies this
      ensures Outcome(View(), ok) == Next(old(View()), Offer, enable, source)
    {
      if state == Active {
        return enable;
      }
      if !ExpectOffer(enable, source) {
        return false;
      }
      offerEnable := enable;
      state := if source == Local then SentOffer else ReceivedOffer;
      return true;
    }

    method SetProvisionalAnswer(enable: bool, source: ContentSource) returns (ok: bool)
      modifies this
      ensures Outcome(View(), ok) == Next(old(View()), PrAnswer, enable, source)
    {
      if state == Active {
        return enable;
      }
      if !ExpectAnswer(source) {
        return false;
      }
      if offerEnable {
        if enable {
          if source == Remote {
            state := ReceivedPrAnswer;
          } else {
            state := SentPrAnswer;
          }
        } else {
          if source == Remote {
            state := SentOffer;
          } else {
            state := ReceivedOffer;
          }
        }
      } else if enable {
        return false;
      }
      return true;
    }

    method SetAnswer(enable: bool, source: ContentSource) returns (ok: bool)
      modifies this
      ensures Outcome(View(), ok) == Next(old(View()), Answer, enable, source)
    {
      if state == Active {
        return enable;
      }
      if !ExpectAnswer(source) {
        return false;
      }
      if offerEnable && enable {
        state := Active;
      } else if enable {
        return false;
      } else {
        state := Init;
      }
      return true;
    }
  }

  /** JsepTransport.SetRtcpMux: route a description to the filter, read off whether mux is on. */
  method SetRtcpMux(negotiator: RtcpMuxFilter, enable: bool, sdpType: SdpType, source: ContentSource)
    returns (ok: bool, activate: bool, muxEnabled: bool)
    modifies negotiator
    ensures Outcome(negotiator.View(), ok) == Next(old(negotiator.View()), sdpType, enable, source)
    ensures activate <==> ok && sdpType == Answer && negotiator.IsFullyActive()
    ensures ok ==> (muxEnabled <==> negotiator.IsActive())
  {
    activate, muxEnabled := false, false;
    match sdpType {
      case Offer =>
        ok := negotiator.SetOffer(enable, source);
      case PrAnswer =>
        ok := negotiator.SetProvisionalAnswer(enable, source);
      case Answer =>
        ok := negotiator.SetAnswer(enable, source);
        activate := ok && negotiator.IsActive();
    }
    if ok {
      muxEnabled := negotiator.IsActive();
    }
  }

  /** A refused description leaves the filter as it was. */
  lemma FailureChangesNothing(f: Filter, sdpType: SdpType, enable: bool, source: ContentSource)
    ensures !Next(f, sdpType, enable, source).ok ==> Next(f, sdpType, enable, source).filter == f
  {
  }

  /** While mux is not active, exactly these descriptions are accepted: an offer when none stands or to replace one's
      own, an answer to the offer of the other side that does not ask for more than the offer. */
  lemma VerdictsExactly(f: Filter, sdpType: SdpType, enable: bool, source: ContentSource)
    requires f.state != Active
    ensures var ownOffer := f.state == if source == Local then SentOffer else ReceivedOffer;
            var othersOffer := f.state in if source == Local then {ReceivedOffer, SentPrAnswer} else {SentOffer, ReceivedPrAnswer};
      Next(f, sdpType, enable, source).ok <==>
        if sdpType == Offer then f.state == Init || ownOffer else othersOffer && (enable ==> f.offerEnable)
  {
  }

  /** A provisional answer with mux, taken back by one without, leaves the offer as it stood; a final answer without
      mux ends the exchange, whatever came before it. */
  lemma ProvisionalAnswerIsUndone(offerEnable: bool, source: ContentSource)
    ensures var offered := Filter(if source == Remote then SentOffer else ReceivedOffer, offerEnable);
            var first := Next(offered, PrAnswer, true, source);
      && (first.ok <==> offerEnable)
      && (first.ok ==> first.filter.state == if source == Remote then ReceivedPrAnswer else SentPrAnswer)
      && Next(first.filter, PrAnswer, false, source) == Outcome(offered, true)
      && Next(first.filter, Answer, false, source) == Outcome(Filter(Init, offerEnable), true)
  {
  }

  /* ---- two endpoints ---- */

  /** One description: made by the left or the right endpoint, local there and remote at the other. */
  datatype Description = Description(fromLeft: bool, sdpType: SdpType, enable: bool)

  datatype Pair = Pair(left: Filter, right: Filter)

  datatype PairOutcome = PairOutcome(pair: Pair, leftOk: bool, rightOk: bool)

  ghost function Exchange(p: Pair, d: Description): PairOutcome {
    var l := Next(p.left, d.sdpType, d.enable, if d.fromLeft then Local else Remote);
    var r := Next(p.right, d.sdpType, d.enable, if d.fromLeft then Remote else Local);
    PairOutcome(Pair(l.filter, r.filter), l.ok, r.ok)
  }

  function Mirror(s: State): State {
    match s
    case ReceivedOffer => SentOffer
    case SentOffer => ReceivedOffer
    case SentPrAnswer => ReceivedPrAnswer
    case ReceivedPrAnswer => SentPrAnswer
    case _ => s
  }

  ghost predicate Mirrored(p: Pair) {
    p.right == Filter(Mirror(p.left.state), p.left.offerEnable)
  }

  ghost function RunOf(p: Pair, ds: seq<Description>): Pair {
    if ds == [] then p else Exchange(RunOf(p, ds[..|ds| - 1]), ds[|ds| - 1]).pair
  }

  const NEW_PAIR := Pair(NEW_FILTER, NEW_FILTER)

  function Opposite(source: ContentSource): ContentSource {
    if source == Local then Remote else Local
  }

  /** Mirrored filters give the same verdict on the two views of one description, and stay mirrored. */
  lemma NextMirrors(f: Filter, sdpType: SdpType, enable: bool, source: ContentSource)
    ensures var g := Filter(Mirror(f.state), f.offerEnable);
      var l, r := Next(f, sdpType, enable, source), Next(g, sdpType, enable, Opposite(source));
      l.ok == r.ok && r.filter == Filter(Mirror(l.filter.state), l.filter.offerEnable)
  {
  }

  /** In every run both sides return the same verdict and stay mirror images. */
  lemma {:induction false} EndpointsAgree(ds: seq<Description>)
    ensures Mirrored(RunOf(NEW_PAIR, ds))
    ensures ds != [] ==>
              var o := Exchange(RunOf(NEW_PAIR, ds[..|ds| - 1]), ds[|ds| - 1]);
              o.leftOk == o.rightOk
  {
    if ds != [] {
      var p, d := RunOf(NEW_PAIR, ds[..|ds| - 1]), ds[|ds| - 1];
      EndpointsAgree(ds[..|ds| - 1]);
      NextMirrors(p.left, d.sdpType, d.enable, if d.fromLeft then Local else Remote);
    }
  }

  /** The verdict of the endpoints on description `i` of a run. */
  ghost predicate Accepted(ds: seq<Description>, i: nat)
    requires i < |ds|
  {
    Exchange(RunOf(NEW_PAIR, ds[..i]), ds[i]).leftOk
  }

  /** The filters are in the middle of an exchange whose offer was description `i`. */
  ghost predicate OpenSince(ds: seq<Description>, i: nat, byLeft: bool, enable: bool) {
    && i < |ds|
    && ds[i] == Description(byLeft, Offer, enable) && Accepted(ds, i)
    && forall k :: i < k < |ds| && ds[k].sdpType != PrAnswer ==> !Accepted(ds, k)
  }

  /** Who offered, as the left endpoint sees it. */
  ghost predicate LeftOffers(s: State) {
    s == SentOffer || s == ReceivedPrAnswer
  }

  /** Only an accepted offer opens an exchange; anything else that leaves it open keeps who offered what. */
  lemma OnlyAnOfferOpens(f: Filter, sdpType: SdpType, enable: bool, source: ContentSource)
    requires Next(f, sdpType, enable, source).filter.state !in {Init, Active}
    ensures var o := Next(f, sdpType, enable, source);
      if sdpType == Offer && o.ok then
        o.filter.offerEnable == enable && (LeftOffers(o.filter.state) <==> source == Local)
        && o.filter.state in {SentOffer, ReceivedOffer}
      else
        f.state !in {Init, Active} && LeftOffers(o.filter.state) == LeftOffers(f.state)
        && o.filter.offerEnable == f.offerEnable && (sdpType == PrAnswer || !o.ok)
        && (o.filter.state in {SentPrAnswer, ReceivedPrAnswer} && !f.offerEnable ==> o.filter == f)
  {
  }

  /** Whenever an offer stands, some accepted offer of the run set it, and only provisional answers
      have been accepted since. */
  lemma {:induction false} OpenOfferHasASource(ds: seq<Description>)
    requires RunOf(NEW_PAIR, ds).left.state !in {Init, Active}
    ensures exists i ::
              OpenSince(ds, i, LeftOffers(RunOf(NEW_PAIR, ds).left.state), RunOf(NEW_PAIR, ds).left.offerEnable)
    ensures RunOf(NEW_PAIR, ds).left.state in {SentPrAnswer, ReceivedPrAnswer} ==> RunOf(NEW_PAIR, ds).left.offerEnable
  {
    var n := |ds| - 1;
    var before, d := RunOf(NEW_PAIR, ds[..n]), ds[n];
    var after := RunOf(NEW_PAIR, ds);
    OnlyAnOfferOpens(before.left, d.sdpType, d.enable, if d.fromLeft then Local else Remote);
    if d.sdpType == Offer && Exchange(before, d).leftOk {
      assert Accepted(ds, n);
      assert OpenSince(ds, n, LeftOffers(after.left.state), after.left.offerEnable);
    } else {
      OpenOfferHasASource(ds[..n]);
      var i :| OpenSince(ds[..n], i, LeftOffers(before.left.state), before.left.offerEnable);
      OpenPersists(ds, i, LeftOffers(before.left.state), before.left.offerEnable);
    }
  }

  lemma OpenPersists(ds: seq<Description>, i: nat, byLeft: bool, enable: bool)
    requires ds != [] && OpenSince(ds[..|ds| - 1], i, byLeft, enable)
    requires ds[|ds| - 1].sdpType == PrAnswer || !Accepted(ds, |ds| - 1)
    ensures OpenSince(ds, i, byLeft, enable)
  {
    var n := |ds| - 1;
    AcceptedEarlier(ds, n, i);
    forall k | i < k < |ds| && ds[k].sdpType != PrAnswer ensures !Accepted(ds, k) {
      if k < n {
        AcceptedEarlier(ds, n, k);
        assert !Accepted(ds[..n], k);
      }
    }
  }

  lemma AcceptedEarlier(ds: seq<Description>, n: nat, k: nat)
    requires k < n <= |ds|
    ensures Accepted(ds, k) <==> Accepted(ds[..n], k)
  {
    assert ds[..n][..k] == ds[..k];
  }

  /** Description `j` is an accepted, enabled final answer to the enabled offer `i` of the other
      endpoint, with nothing but provisional answers accepted in between. */
  ghost predicate NegotiatedBy(ds: seq<Description>, i: nat, j: nat) {
    && i < j < |ds|
    && OpenSince(ds[..j], i, !ds[j].fromLeft, true)
    && ds[j].sdpType == Answer && ds[j].enable && Accepted(ds, j)
  }

  lemma NegotiatedPersists(ds: seq<Description>, n: nat, i: nat, j: nat)
    requires n <= |ds| && NegotiatedBy(ds[..n], i, j)
    ensures NegotiatedBy(ds, i, j)
  {
    assert ds[..n][..j] == ds[..j];
  }

  /** The one way into the active state: an accepted, enabled final answer to the other side's enabled offer. */
  lemma BecomesActive(f: Filter, sdpType: SdpType, enable: bool, source: ContentSource)
    requires f.state != Active
    ensures Next(f, sdpType, enable, source).filter.state == Active <==>
              sdpType == Answer && enable && f.offerEnable && ExpectsAnswer(f, source)
    ensures ExpectsAnswer(f, source) ==> f.state != Init && (LeftOffers(f.state) <==> source == Remote)
    ensures ExpectsAnswer(f, source) && enable && f.offerEnable ==> Next(f, sdpType, enable, source).ok || sdpType == Offer
  {
  }

  lemma FinalAnswerNegotiates(ds: seq<Description>)
    requires ds != [] && RunOf(NEW_PAIR, ds[..|ds| - 1]).left.state != Active
    requires RunOf(NEW_PAIR, ds).left.state == Active
    ensures exists i, j :: NegotiatedBy(ds, i, j)
  {
    var n := |ds| - 1;
    var before := RunOf(NEW_PAIR, ds[..n]);
    BecomesActive(before.left, ds[n].sdpType, ds[n].enable, if ds[n].fromLeft then Local else Remote);
    OpenOfferHasASource(ds[..n]);
    var i :| OpenSince(ds[..n], i, !ds[n].fromLeft, true);
    assert NegotiatedBy(ds, i, n);
  }

  /** Both filters are fully active only after an enabled offer met an enabled final answer. */
  lemma {:induction false} ActiveMeansNegotiated(ds: seq<Description>)
    requires RunOf(NEW_PAIR, ds).left.state == Active || RunOf(NEW_PAIR, ds).right.state == Active
    ensures RunOf(NEW_PAIR, ds).left.state == Active && RunOf(NEW_PAIR, ds).right.state == Active
    ensures exists i, j :: NegotiatedBy(ds, i, j)
  {
    EndpointsAgree(ds);
    var n := |ds| - 1;
    if RunOf(NEW_PAIR, ds[..n]).left.state == Active {
      ActiveMeansNegotiated(ds[..n]);
      var i, j :| NegotiatedBy(ds[..n], i, j);
      NegotiatedPersists(ds, n, i, j);
    } else {
      FinalAnswerNegotiates(ds);
    }
  }

  /** Once active, no run deactivates a pair: both ends refuse exactly the descriptions that would. */
  lemma {:induction false} ActiveIsFinal(p: Pair, ds: seq<Description>, d: Description)
    requires p.left.state == Active && p.right.state == Active
    ensures RunOf(p, ds) == p && Exchange(RunOf(p, ds), d).pair == p
    ensures Exchange(RunOf(p, ds), d).leftOk == Exchange(RunOf(p, ds), d).rightOk == d.enable
  {
    if ds != [] {
      ActiveIsFinal(p, ds[..|ds| - 1], ds[|ds| - 1]);
    }
  }
}
