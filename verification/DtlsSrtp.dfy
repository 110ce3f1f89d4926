/** DtlsSrtpTransport: SRTP keyed from whatever DTLS transport is attached. */
module DtlsSrtp {
  import opened Wrappers
  import opened DtlsKeys
  import opened Srtp

  class DtlsSrtpTransport {
    /** The SrtpTransport this class derives from. */
    const srtp: SrtpTransport
    const suiteLengths: SuiteLengths
    var rtcpMuxEnabled: bool
    var rtpDtlsTransport: DtlsTransport?
    var rtcpDtlsTransport: DtlsTransport?
    var sendExtensionIds: Option<seq<int>>
    var recvExtensionIds: Option<seq<int>>
    var activeResetSrtpParams: bool
    /** The transport the RTP keys last installed were exported from, and what it yielded then. */
    ghost var keySource: DtlsTransport?
    ghost var exported: Extracted

    /** While SRTP is active, its RTP keys are those exported from the attached RTP DTLS transport. */
    ghost predicate KeyedByAttached()
      reads this, srtp, srtp.sendSession, srtp.recvSession
    {
      srtp.IsSrtpActive() ==>
        && rtpDtlsTransport != null && keySource == rtpDtlsTransport
        && exported.Keys?
        && srtp.sendSession.installed.Some? && srtp.recvSession.installed.Some?
        && srtp.sendSession.installed.value.suite == srtp.recvSession.installed.value.suite == exported.suite
        && srtp.sendSession.installed.value.key == exported.send
        && srtp.recvSession.installed.value.key == exported.recv
    }

    ghost predicate Valid()
      reads this, srtp, srtp.Sessions(), srtp.lib
    {
      srtp.Valid() && KeyedByAttached()
    }

    /** What keying may change besides the two ghost fields. */
    ghost function Frame(): set<object?>
      reads srtp
    {
      {srtp, srtp.lib} + srtp.Sessions()
    }

    /** The libsrtp uses that are not sessions of this transport. */
    ghost function OtherUses(): int
      reads srtp, srtp.Sessions(), srtp.lib
    {
      srtp.lib.usageCount - srtp.LiveSessions()
    }

    constructor (srtp: SrtpTransport, suiteLengths: SuiteLengths, rtcpMuxEnabled: bool)
      requires srtp.Valid() && srtp.Empty()
      ensures Valid() && this.srtp == srtp && !srtp.IsSrtpActive()
    {
      this.srtp, this.suiteLengths, this.rtcpMuxEnabled := srtp, suiteLengths, rtcpMuxEnabled;
      rtpDtlsTransport, rtcpDtlsTransport := null, null;
      sendExtensionIds, recvExtensionIds := None, None;
      activeResetSrtpParams := false;
      keySource, exported := null, NoKeys;
    }

    predicate IsDtlsActive()
      reads this, rtpDtlsTransport, rtcpDtlsTransport
    {
      rtpDtlsTransport != null && rtpDtlsTransport.dtlsActive &&
      (rtcpMuxEnabled || rtcpDtlsTransport == null || rtcpDtlsTransport.dtlsActive)
    }

    predicate IsDtlsConnected()
      reads this, rtpDtlsTransport, rtcpDtlsTransport
    {
      rtpDtlsTransport != null && rtpDtlsTransport.connected &&
      (rtcpMuxEnabled || rtcpDtlsTransport == null || rtcpDtlsTransport.connected)
    }

    predicate IsDtlsWritable()
      reads this, rtpDtlsTransport, rtcpDtlsTransport
    {
      Writable(rtpDtlsTransport, rtcpDtlsTransport, rtcpMuxEnabled)
    }

    predicate DtlsHandshakeCompleted()
      reads this, rtpDtlsTransport, rtcpDtlsTransport
    {
      IsDtlsActive() && IsDtlsConnected()
    }

    /** The transports that have to be ready: RTCP needs its own where there is one and mux is off. */
    ghost function NeededTransports(): set<DtlsTransport?>
      reads this
    {
      {rtpDtlsTransport} + if !rtcpMuxEnabled && rtcpDtlsTransport != null then {rtcpDtlsTransport} else {}
    }

    /** Nothing is keyed before all of them are writable, or re-keyed before all have completed the handshake. */
    lemma AllTransportsHaveToBeReady()
      ensures IsDtlsWritable() <==> forall t :: t in NeededTransports() ==> t != null && t.writable
      ensures DtlsHandshakeCompleted() <==>
                forall t :: t in NeededTransports() ==> t != null && t.dtlsActive && t.connected
    {
      assert rtpDtlsTransport in NeededTransports();
      assert !rtcpMuxEnabled && rtcpDtlsTransport != null ==> rtcpDtlsTransport in NeededTransports();
    }

    /** The transport as ExtractParams takes it. */
    static function OrNone(t: DtlsTransport?): Option<DtlsTransport> {
      if t == null then None else Some(t)
    }

    /** The attached transport writable, and the RTCP one too where RTCP needs its own. */
    static predicate Writable(rtp: DtlsTransport?, rtcp: DtlsTransport?, muxed: bool)
      reads rtp, rtcp
    {
      rtp != null && rtp.writable && (muxed || rtcp == null || rtcp.writable)
    }

    ghost predicate HasKeys(t: DtlsTransport?)
      reads t
    {
      t != null && KeysOf(t, suiteLengths).Keys?
    }

    /** Keying from `t` goes through: it exports keys, libsrtp runs or starts, and takes both. */
    ghost predicate CanKey(t: DtlsTransport?, running: bool, a: Answers)
      reads t
    {
      HasKeys(t) &&
      var keys := KeysOf(t, suiteLengths);
      srtp.KeyingSucceeds(CryptoParams(keys.suite, keys.send, []), CryptoParams(keys.suite, keys.recv, []), running, a)
    }

    /** libsrtp is in use already, by this transport or another. */
    ghost predicate Running()
      reads srtp, srtp.lib
    {
      srtp.sendSession != null || srtp.lib.usageCount > 0
    }

    /** Everything needed is writable, and keying from the attached transport goes through. */
    ghost predicate CanActivate(muxed: bool, a: Answers)
      reads this, rtpDtlsTransport, rtcpDtlsTransport, srtp, srtp.lib
    {
      Writable(rtpDtlsTransport, rtcpDtlsTransport, muxed) && CanKey(rtpDtlsTransport, Running(), a)
    }

    /** The header extensions encrypted are the ones last asked for. */
    ghost predicate IdsInstalled()
      reads this, srtp, srtp.sendSession, srtp.recvSession
    {
      srtp.IsSrtpActive() ==>
        && srtp.sendSession.installed.Some? && srtp.recvSession.installed.Some?
        && srtp.sendSession.installed.value.extensionIds == sendExtensionIds.GetOr([])
        && srtp.recvSession.installed.value.extensionIds == recvExtensionIds.GetOr([])
    }

    ghost predicate SameRtcp(send: SrtpSession?, recv: SrtpSession?)
      reads srtp
    {
      srtp.sendRtcpSession == send && srtp.recvRtcpSession == recv
    }

    /** Export from the attached transport and install; without an export nothing changes, and a failure to
        install drops the keys in use. */
    method SetupRtpDtlsSrtp(a: Answers)
      requires Valid()
      modifies Frame(), this`keySource, this`exported
      ensures Valid()
      ensures srtp.IsSrtpActive() <==>
                old(if HasKeys(rtpDtlsTransport) then CanKey(rtpDtlsTransport, Running(), a) else srtp.IsSrtpActive())
      ensures old(HasKeys(rtpDtlsTransport)) ==> IdsInstalled()
      ensures old(HasKeys(rtpDtlsTransport)) && srtp.IsSrtpActive() ==>
                exported == old(KeysOf(rtpDtlsTransport, suiteLengths))
      ensures !old(HasKeys(rtpDtlsTransport)) ==> exported == old(exported) && (old(IdsInstalled()) ==> IdsInstalled())
      ensures srtp.IsSrtpActive() || !old(HasKeys(rtpDtlsTransport)) ==>
                SameRtcp(old(srtp.sendRtcpSession), old(srtp.recvRtcpSession))
      ensures old(HasKeys(rtpDtlsTransport)) && !srtp.IsSrtpActive() ==> srtp.Empty()
      ensures OtherUses() == old(OtherUses())
      ensures forall s :: s in srtp.Sessions() ==> s in old(srtp.Sessions()) || fresh(s)
    {
      var sendIds := sendExtensionIds.GetOr([]);
      var recvIds := recvExtensionIds.GetOr([]);
      var keys := ExtractParams(OrNone(rtpDtlsTransport), suiteLengths);
      if keys.Keys? {
        keySource, exported := rtpDtlsTransport, keys;
        var _ := srtp.SetRtpParams(CryptoParams(keys.suite, keys.send, sendIds),
                                   CryptoParams(keys.suite, keys.recv, recvIds), a);
      }
    }

    /** Does nothing once SRTP is active. */
    method SetupRtcpDtlsSrtp(a: Answers)
      requires Valid()
      modifies Frame(), this`keySource, this`exported
      ensures Valid()
      ensures srtp.IsSrtpActive() == old(srtp.IsSrtpActive()) && exported == old(exported)
      ensures old(IdsInstalled()) ==> IdsInstalled()
      ensures srtp.IsSrtpActive() || !old(HasKeys(rtcpDtlsTransport)) ==>
                SameRtcp(old(srtp.sendRtcpSession), old(srtp.recvRtcpSession))
      ensures !srtp.IsSrtpActive() && old(HasKeys(rtcpDtlsTransport) && SameRtcp(null, null)) ==>
                srtp.sendRtcpSession != null &&
                (srtp.recvRtcpSession != null && srtp.recvRtcpSession.hasContext <==>
                  old(CanKey(rtcpDtlsTransport, srtp.lib.usageCount > 0, a))) &&
                (srtp.recvRtcpSession != null && srtp.recvRtcpSession.hasContext ==>
                  var keys := old(KeysOf(rtcpDtlsTransport, suiteLengths));
                  && srtp.sendRtcpSession.installed == Some(CryptoParams(keys.suite, keys.send, sendExtensionIds.GetOr([])))
                  && srtp.recvRtcpSession.installed == Some(CryptoParams(keys.suite, keys.recv, recvExtensionIds.GetOr([]))))
      ensures OtherUses() == old(OtherUses())
      ensures forall s :: s in srtp.Sessions() ==> s in old(srtp.Sessions()) || fresh(s)
    {
      if srtp.IsSrtpActive() {
        return;
      }
      var sendIds := sendExtensionIds.GetOr([]);
      var recvIds := recvExtensionIds.GetOr([]);
      var keys := ExtractParams(OrNone(rtcpDtlsTransport), suiteLengths);
      if keys.Keys? {
        var _ := srtp.SetRtcpParams(CryptoParams(keys.suite, keys.send, sendIds),
                                    CryptoParams(keys.suite, keys.recv, recvIds), a);
      }
    }

    /** SRTP becomes active exactly when everything is writable and keying goes through. Since RTP goes first,
        SRTCP sessions are made only when keying RTP has just failed. */
    method MaybeSetupDtlsSrtp(a: Answers, rtcp: Answers)
      requires Valid()
      modifies Frame(), this`keySource, this`exported
      ensures Valid()
      ensures srtp.IsSrtpActive() <==> old(srtp.IsSrtpActive() || CanActivate(rtcpMuxEnabled, a))
      ensures srtp.IsSrtpActive() && !old(srtp.IsSrtpActive()) ==>
                && rtpDtlsTransport != null && rtpDtlsTransport.writable
                && (rtcpMuxEnabled || rtcpDtlsTransport == null || rtcpDtlsTransport.writable)
      ensures old(srtp.IsSrtpActive()) ==> exported == old(exported)
      ensures old(IdsInstalled()) ==> IdsInstalled()
      ensures srtp.IsSrtpActive() && !old(srtp.IsSrtpActive()) ==>
                exported == old(KeysOf(rtpDtlsTransport, suiteLengths))
      ensures srtp.IsSrtpActive() || !old(IsDtlsWritable()) ==>
                SameRtcp(old(srtp.sendRtcpSession), old(srtp.recvRtcpSession))
      ensures !srtp.IsSrtpActive() && old(IsDtlsWritable() && !rtcpMuxEnabled && HasKeys(rtcpDtlsTransport)) &&
              old(SameRtcp(null, null) || HasKeys(rtpDtlsTransport)) ==>
                srtp.sendRtcpSession != null
      ensures OtherUses() == old(OtherUses())
      ensures forall s :: s in srtp.Sessions() ==> s in old(srtp.Sessions()) || fresh(s)
    {
      if srtp.IsSrtpActive() || !IsDtlsWritable() {
        return;
      }
      SetupRtpDtlsSrtp(a);
      if !rtcpMuxEnabled && rtcpDtlsTransport != null {
        SetupRtcpDtlsSrtp(rtcp);
      }
    }

    /** The change drops the keys in use. */
    predicate Resets(rtp: DtlsTransport?)
      reads this, srtp
    {
      srtp.IsSrtpActive() && (rtp != rtpDtlsTransport || activeResetSrtpParams)
    }

    /** What a reset takes away no longer keeps libsrtp in use. */
    ghost predicate RunningAfter(rtp: DtlsTransport?)
      reads this, srtp, srtp.Sessions(), srtp.lib
    {
      (if Resets(rtp) then OtherUses() else srtp.lib.usageCount) > 0
    }

    /** SetDtlsTransports up to the setup: keys of another transport do not survive the change. */
    method Attach(rtp: DtlsTransport?, rtcp: DtlsTransport?)
      requires Valid()
      requires rtcp != null && rtcp != rtcpDtlsTransport && srtp.IsSrtpActive() ==> Resets(rtp)
      modifies Frame(), this`rtpDtlsTransport, this`rtcpDtlsTransport
      ensures Valid() && rtpDtlsTransport == rtp && rtcpDtlsTransport == rtcp
      ensures srtp.IsSrtpActive() <==> old(srtp.IsSrtpActive() && !Resets(rtp))
      ensures old(IdsInstalled()) ==> IdsInstalled()
      ensures !srtp.IsSrtpActive() ==> (Running() <==> old(RunningAfter(rtp)))
      ensures srtp.Sessions() <= old(srtp.Sessions()) && OtherUses() == old(OtherUses())
    {
      if srtp.IsSrtpActive() && (rtp != rtpDtlsTransport || activeResetSrtpParams) {
        srtp.ResetParams();
      }
      assert rtcp != null && rtcp != rtcpDtlsTransport ==> !srtp.IsSrtpActive();
      rtcpDtlsTransport := rtcp;
      rtpDtlsTransport := rtp;
    }

    /** The source aborts on a new RTCP transport while SRTP stays active: the requires. Afterwards SRTP is
        active if the keys were kept, and otherwise exactly if keying from `rtp` goes through. */
    method SetDtlsTransports(rtp: DtlsTransport?, rtcp: DtlsTransport?, a: Answers, a': Answers)
      requires Valid()
      requires rtcp != null && rtcp != rtcpDtlsTransport && srtp.IsSrtpActive() ==> Resets(rtp)
      modifies Frame(), this`rtpDtlsTransport, this`rtcpDtlsTransport, this`keySource, this`exported
      ensures Valid() && rtpDtlsTransport == rtp && rtcpDtlsTransport == rtcp
      ensures srtp.IsSrtpActive() <==> old((srtp.IsSrtpActive() && !Resets(rtp)) ||
                (Writable(rtp, rtcp, rtcpMuxEnabled) && CanKey(rtp, RunningAfter(rtp), a)))
      ensures srtp.IsSrtpActive() ==>
                exported == old(if srtp.IsSrtpActive() && !Resets(rtp) then exported else KeysOf(rtp, suiteLengths))
      ensures old(IdsInstalled()) ==> IdsInstalled()
      ensures OtherUses() == old(OtherUses())
      ensures forall s :: s in srtp.Sessions() ==> s in old(srtp.Sessions()) || fresh(s)
    {
      Attach(rtp, rtcp);
      MaybeSetupDtlsSrtp(a, a');
    }

    method SetRtcpMuxEnabled(enable: bool, a: Answers, a': Answers)
      requires Valid()
      modifies Frame(), this`rtcpMuxEnabled, this`keySource, this`exported
      ensures Valid() && rtcpMuxEnabled == enable
      ensures srtp.IsSrtpActive() <==> old(srtp.IsSrtpActive() || (enable && CanActivate(true, a)))
      ensures old(IdsInstalled()) ==> IdsInstalled()
      ensures OtherUses() == old(OtherUses())
      ensures forall s :: s in srtp.Sessions() ==> s in old(srtp.Sessions()) || fresh(s)
    {
      rtcpMuxEnabled := enable;
      if enable {
        MaybeSetupDtlsSrtp(a, a');
      }
    }

    /** A new list of extensions is installed with the keys, at once when the handshake is complete. */
    method UpdateSendEncryptedHeaderExtensionIds(ids: seq<int>, a: Answers)
      requires Valid()
      modifies Frame(), this`sendExtensionIds, this`keySource, this`exported
      ensures Valid() && sendExtensionIds == Some(ids)
      ensures srtp.IsSrtpActive() <==>
                old(if sendExtensionIds != Some(ids) && DtlsHandshakeCompleted() && HasKeys(rtpDtlsTransport)
                    then CanKey(rtpDtlsTransport, Running(), a) else srtp.IsSrtpActive())
      ensures old(IdsInstalled()) &&
              old(sendExtensionIds == Some(ids) || (DtlsHandshakeCompleted() && HasKeys(rtpDtlsTransport))) ==>
                IdsInstalled()
      ensures OtherUses() == old(OtherUses())
      ensures forall s :: s in srtp.Sessions() ==> s in old(srtp.Sessions()) || fresh(s)
    {
      if sendExtensionIds == Some(ids) {
        return;
      }
      sendExtensionIds := Some(ids);
      if DtlsHandshakeCompleted() {
        SetupRtpDtlsSrtp(a);
      }
    }

    method UpdateRecvEncryptedHeaderExtensionIds(ids: seq<int>, a: Answers)
      requires Valid()
      modifies Frame(), this`recvExtensionIds, this`keySource, this`exported
      ensures Valid() && recvExtensionIds == Some(ids)
      ensures srtp.IsSrtpActive() <==>
                old(if recvExtensionIds != Some(ids) && DtlsHandshakeCompleted() && HasKeys(rtpDtlsTransport)
                    then CanKey(rtpDtlsTransport, Running(), a) else srtp.IsSrtpActive())
      ensures old(IdsInstalled()) &&
              old(recvExtensionIds == Some(ids) || (DtlsHandshakeCompleted() && HasKeys(rtpDtlsTransport))) ==>
                IdsInstalled()
      ensures OtherUses() == old(OtherUses())
      ensures forall s :: s in srtp.Sessions() ==> s in old(srtp.Sessions()) || fresh(s)
    {
      if recvExtensionIds == Some(ids) {
        return;
      }
      recvExtensionIds := Some(ids);
      if DtlsHandshakeCompleted() {
        SetupRtpDtlsSrtp(a);
      }
    }

    /** `connected` is what the transport reports, whatever it is by now. */
    method OnDtlsState(transport: DtlsTransport, connected: bool, a: Answers, a': Answers)
      requires Valid()
      requires transport == rtpDtlsTransport || transport == rtcpDtlsTransport
      modifies Frame(), this`keySource, this`exported
      ensures Valid()
      ensures !connected ==> !srtp.IsSrtpActive() && srtp.Empty()
      ensures connected ==>
                (srtp.IsSrtpActive() <==> old(srtp.IsSrtpActive() || CanActivate(rtcpMuxEnabled, a)))
      ensures old(IdsInstalled()) ==> IdsInstalled()
      ensures OtherUses() == old(OtherUses())
      ensures forall s :: s in srtp.Sessions() ==> s in old(srtp.Sessions()) || fresh(s)
    {
      if !connected {
        srtp.ResetParams();
        return;
      }
      MaybeSetupDtlsSrtp(a, a');
    }

    method OnWritableState(a: Answers, a': Answers)
      requires Valid()
      modifies Frame(), this`keySource, this`exported
      ensures Valid()
      ensures srtp.IsSrtpActive() <==> old(srtp.IsSrtpActive() || CanActivate(rtcpMuxEnabled, a))
      ensures old(IdsInstalled()) ==> IdsInstalled()
      ensures OtherUses() == old(OtherUses())
      ensures forall s :: s in srtp.Sessions() ==> s in old(srtp.Sessions()) || fresh(s)
    {
      MaybeSetupDtlsSrtp(a, a');
    }
  }
}
