/** SrtpSession and SrtpTransport: sessions, their libsrtp contexts, and the global usage count. */
module Srtp {
  import opened Wrappers
  import opened DtlsKeys

  /** libsrtp as the process shares it: g_libsrtp_usage_count. */
  class LibSrtp {
    var usageCount: int

    constructor ()
      ensures usageCount == 0
    {
      usageCount := 0;
    }

    /** Somebody else initialised libsrtp. */
    method ProhibitInitialization()
      modifies this
      ensures usageCount == old(usageCount) + 1
    {
      usageCount := usageCount + 1;
    }

    /** Starting libsrtp may fail, and is tried only by the first user: `starts` is how that goes. */
    method IncrementUsageCountAndMaybeInit(starts: bool) returns (ok: bool)
      requires usageCount >= 0
      modifies this
      ensures ok <==> old(usageCount) > 0 || starts
      ensures usageCount == old(usageCount) + if ok then 1 else 0
    {
      if usageCount == 0 {
        if !starts {
          return false;
        }
      }
      usageCount := usageCount + 1;
      return true;
    }

    method DecrementUsageCountAndMaybeDeinit()
      requires usageCount >= 1
      modifies this
      ensures usageCount == old(usageCount) - 1
    {
      usageCount := usageCount - 1;
    }
  }

  /** A crypto suite, its key with salt, and the header extensions to encrypt. */
  datatype CryptoParams = CryptoParams(suite: int, key: seq<byte>, extensionIds: seq<int>)

  /** Key lengths of the suites libsrtp supports. */
  type CipherKeyLengths = int -> Option<nat>

  /** libsrtp knows the suite, and the key has its length. */
  predicate Fits(p: CryptoParams, lengths: CipherKeyLengths) {
    lengths(p.suite) == Some(|p.key|)
  }

  /** How libsrtp answers one keying: its start, and the create or update of each of the two contexts. */
  datatype Answers = Answers(starts: bool, send: bool, recv: bool)

  class SrtpSession {
    const lib: LibSrtp
    /** session_ != nullptr */
    var hasContext: bool
    var inited: bool
    /** What the context was last given. */
    var installed: Option<CryptoParams>

    constructor (lib: LibSrtp)
      ensures this.lib == lib && !hasContext && !inited && installed == None
    {
      this.lib := lib;
      hasContext, inited, installed := false, false, None;
    }

    /** A session with a context has counted itself and knows its key. */
    ghost predicate Valid()
      reads this
    {
      (hasContext ==> inited) && (hasContext <==> installed.Some?)
    }

    /** `accepts` is what srtp_create or srtp_update answers; a failed update leaves the old key in place. */
    method DoSetKey(p: CryptoParams, lengths: CipherKeyLengths, accepts: bool) returns (ok: bool)
      modifies this`hasContext, this`installed
      ensures ok <==> Fits(p, lengths) && accepts
      ensures ok ==> hasContext && installed == Some(p)
      ensures !ok ==> hasContext == old(hasContext) && installed == old(installed)
    {
      if lengths(p.suite).None? {
        return false;
      }
      if |p.key| != lengths(p.suite).value {
        return false;
      }
      if !accepts {
        return false;
      }
      hasContext := true;
      installed := Some(p);
      return true;
    }

    /** SetSend and SetRecv. The count follows the session exactly unless the session counted itself
        before without getting a context: then it counts twice, and its destructor undoes only one. */
    method SetKey(p: CryptoParams, lengths: CipherKeyLengths, starts: bool, accepts: bool) returns (ok: bool)
      requires Valid() && lib.usageCount >= 0
      modifies this, lib
      ensures Valid()
      ensures ok <==> !old(hasContext) && (old(lib.usageCount) > 0 || starts) && Fits(p, lengths) && accepts
      ensures ok ==> hasContext && installed == Some(p)
      ensures !ok ==> hasContext == old(hasContext) && installed == old(installed)
      ensures lib.usageCount == old(lib.usageCount) + Counted(!old(hasContext) && (old(lib.usageCount) > 0 || starts))
      ensures inited == (old(inited) || lib.usageCount > old(lib.usageCount))
      ensures lib.usageCount - Counted(inited) == old(lib.usageCount - Counted(inited)) <==>
                old(!inited || hasContext || (lib.usageCount == 0 && !starts))
    {
      if hasContext {
        return false;
      }
      var counted := lib.IncrementUsageCountAndMaybeInit(starts);
      if counted {
        inited := true;
      } else {
        return false;
      }
      ok := DoSetKey(p, lengths, accepts);
    }

    /** UpdateSend and UpdateRecv. */
    method UpdateKey(p: CryptoParams, lengths: CipherKeyLengths, accepts: bool) returns (ok: bool)
      requires Valid()
      modifies this`hasContext, this`installed
      ensures Valid() && hasContext == old(hasContext)
      ensures ok <==> hasContext && Fits(p, lengths) && accepts
      ensures ok ==> installed == Some(p)
      ensures !ok ==> installed == old(installed)
    {
      if !hasContext {
        return false;
      }
      ok := DoSetKey(p, lengths, accepts);
    }

    /** The destructor. */
    method Destroy()
      requires inited ==> lib.usageCount >= 1
      modifies lib
      ensures lib.usageCount == old(lib.usageCount) - Counted(inited)
    {
      if inited {
        lib.DecrementUsageCountAndMaybeDeinit();
      }
    }
  }

  /** Two refused keyings of one session: it counts twice and undoes one, so libsrtp stays in use by nobody. */
  method RefusedTwice(p: CryptoParams, lengths: CipherKeyLengths) returns (lib: LibSrtp, session: SrtpSession)
    ensures fresh(lib) && session.lib == lib && !session.hasContext
    ensures lib.usageCount == 1
  {
    lib := new LibSrtp();
    session := new SrtpSession(lib);
    var first := session.SetKey(p, lengths, true, false);
    var second := session.SetKey(p, lengths, true, false);
    assert lib.usageCount == 2 && session.inited;
    session.Destroy();
  }

  function Counted(inited: bool): int {
    if inited then 1 else 0
  }

  /** Sessions of one slot that have counted themselves. */
  ghost function Live(s: SrtpSession?): int
    reads s
  {
    if s == null then 0 else Counted(s.inited)
  }

  datatype CryptOutcome = Inactive | NoSession | Attempted

  class SrtpTransport {
    const lib: LibSrtp
    const lengths: CipherKeyLengths
    var sendSession: SrtpSession?
    var recvSession: SrtpSession?
    var sendRtcpSession: SrtpSession?
    var recvRtcpSession: SrtpSession?

    ghost function Sessions(): set<SrtpSession?>
      reads this
    {
      {sendSession, recvSession, sendRtcpSession, recvRtcpSession} - {null}
    }

    ghost function LiveSessions(): int
      reads this, Sessions()
    {
      Live(sendSession) + Live(recvSession) + Live(sendRtcpSession) + Live(recvRtcpSession)
    }

    /** The four slots hold different sessions of one libsrtp. */
    ghost predicate Distinct()
      reads this, Sessions()
    {
      && (forall s :: s in Sessions() ==> s.lib == lib && s.Valid())
      && (sendSession != null ==> sendSession !in {recvSession, sendRtcpSession, recvRtcpSession})
      && (recvSession != null ==> recvSession !in {sendRtcpSession, recvRtcpSession})
      && (sendRtcpSession != null ==> sendRtcpSession != recvRtcpSession)
    }

    /** And all of them are counted. */
    ghost predicate Owns()
      reads this, Sessions(), lib
    {
      Distinct() && lib.usageCount >= LiveSessions()
    }

    /** RTP sessions come in pairs, and both hold a context. */
    ghost predicate Paired()
      reads this, sendSession, recvSession
    {
      && (sendSession == null <==> recvSession == null)
      && (sendSession != null && recvSession != null ==> sendSession.hasContext && recvSession.hasContext)
    }

    ghost predicate Valid()
      reads this, Sessions(), lib
    {
      Owns() && Paired()
    }

    constructor (lib: LibSrtp, lengths: CipherKeyLengths)
      requires lib.usageCount >= 0
      ensures this.lib == lib && this.lengths == lengths
      ensures Valid() && Empty()
    {
      this.lib, this.lengths := lib, lengths;
      sendSession, recvSession, sendRtcpSession, recvRtcpSession := null, null, null, null;
    }

    ghost predicate Empty()
      reads this
    {
      sendSession == null && recvSession == null && sendRtcpSession == null && recvRtcpSession == null
    }

    predicate IsSrtpActive()
      reads this
    {
      sendSession != null && recvSession != null
    }

    /** Drops all four sessions, each undoing its own count. */
    method ResetParams()
      requires Owns()
      modifies this, lib
      ensures Valid() && Empty()
      ensures lib.usageCount == old(lib.usageCount - LiveSessions())
    {
      DestroySession(sendSession);
      DestroySession(recvSession);
      DestroySession(sendRtcpSession);
      DestroySession(recvRtcpSession);
      sendSession, recvSession, sendRtcpSession, recvRtcpSession := null, null, null, null;
    }

    method DestroySession(s: SrtpSession?)
      requires s != null ==> s.lib == lib
      requires lib.usageCount >= Live(s)
      modifies lib
      ensures lib.usageCount == old(lib.usageCount) - Live(s)
    {
      if s != null {
        s.Destroy();
      }
    }

    /** Keying goes through exactly when libsrtp runs or starts, both keys fit, and it takes both. */
    ghost predicate KeyingSucceeds(send: CryptoParams, recv: CryptoParams, running: bool, a: Answers) {
      (running || a.starts) && Fits(send, lengths) && a.send && Fits(recv, lengths) && a.recv
    }

    /** Create the pair and key it, or re-key the existing pair; any failure drops everything. */
    method SetRtpParams(send: CryptoParams, recv: CryptoParams, a: Answers) returns (ok: bool)
      requires Valid()
      modifies this, lib, sendSession, recvSession
      ensures Valid() && (ok <==> IsSrtpActive())
      ensures ok <==> KeyingSucceeds(send, recv, old(sendSession != null || lib.usageCount > 0), a)
      ensures ok ==> sendSession.installed == Some(send) && recvSession.installed == Some(recv)
      ensures ok ==> sendRtcpSession == old(sendRtcpSession) && recvRtcpSession == old(recvRtcpSession)
      ensures !ok ==> Empty()
      ensures forall s :: s in Sessions() ==> s in old(Sessions()) || fresh(s)
      ensures lib.usageCount - LiveSessions() == old(lib.usageCount - LiveSessions())
    {
      if sendSession == null {
        ok := KeyNewPair(send, recv, a);
      } else {
        ok := sendSession.UpdateKey(send, lengths, a.send);
        if ok {
          ok := recvSession.UpdateKey(recv, lengths, a.recv);
        }
      }
      if !ok {
        ResetParams();
      }
    }

    /** CreateSrtpSessions, SetSend, SetRecv. */
    method KeyNewPair(send: CryptoParams, recv: CryptoParams, a: Answers) returns (ok: bool)
      requires Valid() && sendSession == null
      modifies this`sendSession, this`recvSession, lib
      ensures ok <==> KeyingSucceeds(send, recv, old(lib.usageCount > 0), a)
      ensures Owns() && (ok ==> Paired())
      ensures sendSession != null && recvSession != null && fresh(sendSession) && fresh(recvSession)
      ensures ok ==> sendSession.installed == Some(send) && recvSession.installed == Some(recv)
      ensures lib.usageCount - LiveSessions() == old(lib.usageCount - LiveSessions())
    {
      sendSession := new SrtpSession(lib);
      recvSession := new SrtpSession(lib);
      ghost var rtcp := Live(sendRtcpSession) + Live(recvRtcpSession);
      assert old(LiveSessions()) == rtcp;
      ok := sendSession.SetKey(send, lengths, a.starts, a.send);
      assert LiveSessions() == rtcp + Live(sendSession);
      if !ok {
        return;
      }
      ok := recvSession.SetKey(recv, lengths, a.starts, a.recv);
      assert LiveSessions() == rtcp + Live(sendSession) + Live(recvSession);
    }

    /** Only while neither SRTCP session exists; a failure leaves what was made so far. */
    method SetRtcpParams(send: CryptoParams, recv: CryptoParams, a: Answers) returns (ok: bool)
      requires Valid()
      modifies this`sendRtcpSession, this`recvRtcpSession, lib
      ensures Valid()
      ensures old(sendRtcpSession != null || recvRtcpSession != null) ==>
                !ok && sendRtcpSession == old(sendRtcpSession) && recvRtcpSession == old(recvRtcpSession)
      ensures old(sendRtcpSession == null && recvRtcpSession == null) ==>
                && sendRtcpSession != null && fresh(sendRtcpSession)
                && (recvRtcpSession != null ==> fresh(recvRtcpSession))
                && (sendRtcpSession.hasContext <==> recvRtcpSession != null)
                && (sendRtcpSession.hasContext <==>
                     (old(lib.usageCount) > 0 || a.starts) && Fits(send, lengths) && a.send)
                && (ok <==> recvRtcpSession != null && recvRtcpSession.hasContext)
                && (ok <==> KeyingSucceeds(send, recv, old(lib.usageCount) > 0, a))
                && (ok ==> sendRtcpSession.installed == Some(send) && recvRtcpSession.installed == Some(recv))
      ensures lib.usageCount - LiveSessions() == old(lib.usageCount - LiveSessions())
    {
      if sendRtcpSession != null || recvRtcpSession != null {
        return false;
      }
      sendRtcpSession := new SrtpSession(lib);
      ok := sendRtcpSession.SetKey(send, lengths, a.starts, a.send);
      if !ok {
        return;
      }
      recvRtcpSession := new SrtpSession(lib);
      ok := recvRtcpSession.SetKey(recv, lengths, a.starts, a.recv);
    }

    /** How far a packet gets: an active transport always finds a context for RTP. */
    method ProtectRtp() returns (r: CryptOutcome)
      requires Valid()
      ensures r == if IsSrtpActive() then Attempted else Inactive
    {
      if !IsSrtpActive() {
        return Inactive;
      }
      return if sendSession.hasContext then Attempted else NoSession;
    }

    method UnprotectRtp() returns (r: CryptOutcome)
      requires Valid()
      ensures r == if IsSrtpActive() then Attempted else Inactive
    {
      if !IsSrtpActive() {
        return Inactive;
      }
      return if recvSession.hasContext then Attempted else NoSession;
    }

    /** For RTCP the failure is reachable: exactly while a send session for RTCP lacks its context. */
    method ProtectRtcp() returns (r: CryptOutcome)
      requires Valid()
      ensures r == NoSession <==> IsSrtpActive() && sendRtcpSession != null && !sendRtcpSession.hasContext
      ensures r == Inactive <==> !IsSrtpActive()
    {
      if !IsSrtpActive() {
        return Inactive;
      }
      if sendRtcpSession != null {
        return if sendRtcpSession.hasContext then Attempted else NoSession;
      } else {
        return if sendSession.hasContext then Attempted else NoSession;
      }
    }

    method UnprotectRtcp() returns (r: CryptOutcome)
      requires Valid()
      ensures r == NoSession <==> IsSrtpActive() && recvRtcpSession != null && !recvRtcpSession.hasContext
      ensures r == Inactive <==> !IsSrtpActive()
    {
      if !IsSrtpActive() {
        return Inactive;
      }
      if recvRtcpSession != null {
        return if recvRtcpSession.hasContext then Attempted else NoSession;
      } else {
        return if recvSession.hasContext then Attempted else NoSession;
      }
    }
  }

  /** SRTCP refused, SRTP keyed afterwards: an active transport whose RTCP packets find no context. */
  method RtcpWithoutContext(p: CryptoParams, lengths: CipherKeyLengths) returns (sent: CryptOutcome, received: CryptOutcome)
    requires Fits(p, lengths)
    ensures sent == received == NoSession
  {
    var lib := new LibSrtp();
    var sender := new SrtpTransport(lib, lengths);
    var keyed := sender.SetRtcpParams(p, p, Answers(true, false, true));
    keyed := sender.SetRtpParams(p, p, Answers(true, true, true));
    sent := sender.ProtectRtcp();
    var otherLib := new LibSrtp();
    var receiver := new SrtpTransport(otherLib, lengths);
    keyed := receiver.SetRtcpParams(p, p, Answers(true, true, false));
    keyed := receiver.SetRtpParams(p, p, Answers(true, true, true));
    received := receiver.UnprotectRtcp();
  }
}
