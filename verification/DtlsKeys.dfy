/** DTLS role negotiation, and the SRTP keys both ends cut out of the exported block. */
module DtlsKeys {
  import opened Wrappers
  import opened Sdp

  datatype ConnectionRole = RoleNone | RoleActive | RolePassive | RoleActPass | RoleHoldConn
  datatype SSLRole = Client | Server

  datatype RoleError =
    | OffererMustUseActPass
    | AnswererMustBeActiveOrPassive
    | AnswererMustBePassive
    | AnswererMustBeActive
    | OffererMustKeepRole
    | NoOffer
    | OfferWithoutDtls

  datatype Negotiated<+T> = Ok(value: T) | Err(error: RoleError)

  function Opposite(role: SSLRole): SSLRole {
    if role == Client then Server else Client
  }

  /** `current` is the role the transport already has, if it has one. */
  function NegotiateDtlsRole(localType: SdpType, localRole: ConnectionRole, remoteRole: ConnectionRole,
                             current: Option<SSLRole>): Negotiated<SSLRole>
  {
    if localType == Offer then
      if localRole != RoleActPass then Err(OffererMustUseActPass)
      else if remoteRole in {RoleActive, RolePassive, RoleNone} then
        Ok(if remoteRole == RolePassive then Client else Server)
      else Err(AnswererMustBeActiveOrPassive)
    else
      var conflict :=
        if remoteRole == RoleActPass || remoteRole == RoleNone then None
        else if current.None? then
          if remoteRole == RoleActive && localRole != RolePassive then Some(AnswererMustBePassive)
          else if remoteRole == RolePassive && localRole != RoleActive then Some(AnswererMustBeActive)
          else None
        else if (current.value == Client && remoteRole == RoleActive) ||
                (current.value == Server && remoteRole == RolePassive) then Some(OffererMustKeepRole)
        else None;
      if conflict.Some? then Err(conflict.value)
      else if localRole == RoleActive || localRole == RolePassive then
        Ok(if localRole == RoleActive then Client else Server)
      else Err(AnswererMustBeActiveOrPassive)
  }

  /** Both ends accept exactly an actpass offer with an active or passive answer, and then one is the
      client and the other the server (RFC 4145, section 4.1; RFC 5763, section 5). */
  lemma RolesAreOpposite(offerRole: ConnectionRole, answerRole: ConnectionRole, answerType: SdpType,
                         offererCurrent: Option<SSLRole>, answererCurrent: Option<SSLRole>)
    requires answerType != Offer
    ensures var offerer := NegotiateDtlsRole(Offer, offerRole, answerRole, offererCurrent);
            var answerer := NegotiateDtlsRole(answerType, answerRole, offerRole, answererCurrent);
      && (offerer.Ok? && answerer.Ok? <==> offerRole == RoleActPass && answerRole in {RoleActive, RolePassive})
      && (offerer.Ok? && answerer.Ok? ==> answerer.value == Opposite(offerer.value))
      && (offerer.Ok? <==> offerRole == RoleActPass && answerRole in {RoleActive, RolePassive, RoleNone})
      && (offerer.Ok? ==> (offerer.value == Client <==> answerRole == RolePassive))
  {
  }

  /** The role an endpoint announces by active or passive. */
  function AnnouncedRole(role: ConnectionRole): SSLRole
    requires role in {RoleActive, RolePassive}
  {
    if role == RoleActive then Client else Server
  }

  /** Against an offer that is active or passive (RFC 8842, section 5.3) the answerer ends up opposite to
      the offerer exactly when it announces the other role; only without a current role is it made to. */
  lemma AnswererFitsOffer(answerType: SdpType, localRole: ConnectionRole, remoteRole: ConnectionRole,
                          current: Option<SSLRole>)
    requires answerType != Offer && remoteRole in {RoleActive, RolePassive}
    requires NegotiateDtlsRole(answerType, localRole, remoteRole, current).Ok?
    ensures var role := NegotiateDtlsRole(answerType, localRole, remoteRole, current).value;
      && localRole in {RoleActive, RolePassive} && (role == Client <==> localRole == RoleActive)
      && (role == Opposite(AnnouncedRole(remoteRole)) <==> localRole != remoteRole)
      && (current.None? ==> localRole != remoteRole)
  {
  }

  /** An answerer that announces the offerer's own role, so that both ends would take it, gets through exactly
      when it already has the opposite role. */
  lemma BothTakeOneRoleExactly(answerType: SdpType, remoteRole: ConnectionRole, current: Option<SSLRole>)
    requires answerType != Offer && remoteRole in {RoleActive, RolePassive}
    ensures NegotiateDtlsRole(answerType, remoteRole, remoteRole, current).Ok? <==>
              current == Some(Opposite(AnnouncedRole(remoteRole)))
    ensures NegotiateDtlsRole(answerType, remoteRole, remoteRole, current).Ok? ==>
              NegotiateDtlsRole(answerType, remoteRole, remoteRole, current) == Ok(AnnouncedRole(remoteRole))
  {
  }

  /** What role negotiation reads of a transport description. */
  datatype TransportDescription = TransportDescription(hasFingerprint: bool, role: ConnectionRole)

  /** NegotiateAndSetDtlsParameters up to the push into the transport; None means no DTLS. */
  function NegotiateDtlsParameters(localType: SdpType, local: Option<TransportDescription>,
                                   remote: Option<TransportDescription>, current: Option<SSLRole>)
    : Negotiated<Option<SSLRole>>
  {
    if local.None? || remote.None? then Err(NoOffer)
    else if remote.value.hasFingerprint && local.value.hasFingerprint then
      match NegotiateDtlsRole(localType, local.value.role, remote.value.role, current)
      case Ok(role) => Ok(Some(role))
      case Err(e) => Err(e)
    else if local.value.hasFingerprint && localType == Answer then Err(OfferWithoutDtls)
    else Ok(None)
  }

  /** DTLS is given up exactly when a fingerprint is missing, unless a final answer has one that the offer lacks. */
  lemma NoDtlsExactly(localType: SdpType, local: TransportDescription, remote: TransportDescription,
                      current: Option<SSLRole>)
    ensures NegotiateDtlsParameters(localType, Some(local), Some(remote), current) == Ok(None) <==>
              if local.hasFingerprint then !remote.hasFingerprint && localType != Answer else true
  {
  }

  /** Whatever the descriptions, two ends that both succeed agree on DTLS, and on who is the client. */
  lemma EndsAgreeOnDtls(offer: TransportDescription, answer: TransportDescription, answerType: SdpType,
                        offererCurrent: Option<SSLRole>, answererCurrent: Option<SSLRole>)
    requires answerType != Offer
    ensures var offerer := NegotiateDtlsParameters(Offer, Some(offer), Some(answer), offererCurrent);
            var answerer := NegotiateDtlsParameters(answerType, Some(answer), Some(offer), answererCurrent);
      offerer.Ok? && answerer.Ok? ==>
        (offerer.value.None? <==> answerer.value.None?) &&
        (offerer.value.Some? ==> answerer.value == Some(Opposite(offerer.value.value))) &&
        (offerer.value.Some? ==> (offerer.value == Some(Client) <==> answer.role == RolePassive))
  {
    if offer.hasFingerprint && answer.hasFingerprint {
      RolesAreOpposite(offer.role, answer.role, answerType, offererCurrent, answererCurrent);
    }
  }

  /* ---- keys ---- */

  newtype byte = x: int | 0 <= x < 256

  /** What SRTP reads of a DTLS transport; the handshake changes it from outside. */
  class DtlsTransport {
    var dtlsActive: bool
    var connected: bool
    var writable: bool
    var srtpCryptoSuite: Option<int>
    var role: Option<SSLRole>
    /** The RFC 5705 exporter, as the block of a given length; None when the export fails. */
    var exporter: nat -> Option<seq<byte>>

    constructor ()
    {
      dtlsActive, connected, writable := false, false, false;
      srtpCryptoSuite, role := None, None;
      exporter := _ => None;
    }

    method ExportKeyingMaterial(buffer: array<byte>) returns (ok: bool)
      modifies buffer
      ensures ok <==> HasBlock(buffer.Length)
      ensures ok ==> buffer[..] == exporter(buffer.Length).value
    {
      var block := exporter(buffer.Length);
      if block.None? || |block.value| != buffer.Length {
        return false;
      }
      CopyBytes(buffer, 0, block.value, 0, buffer.Length);
      return true;
    }

    ghost predicate HasBlock(length: nat)
      reads this
    {
      exporter(length).Some? && |exporter(length).value| == length
    }
  }

  /** A buffer with a stretch of it overwritten. */
  ghost function Overwritten(to: seq<byte>, toOffset: nat, from: seq<byte>, fromOffset: nat, length: nat): seq<byte>
    requires toOffset + length <= |to| && fromOffset + length <= |from|
  {
    seq(|to|, i requires 0 <= i < |to| =>
      if toOffset <= i < toOffset + length then from[i - toOffset + fromOffset] else to[i])
  }

  lemma TwoStretchesFill(to: seq<byte>, from: seq<byte>, a: nat, aLength: nat, b: nat, bLength: nat)
    requires |to| == aLength + bLength && a + aLength <= |from| && b + bLength <= |from|
    ensures Overwritten(Overwritten(to, 0, from, a, aLength), aLength, from, b, bLength) ==
              from[a..a + aLength] + from[b..b + bLength]
  {
  }

  /** memcpy. */
  method CopyBytes(to: array<byte>, toOffset: nat, from: seq<byte>, fromOffset: nat, length: nat)
    requires toOffset + length <= to.Length && fromOffset + length <= |from|
    modifies to
    ensures to[..] == Overwritten(old(to[..]), toOffset, from, fromOffset, length)
  {
    for i := 0 to length
      invariant forall k :: toOffset <= k < toOffset + i ==> to[k] == from[k - toOffset + fromOffset]
      invariant forall k :: 0 <= k < to.Length && !(toOffset <= k < toOffset + i) ==> to[k] == old(to[k])
    {
      to[toOffset + i] := from[fromOffset + i];
    }
  }

  /* The layout of the block (RFC 5764, section 4.2): client key, server key, client salt, server salt. */

  function BlockLength(keyLen: nat, saltLen: nat): nat {
    keyLen * 2 + saltLen * 2
  }

  ghost function ClientWriteKey(block: seq<byte>, keyLen: nat, saltLen: nat): (r: seq<byte>)
    requires |block| == BlockLength(keyLen, saltLen)
    ensures |r| == keyLen + saltLen
  {
    block[..keyLen] + block[2 * keyLen..2 * keyLen + saltLen]
  }

  ghost function ServerWriteKey(block: seq<byte>, keyLen: nat, saltLen: nat): (r: seq<byte>)
    requires |block| == BlockLength(keyLen, saltLen)
    ensures |r| == keyLen + saltLen
  {
    block[keyLen..2 * keyLen] + block[2 * keyLen + saltLen..]
  }

  /** The two keys use every byte of the block, each once. */
  lemma BlockIsRecovered(block: seq<byte>, keyLen: nat, saltLen: nat)
    requires |block| == BlockLength(keyLen, saltLen)
    ensures var c, s := ClientWriteKey(block, keyLen, saltLen), ServerWriteKey(block, keyLen, saltLen);
      block == c[..keyLen] + s[..keyLen] + c[keyLen..] + s[keyLen..]
  {
  }

  /** The cipher key and salt lengths of an SRTP crypto suite. */
  type SuiteLengths = int -> Option<(nat, nat)>

  datatype Extracted = NoKeys | Keys(suite: int, send: seq<byte>, recv: seq<byte>)

  /** The keys a DTLS transport yields right now. */
  ghost function KeysOf(transport: DtlsTransport, lengths: SuiteLengths): Extracted
    reads transport
  {
    if !transport.dtlsActive || transport.srtpCryptoSuite.None? || lengths(transport.srtpCryptoSuite.value).None?
    then NoKeys else
      var suite := transport.srtpCryptoSuite.value;
      var (keyLen, saltLen) := lengths(suite).value;
      if !transport.HasBlock(BlockLength(keyLen, saltLen)) || transport.role.None? then NoKeys else
        var block := transport.exporter(BlockLength(keyLen, saltLen)).value;
        var c, s := ClientWriteKey(block, keyLen, saltLen), ServerWriteKey(block, keyLen, saltLen);
        if transport.role.value == Server then Keys(suite, s, c) else Keys(suite, c, s)
  }

  /** A null transport is None. A client sends with the first key and the first salt of the block and receives with
      the second ones, a server the other way round. */
  method ExtractParams(transport: Option<DtlsTransport>, lengths: SuiteLengths) returns (r: Extracted)
    ensures r == if transport.None? then NoKeys else KeysOf(transport.value, lengths)
    ensures r.Keys? <==>
              transport.Some? && var t := transport.value;
              && t.dtlsActive && t.srtpCryptoSuite.Some? && t.role.Some? && lengths(t.srtpCryptoSuite.value).Some?
              && var (key, salt) := lengths(t.srtpCryptoSuite.value).value; t.HasBlock(2 * key + 2 * salt)
    ensures r.Keys? ==>
              var t := transport.value;
              && t.srtpCryptoSuite == Some(r.suite)
              && var (key, salt) := lengths(r.suite).value;
                 var block := t.exporter(2 * key + 2 * salt).value;
                 var first, second := block[..key] + block[2 * key..2 * key + salt],
                                      block[key..2 * key] + block[2 * key + salt..];
                 && (t.role.value == Client ==> r.send == first && r.recv == second)
                 && (t.role.value == Server ==> r.send == second && r.recv == first)
  {
    if transport.None? || !transport.value.dtlsActive {
      return NoKeys;
    }
    var t := transport.value;
    if t.srtpCryptoSuite.None? {
      return NoKeys;
    }
    var suite := t.srtpCryptoSuite.value;
    if lengths(suite).None? {
      return NoKeys;
    }
    var (keyLen, saltLen) := lengths(suite).value;
    var buffer := new byte[BlockLength(keyLen, saltLen)](_ => 0);
    var exported := t.ExportKeyingMaterial(buffer);
    if !exported {
      return NoKeys;
    }
    var client, server := SliceKeys(buffer[..], keyLen, saltLen);
    if t.role.None? {
      return NoKeys;
    }
    if t.role.value == Server {
      return Keys(suite, server, client);
    } else {
      return Keys(suite, client, server);
    }
  }

  /** Two copies with a moving offset: a stretch for the client, the next one for the server. */
  method CopyPair(client: array<byte>, server: array<byte>, at: nat, block: seq<byte>, offset: nat, length: nat)
    returns (next: nat)
    requires client != server && at + length <= client.Length && at + length <= server.Length
    requires offset + 2 * length <= |block|
    modifies client, server
    ensures next == offset + 2 * length
    ensures client[..] == Overwritten(old(client[..]), at, block, offset, length)
    ensures server[..] == Overwritten(old(server[..]), at, block, offset + length, length)
  {
    next := offset;
    CopyBytes(client, at, block, next, length);
    next := next + length;
    CopyBytes(server, at, block, next, length);
    next := next + length;
  }

  /** Keys first, then salts. */
  method SliceKeys(block: seq<byte>, keyLen: nat, saltLen: nat) returns (clientKey: seq<byte>, serverKey: seq<byte>)
    requires |block| == BlockLength(keyLen, saltLen)
    ensures clientKey == ClientWriteKey(block, keyLen, saltLen)
    ensures serverKey == ServerWriteKey(block, keyLen, saltLen)
  {
    var client := new byte[keyLen + saltLen](_ => 0);
    var server := new byte[keyLen + saltLen](_ => 0);
    ghost var zeros := client[..];
    assert zeros == server[..];
    StretchesAreKeys(zeros, block, keyLen, saltLen);
    var offset := CopyPair(client, server, 0, block, 0, keyLen);
    offset := CopyPair(client, server, keyLen, block, offset, saltLen);
    clientKey, serverKey := client[..], server[..];
  }

  lemma StretchesAreKeys(zeros: seq<byte>, block: seq<byte>, keyLen: nat, saltLen: nat)
    requires |zeros| == keyLen + saltLen && |block| == BlockLength(keyLen, saltLen)
    ensures Overwritten(Overwritten(zeros, 0, block, 0, keyLen), keyLen, block, 2 * keyLen, saltLen) ==
              ClientWriteKey(block, keyLen, saltLen)
    ensures Overwritten(Overwritten(zeros, 0, block, keyLen, keyLen), keyLen, block, 2 * keyLen + saltLen, saltLen) ==
              ServerWriteKey(block, keyLen, saltLen)
  {
    TwoStretchesFill(zeros, block, 0, keyLen, 2 * keyLen, saltLen);
    TwoStretchesFill(zeros, block, keyLen, keyLen, 2 * keyLen + saltLen, saltLen);
  }

  /** Two ends of one DTLS session: same suite, same exporter, opposite roles. */
  ghost predicate SameSession(a: DtlsTransport, b: DtlsTransport)
    reads a, b
  {
    && a.dtlsActive && b.dtlsActive
    && a.srtpCryptoSuite == b.srtpCryptoSuite && a.exporter == b.exporter
    && a.role.Some? && b.role == Some(Opposite(a.role.value))
  }

  /** Each end sends with the key the other end receives with. */
  lemma EndsAgreeOnKeys(a: DtlsTransport, b: DtlsTransport, lengths: SuiteLengths)
    requires SameSession(a, b)
    ensures KeysOf(a, lengths).Keys? <==> KeysOf(b, lengths).Keys?
    ensures KeysOf(a, lengths).Keys? ==>
              var ka, kb := KeysOf(a, lengths), KeysOf(b, lengths);
              ka.suite == kb.suite && ka.send == kb.recv && ka.recv == kb.send
  {
  }

  /** From the descriptions to the keys: ends that negotiated DTLS and share a session agree. */
  lemma NegotiatedEndsAgreeOnKeys(offer: TransportDescription, answer: TransportDescription, answerType: SdpType,
                                  a: DtlsTransport, b: DtlsTransport, lengths: SuiteLengths,
                                  aBefore: Option<SSLRole>, bBefore: Option<SSLRole>)
    requires answerType != Offer
    requires NegotiateDtlsParameters(Offer, Some(offer), Some(answer), aBefore) == Ok(a.role)
    requires NegotiateDtlsParameters(answerType, Some(answer), Some(offer), bBefore) == Ok(b.role)
    requires a.role.Some? || b.role.Some?
    requires a.dtlsActive && b.dtlsActive && a.srtpCryptoSuite == b.srtpCryptoSuite && a.exporter == b.exporter
    requires KeysOf(a, lengths).Keys?
    ensures KeysOf(b, lengths).Keys?
    ensures KeysOf(a, lengths).send == KeysOf(b, lengths).recv
    ensures KeysOf(a, lengths).recv == KeysOf(b, lengths).send
  {
    EndsAgreeOnDtls(offer, answer, answerType, aBefore, bBefore);
    EndsAgreeOnKeys(a, b, lengths);
  }
}
