/** Verification of replies on the client side. */
module Responses {
  import opened Bytes
  import opened Header
  import opened Attributes
  import Authenticator
  import MessageAuthenticator

  datatype Response = Response(header: Header, packet: seq<byte>, requestAuthenticator: Digest)

  predicate MatchesReply(request: byte, response: byte) {
    if request == ACCESS_REQUEST then response in {ACCESS_ACCEPT, ACCESS_REJECT, ACCESS_CHALLENGE}
    else if request == ACCOUNTING_REQUEST then response == ACCOUNTING_RESPONSE
    else if request == STATUS_SERVER then response in {ACCESS_ACCEPT, ACCOUNTING_RESPONSE}
    else if request == COA_REQUEST then response in {COA_ACK, COA_NAK}
    else if request == DISCONNECT_REQUEST then response in {DISCONNECT_ACK, DISCONNECT_NAK}
    else false
  }

  /** A Message-Authenticator must be valid, except that an accounting reply may omit it. */
  predicate Signed(c: Crypto, bytes: seq<byte>, requestCode: byte, requestAuth: Digest, secret: seq<byte>) {
    match MessageAuthenticator.VerifyResult(c, bytes, requestAuth, secret)
    case Valid => true
    case Absent => requestCode == ACCOUNTING_REQUEST
    case Invalid => false
  }

  /** The reply a datagram is accepted as, if it is. */
  function Accept(c: Crypto, packet: seq<byte>, requestCode: byte, identifier: byte, requestAuth: Digest,
                  secret: seq<byte>)
    : (r: Option<Response>)
  {
    match Parse(packet)
    case Err(_) => None
    case Ok(p) =>
      var bytes := packet[..p.header.length];
      if p.header.identifier == identifier && MatchesReply(requestCode, p.header.code)
         && Authenticator.VerifyResponse(c, bytes, requestAuth, secret)
         && Signed(c, bytes, requestCode, requestAuth, secret)
      then Some(Response(p.header, bytes, requestAuth))
      else None
  }

  /** The scan for malformed or mis-sized attributes rejects nothing the signature check accepts. */
  method Verify(c: Crypto, packet: seq<byte>, requestCode: byte, identifier: byte, requestAuth: Digest,
                secret: seq<byte>)
    returns (r: Option<Response>)
    ensures r == Accept(c, packet, requestCode, identifier, requestAuth, secret)
  {
    var parsed := Parse(packet);
    if parsed.Err? {
      return None;
    }
    var header, attrs := parsed.value.header, parsed.value.attrs;
    if header.identifier != identifier || !MatchesReply(requestCode, header.code) {
      return None;
    }
    var bytes := packet[..header.length];
    assert bytes[20..] == attrs;
    var sane := WellSized(attrs);
    if !sane {
      return None;
    }
    if !Authenticator.VerifyResponse(c, bytes, requestAuth, secret) {
      return None;
    }
    var ma := MessageAuthenticator.Verify(c, bytes, requestAuth, secret);
    match ma {
      case Valid =>
      case Absent =>
        if requestCode != ACCOUNTING_REQUEST {
          return None;
        }
      case Invalid => return None;
    }
    return Some(Response(header, bytes, requestAuth));
  }

  /** Every slot is readable and every Message-Authenticator has 16 octets. */
  method WellSized(attrs: seq<byte>) returns (ok: bool)
    ensures ok <==> WellFormed(attrs)
                    && forall v :: v in MessageAuthenticator.MaValues(Walk(attrs).attrs) ==> |v| == 16
  {
    var it := new AttributesIter(attrs);
    ghost var all := Walk(attrs);
    ghost var seen: seq<seq<byte>> := [];
    while true
      invariant fresh(it) && !it.halted && it.Remaining().tail == all.tail
      invariant MessageAuthenticator.MaValues(all.attrs)
                == seen + MessageAuthenticator.MaValues(it.Remaining().attrs)
      invariant forall v :: v in seen ==> |v| == 16
      decreases |it.rest|
    {
      var slot := it.Next();
      match slot {
        case None => return true;
        case Some(Err(_)) => return false;
        case Some(Ok(attribute)) =>
          MessageAuthenticator.MaValuesCons(attribute, it.Remaining().attrs);
          if attribute.typ == MessageAuthenticator.TYPE {
            if |attribute.value| != MessageAuthenticator.VALUE_LEN {
              assert MessageAuthenticator.MaValues(all.attrs)[|seen|] == attribute.value;
              return false;
            }
            seen := seen + [attribute.value];
          }
      }
    }
  }

  /** Acceptance of a framed packet, whatever padding follows it. */
  lemma AcceptFrame(c: Crypto, code: byte, identifier: byte, auth: Digest, region: seq<byte>, padding: seq<byte>,
                    requestCode: byte, expected: byte, requestAuth: Digest, secret: seq<byte>)
    requires MIN_PACKET_LEN + |region| <= MAX_PACKET_LEN
    ensures var packet := Frame(code, identifier, auth, region);
            Accept(c, packet + padding, requestCode, expected, requestAuth, secret)
            == if identifier == expected && MatchesReply(requestCode, code)
                  && auth == Authenticator.Signature(c, code, identifier, region, requestAuth, secret)
                  && Signed(c, packet, requestCode, requestAuth, secret)
               then Some(Response(Header(code, identifier, |packet|, auth), packet, requestAuth))
               else None
  {
    var packet := Frame(code, identifier, auth, region);
    ParseFrame(code, identifier, auth, region, padding);
    assert (packet + padding)[..|packet|] == packet;
    Authenticator.VerifiesIffSigned(c, code, identifier, auth, region, requestAuth, secret);
  }
}
