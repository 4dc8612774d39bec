/** The RadSec client's answer to dynamic-authorization requests it does not support. */
module RadsecNak {
  import opened Bytes
  import opened Header
  import opened Attributes
  import opened PacketBuffers
  import MessageAuthenticator
  import Authenticator
  import Replies
  import Requests
  import Responses

  const SECRET: seq<byte> := [114, 97, 100, 115, 101, 99]
  const ERROR_CAUSE: byte := 101

  /** Error-Cause 406, Unsupported-Extension. */
  const UNSUPPORTED: Attr := RawAttribute(ERROR_CAUSE, [0, 0, 1, 150])

  datatype IoError = BadHeader(error: HeaderError) | InvalidRequest

  function NakCode(code: byte): (r: Option<byte>) {
    if code == COA_REQUEST then Some(COA_NAK)
    else if code == DISCONNECT_REQUEST then Some(DISCONNECT_NAK)
    else None
  }

  /** A frame that is authentic enough to answer. */
  predicate Answerable(c: Crypto, packet: seq<byte>, attrs: seq<byte>) {
    WellFormed(attrs) && Authenticator.VerifyZeroedRequest(c, packet, SECRET)
    && !MessageAuthenticator.VerifyResult(c, packet, ZERO_DIGEST, SECRET).Invalid?
  }

  lemma UnsupportedFits()
    ensures Replies.Fits(true, [UNSUPPORTED]) && UNSUPPORTED == RawAttribute(101, [0, 0] + U16(406))
  {
    EncodeCons(MessageAuthenticator.MaSlot(ZERO_DIGEST), [UNSUPPORTED]);
    EncodeOne(UNSUPPORTED);
  }

  /** Other codes pass through; a CoA or Disconnect request that fails a check is an error; one that
      passes is answered with a sealed NAK carrying Error-Cause alone. */
  method UnsupportedDynamicRequest(c: Crypto, packet: seq<byte>) returns (r: Result<Option<seq<byte>>, IoError>)
    ensures match Parse(packet)
            case Err(e) => r == Err(BadHeader(e))
            case Ok(p) =>
              if p.header.code != 43 && p.header.code != 40 then r == Ok(None)
              else if !Answerable(c, packet, p.attrs) then r == Err(InvalidRequest)
              else
                NakCode(p.header.code) == Some(if p.header.code == 43 then 45 else 42)
                && Replies.Fits(true, [UNSUPPORTED])
                && r == Ok(Some(Replies.Sealed(c, NakCode(p.header.code).value, p.header.identifier, true,
                                               [UNSUPPORTED], p.header.authenticator, SECRET)))
  {
    hide Encode, Walk, Replies.Sealed, MessageAuthenticator.VerifyResult, Authenticator.VerifyZeroedRequest,
         PacketBuffers.Step;
    UnsupportedFits();
    var parsed := Parse(packet);
    if parsed.Err? {
      return Err(BadHeader(parsed.error));
    }
    var header, attrs := parsed.value.header, parsed.value.attrs;
    var code := NakCode(header.code);
    if code.None? {
      return Ok(None);
    }
    var malformed := AnyMalformed(attrs);
    var ma := MessageAuthenticator.Verify(c, packet, ZERO_DIGEST, SECRET);
    if malformed || !Authenticator.VerifyZeroedRequest(c, packet, SECRET) || ma.Invalid? {
      return Err(InvalidRequest);
    }
    var reply := new Replies.Reply(code.value, header.identifier);
    EncodeOne(MessageAuthenticator.MaSlot(ZERO_DIGEST));
    assert [MessageAuthenticator.MaSlot(ZERO_DIGEST)] + [] == [MessageAuthenticator.MaSlot(ZERO_DIGEST)];
    // A new reply always has room for these six octets.
    var _ := reply.Append(BuildOp.AddAttribute(ERROR_CAUSE, [0, 0, 1, 150]));
    assert reply.attrs == [UNSUPPORTED];
    var bytes := reply.SealFor(c, header.authenticator, SECRET);
    return Ok(Some(bytes));
  }

  method AnyMalformed(attrs: seq<byte>) returns (r: bool)
    ensures r <==> !WellFormed(attrs)
  {
    var it := new AttributesIter(attrs);
    while true
      invariant fresh(it) && !it.halted && it.Remaining().tail == Walk(attrs).tail
      decreases |it.rest|
    {
      var slot := it.Next();
      match slot {
        case None => return false;
        case Some(Err(_)) => return true;
        case Some(Ok(_)) =>
      }
    }
  }

  /** A frame is answered exactly when all three hold: its attributes are readable, its Authenticator is
      the zeroed-request signature under the RadSec secret, and it has no Message-Authenticator or
      one that holds the tag under zeros. */
  lemma AnswerableIff(c: Crypto, code: byte, identifier: byte, auth: Digest, attrs: seq<Attr>, tail: seq<byte>)
    requires Stuck(tail) && MIN_PACKET_LEN + |Encode(attrs) + tail| <= MAX_PACKET_LEN
    ensures var region := Encode(attrs) + tail;
            var values := MessageAuthenticator.MaValues(attrs);
            Answerable(c, Frame(code, identifier, auth, region), region)
            <==> tail == []
                 && auth == (c.md5)([code, identifier] + U16(20 + |region|) + ZERO_DIGEST + region + SECRET)
                 && (values == []
                     || values == [(c.hmac)(SECRET, [code, identifier] + U16(20 + |region|) + ZERO_DIGEST
                                                    + Encode(MessageAuthenticator.ZeroSlots(attrs)))])
  {
    hide MessageAuthenticator.VerifyResult, Authenticator.VerifyZeroedRequest, Frame, Walk, Encode;
    WalkUnique(attrs, tail);
    Authenticator.VerifiesIffSigned(c, code, identifier, auth, Encode(attrs) + tail, ZERO_DIGEST, SECRET);
    if tail == [] {
      assert Encode(attrs) + tail == Encode(attrs);
      MessageAuthenticator.VerifyFrame(c, code, identifier, auth, attrs, ZERO_DIGEST, SECRET);
      MessageAuthenticator.TagOctets(c, code, identifier, attrs, ZERO_DIGEST, SECRET);
    }
  }

  lemma SealedIsAnswerable(c: Crypto, code: byte, identifier: byte, attrs: seq<Attr>, random: Digest)
    requires NakCode(code).Some?
    requires Replies.Fits(true, attrs) && NoneOfType(attrs, MessageAuthenticator.TYPE)
    ensures var packet := Requests.Sealed(c, code, identifier, attrs, random, SECRET);
            Parse(packet).Ok?
            && var p := Parse(packet).value;
               p.header.code == code && p.header.identifier == identifier && Answerable(c, packet, p.attrs)
  {
    var region := Replies.SealedRegion(c, code, identifier, true, attrs, ZERO_DIGEST, SECRET);
    var auth := Authenticator.Signature(c, code, identifier, region, ZERO_DIGEST, SECRET);
    var packet := Requests.Sealed(c, code, identifier, attrs, random, SECRET);
    assert packet == Frame(code, identifier, auth, region);
    ParseFrame(code, identifier, auth, region, []);
    assert packet + [] == packet;
    Requests.SealedVerifies(c, code, identifier, attrs, random, SECRET);
  }

  /** Every CoA or Disconnect request sealed by the request builder under the RadSec secret is
      answerable, and the NAK it gets is accepted by the requester as the reply to that request. */
  lemma NakIsAccepted(c: Crypto, code: byte, identifier: byte, attrs: seq<Attr>, random: Digest)
    requires NakCode(code).Some?
    requires Replies.Fits(true, attrs) && NoneOfType(attrs, MessageAuthenticator.TYPE)
    ensures Replies.Fits(true, [UNSUPPORTED])
    ensures var packet := Requests.Sealed(c, code, identifier, attrs, random, SECRET);
            Parse(packet).Ok?
            && var p := Parse(packet).value;
               p.header.code == code && p.header.identifier == identifier && Answerable(c, packet, p.attrs)
               && var nak := Replies.Sealed(c, NakCode(code).value, identifier, true, [UNSUPPORTED],
                                            p.header.authenticator, SECRET);
                  var r := Responses.Accept(c, nak, code, identifier, p.header.authenticator, SECRET);
                  r.Some? && |r.value.packet| >= 20
                  && FirstRaw(r.value.packet[20..], ERROR_CAUSE) == Ok(Some(UNSUPPORTED))
  {
    hide Requests.Sealed, Responses.Accept, Answerable, Walk, Encode;
    UnsupportedFits();
    SealedIsAnswerable(c, code, identifier, attrs, random);
    var packet := Requests.Sealed(c, code, identifier, attrs, random, SECRET);
    var auth := Parse(packet).value.header.authenticator;
    var nak := Replies.Sealed(c, NakCode(code).value, identifier, true, [UNSUPPORTED], auth, SECRET);
    assert nak + [] == nak;
    Replies.SealedAccepted(c, NakCode(code).value, identifier, true, [UNSUPPORTED], auth, SECRET, [], code, identifier);
    var onWire := Replies.OnWire(c, NakCode(code).value, identifier, true, [UNSUPPORTED], auth, SECRET);
    assert onWire == [onWire[0]] + [UNSUPPORTED] + [];
    FirstOfTypeAt([onWire[0]], UNSUPPORTED, []);
  }
}
