/** The sealing helpers of the packet buffer itself, on any buffer. */
module SealedBuffers {
  import opened Bytes
  import opened Header
  import opened Attributes
  import opened PacketBuffers
  import opened MessageAuthenticator
  import Authenticator

  /** Whatever the buffer holds, the result is a frame of it that passes the zeroed-request check. */
  method SealAsZeroedRequest(c: Crypto, buf: PacketBuffer, secret: seq<byte>)
    requires buf.Valid()
    modifies buf
    ensures buf.Valid() && Authenticator.VerifyZeroedRequest(c, buf.inner, secret)
    ensures exists auth: Digest :: buf.inner == Frame(old(buf.inner[0]), old(buf.inner[1]), auth, old(buf.inner[20..]))
  {
    ghost var code, identifier, region := buf.inner[0], buf.inner[1], buf.inner[20..];
    ghost var before: Digest := buf.inner[4..20];
    PatchAnyLength(buf.inner);
    buf.PatchLength();
    Authenticator.VerifiesIffSigned(c, code, identifier, before, region, ZERO_DIGEST, secret);
    var auth := Authenticator.ComputeZeroedRequest(c, buf.inner, secret);
    ResignedFrame(code, identifier, before, auth, region);
    Authenticator.VerifiesIffSigned(c, code, identifier, auth, region, ZERO_DIGEST, secret);
    buf.SetAuthenticator(auth);
  }

  lemma PatchAnyLength(inner: seq<byte>)
    requires MIN_PACKET_LEN <= |inner| <= MAX_PACKET_LEN
    ensures inner[..2] + U16(|inner|) + inner[4..] == Frame(inner[0], inner[1], inner[4..20], inner[20..])
  {
  }

  /** Fails exactly when 18 more octets do not fit, and then keeps the attributes. On a well-formed
      buffer the signature is valid exactly when no attribute of type 80 was there before. */
  method SealAsRandomAuthenticatorRequest(c: Crypto, buf: PacketBuffer, requestAuth: Digest, secret: seq<byte>)
    returns (r: Outcome)
    requires buf.Valid()
    modifies buf
    ensures buf.Valid()
    ensures r.None? <==> old(|buf.inner|) + TLV_LEN <= MAX_PACKET_LEN
    ensures r.Some? ==> buf.inner[20..] == old(buf.inner[20..]) && r.value == PacketTooLarge(|buf.inner|, TLV_LEN)
    ensures r.None? ==> exists tag: Digest :: buf.inner == Frame(old(buf.inner[0]), old(buf.inner[1]), requestAuth,
                                                                 old(buf.inner[20..]) + EncodeAttr(MaSlot(tag)))
    ensures r.None? && WellFormed(old(buf.inner[20..])) ==>
              var attrs := Walk(old(buf.inner[20..])).attrs;
              buf.inner[4..20] == requestAuth
              && (VerifyResult(c, buf.inner, requestAuth, secret) == Valid <==> NoneOfType(attrs, TYPE))
  {
    hide Tag, VerifyResult, Walk, Encode, EncodeAttr, NoneOfType, Frame;
    ghost var code, identifier, region := buf.inner[0], buf.inner[1], buf.inner[20..];
    buf.SetAuthenticator(requestAuth);
    var slot := AppendZeroedSlot(buf);
    if slot.Err? {
      return Some(slot.error);
    }
    var valueOffset := slot.value;
    ghost var zeroed := region + EncodeAttr(MaSlot(ZERO_DIGEST));
    assert buf.inner[20..] == zeroed && buf.inner[4..20] == requestAuth;
    PatchAnyLength(buf.inner);
    buf.PatchLength();
    var tag := Compute(c, buf.inner, requestAuth, secret);
    PatchTrailingSlot(code, identifier, requestAuth, region, tag);
    buf.Patch(valueOffset, tag);
    assert buf.inner == Frame(code, identifier, requestAuth, region + EncodeAttr(MaSlot(tag)));
    if WellFormed(region) {
      TrailingSlotVerifies(c, code, identifier, requestAuth, region, tag, secret);
    }
    return None;
  }

  lemma PatchTrailingSlot(code: byte, identifier: byte, auth: Digest, region: seq<byte>, tag: Digest)
    requires |region| + 38 <= MAX_PACKET_LEN
    ensures var f := Frame(code, identifier, auth, region + EncodeAttr(MaSlot(ZERO_DIGEST)));
            f[..22 + |region|] + tag + f[38 + |region|..]
            == Frame(code, identifier, auth, region + EncodeAttr(MaSlot(tag)))
  {
  }

  lemma {:induction false} MaValuesAppend(a: seq<Attr>, b: seq<Attr>)
    ensures MaValues(a + b) == MaValues(a) + MaValues(b)
    ensures ZeroSlots(a + b) == ZeroSlots(a) + ZeroSlots(b)
  {
    if a == [] {
      assert a + b == b;
    } else {
      assert (a + b)[0] == a[0] && (a + b)[1..] == a[1..] + b;
      MaValuesAppend(a[1..], b);
    }
  }

  lemma TrailingSlotVerifies(c: Crypto, code: byte, identifier: byte, auth: Digest, region: seq<byte>, tag: Digest,
                             secret: seq<byte>)
    requires |region| + 38 <= MAX_PACKET_LEN && WellFormed(region)
    requires tag == Tag(c, Frame(code, identifier, auth, region + EncodeAttr(MaSlot(ZERO_DIGEST))), auth, secret)
    ensures VerifyResult(c, Frame(code, identifier, auth, region + EncodeAttr(MaSlot(tag))), auth, secret) == Valid
            <==> NoneOfType(Walk(region).attrs, TYPE)
  {
    var attrs := Walk(region).attrs;
    WellFormedIffEncoded(region);
    TrailingFrame(c, code, identifier, auth, attrs, ZERO_DIGEST, secret);
    TrailingFrame(c, code, identifier, auth, attrs, tag, secret);
    NoMaValuesIff(attrs);
  }

  lemma TrailingFrame(c: Crypto, code: byte, identifier: byte, auth: Digest, attrs: seq<Attr>, tag: Digest,
                      secret: seq<byte>)
    requires |Encode(attrs)| + 38 <= MAX_PACKET_LEN
    ensures var region := Encode(attrs) + EncodeAttr(MaSlot(tag));
            var packet := Frame(code, identifier, auth, region);
            var values := MaValues(attrs) + [tag];
            Tag(c, packet, auth, secret)
            == (c.hmac)(secret, Prefix(code, identifier, |Encode(attrs)| + 38) + auth
                                + Encode(ZeroSlots(attrs) + [MaSlot(ZERO_DIGEST)]))
            && (VerifyResult(c, packet, auth, secret) == Valid <==> values == [Tag(c, packet, auth, secret)])
  {
    hide Encode, MaValues, ZeroSlots, Tag, VerifyResult;
    TrailingLists(attrs, tag);
    VerifyFrame(c, code, identifier, auth, attrs + [MaSlot(tag)], auth, secret);
    assert MaValues(attrs) + [tag] != [];
  }

  lemma TrailingLists(attrs: seq<Attr>, tag: Digest)
    ensures var all := attrs + [MaSlot(tag)];
            Encode(all) == Encode(attrs) + EncodeAttr(MaSlot(tag))
            && MaValues(all) == MaValues(attrs) + [tag]
            && ZeroSlots(all) == ZeroSlots(attrs) + [MaSlot(ZERO_DIGEST)]
  {
    EncodeAppend(attrs, [MaSlot(tag)]);
    EncodeOne(MaSlot(tag));
    MaValuesAppend(attrs, [MaSlot(tag)]);
    assert [MaSlot(tag)] == [MaSlot(tag)] + [];
    MaValuesCons(MaSlot(tag), []);
    ZeroSlotsOfSigned(tag, []);
  }
}
