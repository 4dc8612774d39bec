/** The reply builder: construction, appends, key material, EAP, and sealing. */
module Replies {
  import opened Bytes
  import opened Header
  import opened Attributes
  import opened PacketBuffers
  import opened MessageAuthenticator
  import opened KeyMaterial
  import Authenticator
  import Passwords
  import Responses
  import Eap
  import Mppe

  /** The attribute list of the region while building: the zeroed slot first, when there is one. */
  function Slots(withMa: bool, attrs: seq<Attr>): (r: seq<Attr>) {
    if withMa then [MaSlot(ZERO_DIGEST)] + attrs else attrs
  }

  predicate Fits(withMa: bool, attrs: seq<Attr>) {
    MIN_PACKET_LEN + |Encode(Slots(withMa, attrs))| <= MAX_PACKET_LEN
  }

  /** Header and slot. */
  const NEW_REPLY_LEN := 38

  /** The region that goes on the wire: the leading slot holds the tag of the whole packet. */
  function SealedRegion(c: Crypto, code: byte, identifier: byte, withMa: bool, attrs: seq<Attr>,
                        requestAuth: Digest, secret: seq<byte>): (r: seq<byte>)
    requires Fits(withMa, attrs)
    ensures |r| == |Encode(Slots(withMa, attrs))|
  {
    if withMa then
      var tag := FrameTag(c, code, identifier, [MaSlot(ZERO_DIGEST)] + attrs, requestAuth, secret);
      PatchLeadingSlot(c, code, identifier, tag, ZERO_DIGEST, attrs, requestAuth, secret);
      Encode([MaSlot(tag)] + attrs)
    else Encode(attrs)
  }

  /** A sealed reply: Length first, then the tag over it, then the Response Authenticator over all. */
  function Sealed(c: Crypto, code: byte, identifier: byte, withMa: bool, attrs: seq<Attr>,
                  requestAuth: Digest, secret: seq<byte>): (r: seq<byte>)
    requires Fits(withMa, attrs)
  {
    var region := SealedRegion(c, code, identifier, withMa, attrs, requestAuth, secret);
    Frame(code, identifier, Authenticator.Signature(c, code, identifier, region, requestAuth, secret), region)
  }

  /** Limits of a salted attribute: `overhead` octets precede the block-padded key. */
  function KeyOutcome(size: nat, overhead: nat, key: seq<byte>): (r: Outcome)
  {
    if |key| > KEY_MAX_LEN then Some(AttributeValueTooLong(|key|))
    else AppendLimits(size, overhead + |Passwords.PadTunnel(key)|)
  }

  /** A key of at most 239 octets fits its attribute; then only the packet's size can refuse it. */
  lemma KeyOutcomeMeaning(size: nat, overhead: nat, key: seq<byte>)
    requires overhead <= 8
    ensures var r, n := KeyOutcome(size, overhead, key), (|key| + 16) / 16 * 16;
            (r.None? <==> |key| <= 239 && size + 2 + overhead + n <= 4096)
            && (|key| > 239 ==> r == Some(AttributeValueTooLong(|key|)))
            && (|key| <= 239 && r.Some? ==> r == Some(PacketTooLarge(size, 2 + overhead + n)))
            && (|key| <= 239 ==> |Passwords.PadTunnel(key)| == n)
  {
  }

  /** Limits of a pair of MPPE keys, the second counted after the first. */
  function MppeOutcome(size: nat, sendKey: seq<byte>, recvKey: seq<byte>): (r: Outcome)
  {
    var first := KeyOutcome(size, 8, sendKey);
    if first.Some? then first else KeyOutcome(size + 10 + |Passwords.PadTunnel(sendKey)|, 8, recvKey)
  }

  lemma MppeOutcomeMeaning(size: nat, sendKey: seq<byte>, recvKey: seq<byte>)
    ensures MppeOutcome(size, sendKey, recvKey).None? <==>
            |sendKey| <= 239 && |recvKey| <= 239
            && size + 20 + (|sendKey| + 16) / 16 * 16 + (|recvKey| + 16) / 16 * 16 <= 4096
  {
    hide KeyOutcome;
    KeyOutcomeMeaning(size, 8, sendKey);
    if KeyOutcome(size, 8, sendKey).None? {
      KeyOutcomeMeaning(size + 10 + |Passwords.PadTunnel(sendKey)|, 8, recvKey);
    }
  }

  class Reply {
    const buf: PacketBuffer
    var maValueOffset: Option<nat>
    ghost var attrs: seq<Attr>

    ghost predicate Valid()
      reads this, buf
    {
      && buf.Valid()
      && (maValueOffset.Some? ==> maValueOffset.value == 22)
      && Fits(maValueOffset.Some?, attrs)
      && buf.inner == Fresh(buf.inner[0], buf.inner[1]) + Encode(Slots(maValueOffset.Some?, attrs))
    }

    constructor (code: byte, identifier: byte)
      ensures Valid() && fresh(buf) && |buf.inner| == NEW_REPLY_LEN
      ensures maValueOffset.Some? && attrs == [] && buf.inner[0] == code && buf.inner[1] == identifier
    {
      buf := new PacketBuffer(code, identifier);
      attrs := [];
      maValueOffset := None;
      new;
      var offset := AppendZeroedSlot(buf);
      EncodeOne(MaSlot(ZERO_DIGEST));
      assert [MaSlot(ZERO_DIGEST)] + [] == [MaSlot(ZERO_DIGEST)];
      maValueOffset := Some(offset.value);
    }

    /** Takes over a buffer that was just reset. */
    constructor FromBuffer(buffer: PacketBuffer)
      requires buffer.Valid() && buffer.inner == Fresh(buffer.inner[0], buffer.inner[1])
      modifies buffer
      ensures buf == buffer && Valid()
      ensures maValueOffset.Some? && attrs == [] && buffer.inner[..2] == old(buffer.inner[..2])
    {
      buf := buffer;
      attrs := [];
      maValueOffset := None;
      new;
      var offset := AppendZeroedSlot(buf);
      EncodeOne(MaSlot(ZERO_DIGEST));
      assert [MaSlot(ZERO_DIGEST)] + [] == [MaSlot(ZERO_DIGEST)];
      maValueOffset := Some(offset.value);
    }

    /** Opting out drops the slot and everything appended after it. */
    method WithoutMessageAuthenticator()
      requires Valid()
      modifies this, buf
      ensures Valid() && maValueOffset.None? && buf.inner[..2] == old(buf.inner[..2])
      ensures attrs == if old(maValueOffset.Some?) then [] else old(attrs)
      ensures attrs == old(attrs) <==> old(maValueOffset.None?) || old(attrs) == []
    {
      if maValueOffset.Some? {
        maValueOffset := None;
        buf.TruncateAttributesTo(0);
        attrs := [];
      }
    }

    /** The pass-through appends: exactly what the buffer's builder of the same name appends. */
    method Append(op: BuildOp) returns (r: Outcome)
      requires Valid()
      modifies this, buf
      ensures Valid() && buf.Valid() && maValueOffset == old(maValueOffset) && buf.inner[..2] == old(buf.inner[..2])
      ensures r == OutcomeOf(old(|buf.inner|), op) && buf.inner == Step(old(buf.inner), op)
      ensures attrs == old(attrs) + match Appended(old(|buf.inner|), op) case Some(a) => [a] case None => []
    {
      hide Appended;
      r := buf.Apply(op);
      match Appended(old(|buf.inner|), op) {
        case Some(a) =>
          SlotsAppend(Fresh(buf.inner[0], buf.inner[1]), maValueOffset.Some?, attrs, a);
          attrs := attrs + [a];
        case None =>
      }
    }

    /** Writes the next fragment of `rest`, if it fits. */
    method AppendFragment(rest: seq<byte>) returns (r: Outcome, chunk: seq<byte>)
      requires Valid() && rest != []
      modifies this, buf
      ensures Valid() && buf.Valid() && maValueOffset == old(maValueOffset) && buf.inner[..2] == old(buf.inner[..2])
      ensures |chunk| > 0 && chunk <= rest
      ensures |chunk| <= 253
              && Eap.Fragmented(rest) == [RawAttribute(Eap.TYPE, chunk)] + Eap.Fragmented(rest[|chunk|..])
      ensures |Encode(Eap.Fragmented(rest))| == 2 + |chunk| + |Encode(Eap.Fragmented(rest[|chunk|..]))|
      ensures r.None? <==> old(|buf.inner|) + 2 + |chunk| <= MAX_PACKET_LEN
      ensures r.None? ==> attrs == old(attrs) + [RawAttribute(Eap.TYPE, chunk)]
                          && |buf.inner| == old(|buf.inner|) + 2 + |chunk|
      ensures r.Some? ==> attrs == old(attrs) && buf.inner == old(buf.inner)
                          && r.value == PacketTooLarge(|buf.inner|, 2 + |chunk|)
    {
      chunk := if |rest| <= Eap.CHUNK then rest else rest[..Eap.CHUNK];
      Eap.FragmentedHead(rest);
      r := Append(BuildOp.AddAttribute(Eap.TYPE, chunk));
    }

    /** Fragments an EAP packet. It succeeds exactly when all fragments fit; a failure keeps the
        fragments that were already written. */
    method AddEapMessage(eap: seq<byte>) returns (r: Outcome)
      requires Valid()
      modifies this, buf
      ensures Valid() && maValueOffset == old(maValueOffset) && buf.inner[..2] == old(buf.inner[..2])
      ensures r.None? <==> old(|buf.inner|) + |Encode(Eap.Fragmented(eap))| <= MAX_PACKET_LEN
      ensures r.None? ==> attrs == old(attrs) + Eap.Fragmented(eap)
      ensures r.Some? ==> StoppedAt(old(attrs), attrs, Eap.Fragmented(eap), |buf.inner|, r.value)
    {
      assert buf.Valid() && Eap.Fragmented([]) == [] && Encode([]) == [];
      hide *;
      var rest := eap;
      ghost var done: seq<Attr> := [];
      assert attrs == attrs + [] && done + Eap.Fragmented(eap) == Eap.Fragmented(eap);
      while rest != []
        invariant Valid() && 20 <= |buf.inner| <= MAX_PACKET_LEN
        invariant maValueOffset == old(maValueOffset) && buf.inner[..2] == old(buf.inner[..2])
        invariant done + Eap.Fragmented(rest) == Eap.Fragmented(eap) && attrs == old(attrs) + done
        invariant |buf.inner| + |Encode(Eap.Fragmented(rest))| == old(|buf.inner|) + |Encode(Eap.Fragmented(eap))|
        decreases |rest|
      {
        var chunk;
        r, chunk := AppendFragment(rest);
        if r.Some? {
          RefusedAt(old(attrs), eap, done, rest, chunk, |buf.inner|);
          return;
        }
        ghost var first: Attr := RawAttribute(Eap.TYPE, chunk);
        rest := rest[|chunk|..];
        Associative(done, [first], Eap.Fragmented(rest));
        Associative(old(attrs), done, [first]);
        done := done + [first];
      }
      r := None;
    }

    /** Some of the fragments were appended, and the error names the size of the next. */
    static ghost predicate StoppedAt(before: seq<Attr>, after: seq<Attr>, fragments: seq<Attr>, size: nat,
                                     error: CodecError)
    {
      exists k :: 0 <= k < |fragments| && after == before + fragments[..k]
        && error == PacketTooLarge(size, 2 + |fragments[k].value|)
    }

    static lemma RefusedAt(before: seq<Attr>, eap: seq<byte>, done: seq<Attr>, rest: seq<byte>, chunk: seq<byte>,
                           size: nat)
      requires |chunk| <= 253 && chunk <= rest
      requires done + Eap.Fragmented(rest) == Eap.Fragmented(eap)
      requires Eap.Fragmented(rest) == [RawAttribute(Eap.TYPE, chunk)] + Eap.Fragmented(rest[|chunk|..])
      ensures StoppedAt(before, before + done, Eap.Fragmented(eap), size, PacketTooLarge(size, 2 + |chunk|))
    {
      hide Eap.Fragmented;
      var fragments := Eap.Fragmented(eap);
      assert fragments[..|done|] == done && fragments[|done|].value == chunk;
    }

    /** Appends a Tunnel-Password under a salt that no attribute of the reply uses. Only an
        Access-Accept may carry one. */
    method AddTunnelPassword(c: Crypto, tag: byte, password: seq<byte>, requestAuth: Digest, secret: seq<byte>,
                             draws: nat -> Passwords.Salt)
      returns (r: Outcome, ghost salt: Passwords.Salt)
      requires Valid() && FairDraws(draws)
      modifies this, buf
      ensures Valid() && maValueOffset == old(maValueOffset) && buf.inner[..2] == old(buf.inner[..2])
      ensures r == if old(buf.inner[0]) != ACCESS_ACCEPT then Some(WrongPacketType)
                   else KeyOutcome(old(|buf.inner|), 3, password)
      ensures r.None? <==> old(buf.inner[0]) == 2 && |password| <= 239
                           && old(|buf.inner|) + 5 + (|password| + 16) / 16 * 16 <= 4096
      ensures r.None? ==> NewSalt(old(attrs), salt)
                          && attrs == old(attrs) + [TunnelAttr(c, tag, password, requestAuth, secret, salt)]
      ensures r.Some? ==> attrs == old(attrs)
    {
      hide TunnelAttr, Passwords.TunnelCipher, Passwords.PadTunnel, Slots, Encode, Step, NewSalt;
      salt := [128, 0];
      var code := HeaderCode();
      if code != ACCESS_ACCEPT {
        return Some(WrongPacketType), salt;
      }
      if |password| > KEY_MAX_LEN {
        return Some(AttributeValueTooLong(|password|)), salt;
      }
      var chosen := PickSalt(draws);
      salt := chosen;
      var ciphertext := Passwords.TunnelPasswordEncryptWithSalt(c, password, secret, requestAuth, chosen);
      var value := [tag];
      value := value + chosen;
      value := value + ciphertext;
      TunnelValue(c, tag, password, requestAuth, secret, chosen);
      KeyOutcomeMeaning(|buf.inner|, 3, password);
      r := Append(BuildOp.AddAttribute(TUNNEL_PASSWORD, value));
    }

    /** Code of the packet under construction, read through its header. */
    method HeaderCode() returns (code: byte)
      requires Valid()
      ensures code == buf.inner[0]
    {
      ghost var tail := Encode(Slots(maValueOffset.Some?, attrs));
      FreshParses(buf.inner[0], buf.inner[1], tail);
      code := Parse(buf.inner).value.header.code;
    }

    /** A salt that no attribute appended so far carries. */
    method PickSalt(draws: nat -> Passwords.Salt) returns (salt: Passwords.Salt)
      requires Valid() && FairDraws(draws)
      ensures NewSalt(attrs, salt)
    {
      ghost var n := UnusedDraw(buf.inner[20..], draws);
      salt := UniqueSalt(buf.inner[20..], draws);
      var slots := Slots(maValueOffset.Some?, attrs);
      assert buf.inner[20..] == Encode(slots);
      WalkEncode(slots);
      assert forall a :: a in attrs ==> a in slots;
    }

    method WriteMppeKey(c: Crypto, vendorType: byte, key: seq<byte>, requestAuth: Digest, secret: seq<byte>,
                        draws: nat -> Passwords.Salt)
      returns (r: Outcome, ghost salt: Passwords.Salt)
      requires Valid() && FairDraws(draws)
      requires vendorType == MS_MPPE_SEND_KEY || vendorType == MS_MPPE_RECV_KEY
      modifies this, buf
      ensures Valid() && maValueOffset == old(maValueOffset) && buf.inner[..2] == old(buf.inner[..2])
      ensures r == KeyOutcome(old(|buf.inner|), 8, key)
      ensures r.None? <==> |key| <= 239 && old(|buf.inner|) + 10 + (|key| + 16) / 16 * 16 <= 4096
      ensures r.None? ==> |key| <= KEY_MAX_LEN && |buf.inner| == old(|buf.inner|) + 10 + |Passwords.PadTunnel(key)|
      ensures r.None? ==> NewSalt(old(attrs), salt)
                          && attrs == old(attrs) + [MppeAttr(c, vendorType, key, requestAuth, secret, salt)]
      ensures r.Some? ==> attrs == old(attrs)
    {
      hide MppeAttr, Passwords.TunnelCipher, Passwords.PadTunnel, Slots, Encode, EncodeAttr, NewSalt;
      salt := [128, 0];
      if |key| > KEY_MAX_LEN {
        return Some(AttributeValueTooLong(|key|)), salt;
      }
      var chosen := PickSalt(draws);
      salt := chosen;
      var ciphertext := Passwords.TunnelPasswordEncryptWithSalt(c, key, secret, requestAuth, chosen);
      var vendorLength := 2 + 2 + |ciphertext|;
      var value := MS_VENDOR_ID;
      value := value + [vendorType];
      value := value + [vendorLength];
      value := value + chosen;
      value := value + ciphertext;
      MppeValue(c, vendorType, key, requestAuth, secret, chosen);
      KeyOutcomeMeaning(|buf.inner|, 8, key);
      r := Append(BuildOp.AddAttribute(VENDOR_SPECIFIC, value));
    }

    /** Appends the send key, then the receive key. If the second does not fit the first stays. */
    method AddMppeKeys(c: Crypto, sendKey: seq<byte>, recvKey: seq<byte>, requestAuth: Digest, secret: seq<byte>,
                       draws: nat -> Passwords.Salt, draws': nat -> Passwords.Salt)
      returns (r: Outcome, ghost between: seq<Attr>, ghost s: Passwords.Salt, ghost t: Passwords.Salt)
      requires Valid() && FairDraws(draws) && FairDraws(draws')
      modifies this, buf
      ensures Valid() && maValueOffset == old(maValueOffset) && buf.inner[..2] == old(buf.inner[..2])
      ensures r == if old(buf.inner[0]) != ACCESS_ACCEPT then Some(WrongPacketType)
                   else MppeOutcome(old(|buf.inner|), sendKey, recvKey)
      ensures r.None? <==> old(buf.inner[0]) == 2 && |sendKey| <= 239 && |recvKey| <= 239
                           && old(|buf.inner|) + 20 + (|sendKey| + 16) / 16 * 16 + (|recvKey| + 16) / 16 * 16 <= 4096
      ensures r.None? ==>
                |sendKey| <= KEY_MAX_LEN && |recvKey| <= KEY_MAX_LEN && s != t && s[0] >= 128 && t[0] >= 128
                && attrs == old(attrs) + [MppeAttr(c, MS_MPPE_SEND_KEY, sendKey, requestAuth, secret, s)]
                            + [MppeAttr(c, MS_MPPE_RECV_KEY, recvKey, requestAuth, secret, t)]
      ensures between == if old(buf.inner[0]) == ACCESS_ACCEPT && KeyOutcome(old(|buf.inner|), 8, sendKey).None?
                         then old(attrs) + [MppeAttr(c, MS_MPPE_SEND_KEY, sendKey, requestAuth, secret, s)]
                         else old(attrs)
      ensures r.Some? ==> attrs == between
      ensures between != old(attrs) ==> NewSalt(old(attrs), s)
      ensures r.None? ==> NewSalt(between, t)
    {
      hide MppeAttr, Passwords.PadTunnel, Slots, Encode, AppendLimits;
      s, t := [128, 0], [128, 0];
      between := attrs;
      var code := HeaderCode();
      if code != ACCESS_ACCEPT {
        r := Some(WrongPacketType);
        return;
      }
      MppeOutcomeMeaning(|buf.inner|, sendKey, recvKey);
      r, s := WriteMppeKey(c, MS_MPPE_SEND_KEY, sendKey, requestAuth, secret, draws);
      between := attrs;
      if r.Some? {
        return;
      }
      r, t := WriteMppeKey(c, MS_MPPE_RECV_KEY, recvKey, requestAuth, secret, draws');
      assert r.None? ==> between[|between| - 1] in between;
    }

    /** Sealing patches Length, tag and Authenticator in that order; the bytes are the sealed frame
        of the appended attributes. */
    method SealFor(c: Crypto, requestAuth: Digest, secret: seq<byte>) returns (packet: seq<byte>)
      requires Valid()
      modifies buf
      ensures packet == buf.inner
      ensures packet == Sealed(c, old(buf.inner[0]), old(buf.inner[1]), maValueOffset.Some?, attrs, requestAuth, secret)
    {
      ghost var code, identifier := buf.inner[0], buf.inner[1];
      ghost var withMa := maValueOffset.Some?;
      ghost var region := Encode(Slots(withMa, attrs));
      buf.PatchLength();
      PatchedIsFrame(code, identifier, region);
      if maValueOffset.Some? {
        WriteTag(c, buf, maValueOffset.value, code, identifier, attrs, requestAuth, secret);
      }
      region := SealedRegion(c, code, identifier, withMa, attrs, requestAuth, secret);
      hide SealedRegion, Slots, Encode, Frame;
      Authenticator.VerifiesIffSigned(c, code, identifier, ZERO_DIGEST, region, requestAuth, secret);
      var resp := Authenticator.ComputeResponse(c, buf.inner, requestAuth, secret);
      ResignedFrame(code, identifier, ZERO_DIGEST, resp, region);
      buf.SetAuthenticator(resp);
      packet := buf.inner;
    }
  }

  /** Computes the tag of a packet with a zeroed leading slot and writes it into the slot. */
  method WriteTag(c: Crypto, buf: PacketBuffer, offset: nat, ghost code: byte, ghost identifier: byte,
                  ghost attrs: seq<Attr>, auth: Digest, secret: seq<byte>)
    requires offset == 22 && Fits(true, attrs)
    requires buf.inner == Frame(code, identifier, ZERO_DIGEST, Encode(Slots(true, attrs)))
    modifies buf
    ensures buf.inner == Frame(code, identifier, ZERO_DIGEST,
                               SealedRegion(c, code, identifier, true, attrs, auth, secret))
  {
    ghost var region := Encode(Slots(true, attrs));
    var tag := Compute(c, buf.inner, auth, secret);
    VerifyFrame(c, code, identifier, ZERO_DIGEST, Slots(true, attrs), auth, secret);
    PatchLeadingSlot(c, code, identifier, tag, ZERO_DIGEST, attrs, auth, secret);
    PatchFrame(code, identifier, ZERO_DIGEST, region, tag);
    buf.Patch(offset, tag);
  }

  /** Appending one encoded attribute to a buffer extends its list by that attribute. */
  lemma SlotsAppend(head: seq<byte>, withMa: bool, attrs: seq<Attr>, a: Attr)
    ensures (head + Encode(Slots(withMa, attrs))) + EncodeAttr(a) == head + Encode(Slots(withMa, attrs + [a]))
  {
    var slots := Slots(withMa, attrs);
    EncodeAppend(slots, [a]);
    EncodeOne(a);
    assert slots + [a] == Slots(withMa, attrs + [a]);
    Associative(head, Encode(slots), EncodeAttr(a));
  }

  /** Patching the value of the leading slot of a frame patches the same octets of its region. */
  lemma PatchFrame(code: byte, identifier: byte, auth: Digest, region: seq<byte>, tag: Digest)
    requires 18 <= |region| <= 4076
    ensures var f := Frame(code, identifier, auth, region);
            f[..22] + tag + f[38..] == Frame(code, identifier, auth, region[..2] + tag + region[18..])
  {
  }

  /** The attributes a receiver walks in a sealed reply. */
  function OnWire(c: Crypto, code: byte, identifier: byte, withMa: bool, attrs: seq<Attr>,
                  requestAuth: Digest, secret: seq<byte>): (r: seq<Attr>)
    requires Fits(withMa, attrs)
  {
    if withMa
    then [MaSlot(FrameTag(c, code, identifier, [MaSlot(ZERO_DIGEST)] + attrs, requestAuth, secret))] + attrs
    else attrs
  }

  /** A sealed reply walks to its slot, if it has one, and the appended attributes. */
  lemma SealedWalks(c: Crypto, code: byte, identifier: byte, withMa: bool, attrs: seq<Attr>, requestAuth: Digest,
                    secret: seq<byte>)
    requires Fits(withMa, attrs)
    ensures var packet := Sealed(c, code, identifier, withMa, attrs, requestAuth, secret);
            |packet| >= 20
            && Walk(packet[20..]) == Walked(OnWire(c, code, identifier, withMa, attrs, requestAuth, secret), [])
  {
    hide Walk, Encode, FrameTag;
    WalkEncode(OnWire(c, code, identifier, withMa, attrs, requestAuth, secret));
  }

  /** The appended attributes leave the reply acceptably signed. With a managed slot no attribute of
      type 80 may be among them. With the slot opted out there may be none for an accounting request;
      otherwise there must be one and it must hold the tag. */
  predicate SelfSigned(c: Crypto, code: byte, identifier: byte, withMa: bool, attrs: seq<Attr>,
                       requestAuth: Digest, secret: seq<byte>, requestCode: byte)
    requires Fits(withMa, attrs)
  {
    if withMa then NoneOfType(attrs, TYPE)
    else if NoneOfType(attrs, TYPE) then requestCode == ACCOUNTING_REQUEST
    else MaValues(attrs) == [FrameTag(c, code, identifier, attrs, requestAuth, secret)]
  }

  /** A sealed reply, with any padding behind it, is accepted for exactly the identifier it carries,
      the request codes its code answers and the attribute lists that leave it signed. What is
      accepted is the packet itself and walks back to the appended attributes. */
  lemma SealedAccepted(c: Crypto, code: byte, identifier: byte, withMa: bool, attrs: seq<Attr>,
                       requestAuth: Digest, secret: seq<byte>, padding: seq<byte>, requestCode: byte, expected: byte)
    requires Fits(withMa, attrs)
    ensures var packet := Sealed(c, code, identifier, withMa, attrs, requestAuth, secret);
            var r := Responses.Accept(c, packet + padding, requestCode, expected, requestAuth, secret);
            (r.Some? <==>
               expected == identifier && Responses.MatchesReply(requestCode, code)
               && SelfSigned(c, code, identifier, withMa, attrs, requestAuth, secret, requestCode))
            && (r.Some? ==>
                  r.value.packet == packet && r.value.requestAuthenticator == requestAuth
                  && r.value.header.code == code && r.value.header.identifier == identifier
                  && |packet| >= 20
                  && Walk(packet[20..]) == Walked(OnWire(c, code, identifier, withMa, attrs, requestAuth, secret), []))
  {
    SealedWalks(c, code, identifier, withMa, attrs, requestAuth, secret);
    var region := SealedRegion(c, code, identifier, withMa, attrs, requestAuth, secret);
    var auth := Authenticator.Signature(c, code, identifier, region, requestAuth, secret);
    Responses.AcceptFrame(c, code, identifier, auth, region, padding, requestCode, expected, requestAuth, secret);
    NoMaValuesIff(attrs);
    if withMa {
      SignedFrameVerifies(c, code, identifier, auth, attrs, requestAuth, secret);
    } else {
      VerifyFrame(c, code, identifier, auth, attrs, requestAuth, secret);
    }
  }

  /** Which replies answer which requests: with its managed slot and no other attribute of type 80, a
      sealed reply is accepted for its own identifier exactly for these ten pairs of codes. The slot is
      its first attribute. */
  lemma AcceptedPairs(c: Crypto, code: byte, identifier: byte, attrs: seq<Attr>, requestAuth: Digest,
                      secret: seq<byte>, padding: seq<byte>, requestCode: byte)
    requires Fits(true, attrs) && NoneOfType(attrs, 80)
    ensures var packet := Sealed(c, code, identifier, true, attrs, requestAuth, secret);
            |packet| >= 20 && WellFormed(packet[20..])
            && var wire := Walk(packet[20..]).attrs;
               |wire| == 1 + |attrs| && wire[0].typ == 80 && wire[1..] == attrs
    ensures var packet := Sealed(c, code, identifier, true, attrs, requestAuth, secret);
            Responses.Accept(c, packet + padding, requestCode, identifier, requestAuth, secret).Some?
            <==> (requestCode, code) in {(1, 2), (1, 3), (1, 11), (4, 5), (12, 2), (12, 5),
                                         (43, 44), (43, 45), (40, 41), (40, 42)}
  {
    hide Sealed, Responses.Accept, Encode, Walk, FrameTag;
    SealedAccepted(c, code, identifier, true, attrs, requestAuth, secret, padding, requestCode, identifier);
    SealedWalks(c, code, identifier, true, attrs, requestAuth, secret);
  }

  /** Without any attribute of type 80, an Accounting-Response answering an Accounting-Request is the
      only reply that is accepted. */
  lemma UnsignedPairs(c: Crypto, code: byte, identifier: byte, attrs: seq<Attr>, requestAuth: Digest,
                      secret: seq<byte>, padding: seq<byte>, requestCode: byte)
    requires Fits(false, attrs) && NoneOfType(attrs, 80)
    ensures var packet := Sealed(c, code, identifier, false, attrs, requestAuth, secret);
            Responses.Accept(c, packet + padding, requestCode, identifier, requestAuth, secret).Some?
            <==> requestCode == 4 && code == 5
  {
    hide Sealed, Responses.Accept, Encode, Walk;
    SealedAccepted(c, code, identifier, false, attrs, requestAuth, secret, padding, requestCode, identifier);
  }

  /** A reply the builder lets through and no client accepts: a new one plus a second, zeroed slot. */
  lemma AppendedSlotIsRefused(c: Crypto, code: byte, identifier: byte, requestAuth: Digest, secret: seq<byte>,
                              padding: seq<byte>, requestCode: byte, expected: byte)
    ensures Appended(NEW_REPLY_LEN, BuildOp.AddAttribute(TYPE, ZERO_DIGEST)) == Some(MaSlot(ZERO_DIGEST))
    ensures Fits(true, [MaSlot(ZERO_DIGEST)])
            && var packet := Sealed(c, code, identifier, true, [MaSlot(ZERO_DIGEST)], requestAuth, secret);
               Responses.Accept(c, packet + padding, requestCode, expected, requestAuth, secret).None?
  {
    var attrs := [MaSlot(ZERO_DIGEST)];
    EncodeCons(MaSlot(ZERO_DIGEST), attrs);
    EncodeOne(MaSlot(ZERO_DIGEST));
    SealedAccepted(c, code, identifier, true, attrs, requestAuth, secret, padding, requestCode, expected);
    assert MaSlot(ZERO_DIGEST) in attrs;
  }

  /** An append is lost when the caller opts out afterwards, though it succeeded, as every attribute
      with a value of at most 253 octets does on a new reply. */
  method AppendThenOptOut(code: byte, identifier: byte, op: BuildOp) returns (reply: Reply, r: Outcome)
    ensures fresh(reply) && fresh(reply.buf) && reply.Valid()
    ensures r == OutcomeOf(NEW_REPLY_LEN, op) && (op.AddAttribute? && |op.val| <= 253 ==> r.None?)
    ensures reply.attrs == [] && reply.buf.inner == Fresh(code, identifier)
  {
    hide Encode, Appended, Step;
    reply := new Reply(code, identifier);
    r := reply.Append(op);
    reply.WithoutMessageAuthenticator();
    WalkEncode([]);
  }

  /** End to end: an EAP packet fragmented among other attributes of a sealed reply is reassembled
      unchanged from what the client accepts. */
  lemma EapSurvivesTheWire(c: Crypto, code: byte, identifier: byte, before: seq<Attr>, eap: seq<byte>, after: seq<Attr>,
                           requestAuth: Digest, secret: seq<byte>, padding: seq<byte>, requestCode: byte)
    requires Fits(true, before + Eap.Fragmented(eap) + after)
    requires NoneOfType(before, TYPE) && NoneOfType(after, TYPE)
    requires NoneOfType(before, Eap.TYPE) && NoneOfType(after, Eap.TYPE)
    requires Responses.MatchesReply(requestCode, code)
    ensures var packet := Sealed(c, code, identifier, true, before + Eap.Fragmented(eap) + after, requestAuth, secret);
            var r := Responses.Accept(c, packet + padding, requestCode, identifier, requestAuth, secret);
            r.Some? && |r.value.packet| >= 20 && Eap.Payload(Walk(r.value.packet[20..]).attrs) == eap
  {
    var attrs := before + Eap.Fragmented(eap) + after;
    Eap.PayloadOfFragmented(eap);
    assert forall a :: a in attrs ==> a in before || a in Eap.Fragmented(eap) || a in after;
    SealedAccepted(c, code, identifier, true, attrs, requestAuth, secret, padding, requestCode, identifier);
    Eap.PayloadAmongOthers(before, eap, after);
    Eap.PayloadCons(MaSlot(FrameTag(c, code, identifier, [MaSlot(ZERO_DIGEST)] + attrs, requestAuth, secret)), attrs);
  }

  /** No vendor attribute of the list is an MPPE key. */
  predicate NoMppeKeys(attrs: seq<Attr>) {
    FirstVsaIn(attrs, MS_VENDOR_ID, MS_MPPE_SEND_KEY).None? && FirstVsaIn(attrs, MS_VENDOR_ID, MS_MPPE_RECV_KEY).None?
  }

  /** End to end: the Tunnel-Password of a sealed Access-Accept is found with its tag and decrypts to
      the original under its own salt from the packet the client accepts. */
  lemma TunnelPasswordSurvivesTheWire(c: Crypto, identifier: byte, before: seq<Attr>, after: seq<Attr>, tag: byte,
                                      password: seq<byte>, salt: Passwords.Salt, requestAuth: Digest,
                                      secret: seq<byte>, padding: seq<byte>)
    requires |password| <= KEY_MAX_LEN && NoneOfType(before, 69)
    requires NoneOfType(before, TYPE) && NoneOfType(after, TYPE)
    requires Fits(true, before + [TunnelAttr(c, tag, password, requestAuth, secret, salt)] + after)
    ensures var attrs := before + [TunnelAttr(c, tag, password, requestAuth, secret, salt)] + after;
            var packet := Sealed(c, ACCESS_ACCEPT, identifier, true, attrs, requestAuth, secret);
            var r := Responses.Accept(c, packet + padding, ACCESS_REQUEST, identifier, requestAuth, secret);
            r.Some? && |r.value.packet| >= 20
            && var found := FirstRaw(r.value.packet[20..], 69);
               found.Ok? && found.value.Some? && |found.value.value.value| >= 3
               && var value := found.value.value.value;
                  value[0] == tag && value[1..3] == salt
                  && Passwords.TunnelPlain(c, value[3..], secret, r.value.requestAuthenticator, value[1..3])
                     == Ok(password)
  {
    hide TunnelAttr, Sealed, FrameTag, Passwords.TunnelCipher, Passwords.TunnelPlain, Responses.Accept, Walk, Encode;
    var a := TunnelAttr(c, tag, password, requestAuth, secret, salt);
    var attrs := before + [a] + after;
    TunnelValue(c, tag, password, requestAuth, secret, salt);
    var cipher := Passwords.TunnelCipher(c, password, secret, requestAuth, salt);
    assert a.value[1..3] == salt && a.value[3..] == cipher;
    assert forall x :: x in attrs ==> x in before || x == a || x in after;
    SealedAccepted(c, ACCESS_ACCEPT, identifier, true, attrs, requestAuth, secret, padding, ACCESS_REQUEST, identifier);
    var slot := MaSlot(FrameTag(c, ACCESS_ACCEPT, identifier, [MaSlot(ZERO_DIGEST)] + attrs, requestAuth, secret));
    assert [slot] + attrs == ([slot] + before) + [a] + after;
    FirstOfTypeAt([slot] + before, a, after);
    Passwords.TunnelRoundTrip(c, password, secret, requestAuth, salt);
  }

  /** In a list holding one pair of keys, each handle finds its own salt and ciphertext. */
  lemma MppeFound(c: Crypto, before: seq<Attr>, after: seq<Attr>, sendKey: seq<byte>, recvKey: seq<byte>,
                  requestAuth: Digest, secret: seq<byte>, s: Passwords.Salt, t: Passwords.Salt)
    requires |sendKey| <= KEY_MAX_LEN && |recvKey| <= KEY_MAX_LEN && NoMppeKeys(before)
    ensures var pair := [MppeAttr(c, MS_MPPE_SEND_KEY, sendKey, requestAuth, secret, s)]
                        + [MppeAttr(c, MS_MPPE_RECV_KEY, recvKey, requestAuth, secret, t)];
            FirstVsaIn(before + pair + after, MS_VENDOR_ID, MS_MPPE_SEND_KEY)
            == Some(s + Passwords.TunnelCipher(c, sendKey, secret, requestAuth, s))
            && FirstVsaIn(before + pair + after, MS_VENDOR_ID, MS_MPPE_RECV_KEY)
               == Some(t + Passwords.TunnelCipher(c, recvKey, secret, requestAuth, t))
  {
    var send := MppeAttr(c, MS_MPPE_SEND_KEY, sendKey, requestAuth, secret, s);
    var recv := MppeAttr(c, MS_MPPE_RECV_KEY, recvKey, requestAuth, secret, t);
    forall v | v == MS_MPPE_SEND_KEY || v == MS_MPPE_RECV_KEY
      ensures FirstVsaIn(before + ([send] + [recv]) + after, MS_VENDOR_ID, v)
              == if GetVsa(send, MS_VENDOR_ID, v).Some? then GetVsa(send, MS_VENDOR_ID, v)
                 else if GetVsa(recv, MS_VENDOR_ID, v).Some? then GetVsa(recv, MS_VENDOR_ID, v)
                 else FirstVsaIn(after, MS_VENDOR_ID, v)
    {
      FirstVsaInAppend(before + ([send] + [recv]), after, MS_VENDOR_ID, v);
      FirstVsaInAppend(before, [send] + [recv], MS_VENDOR_ID, v);
      FirstVsaInAppend([send], [recv], MS_VENDOR_ID, v);
    }
    var sendData := s + Passwords.TunnelCipher(c, sendKey, secret, requestAuth, s);
    var recvData := t + Passwords.TunnelCipher(c, recvKey, secret, requestAuth, t);
    GetVsaOfValue(MS_VENDOR_ID, MS_MPPE_SEND_KEY, sendData, MS_VENDOR_ID, MS_MPPE_SEND_KEY);
    GetVsaOfValue(MS_VENDOR_ID, MS_MPPE_SEND_KEY, sendData, MS_VENDOR_ID, MS_MPPE_RECV_KEY);
    GetVsaOfValue(MS_VENDOR_ID, MS_MPPE_RECV_KEY, recvData, MS_VENDOR_ID, MS_MPPE_RECV_KEY);
  }

  /** End to end: both MPPE keys of a sealed Access-Accept decrypt to the originals from the packet
      the client accepts, with the Authenticator the response remembers. */
  lemma MppeKeysSurviveTheWire(c: Crypto, identifier: byte, before: seq<Attr>, after: seq<Attr>,
                               sendKey: seq<byte>, recvKey: seq<byte>, s: Passwords.Salt, t: Passwords.Salt,
                               requestAuth: Digest, secret: seq<byte>, padding: seq<byte>)
    requires |sendKey| <= KEY_MAX_LEN && |recvKey| <= KEY_MAX_LEN && s[0] >= 128 && t[0] >= 128
    requires NoMppeKeys(before) && NoneOfType(before, TYPE) && NoneOfType(after, TYPE)
    requires Fits(true, before + ([MppeAttr(c, MS_MPPE_SEND_KEY, sendKey, requestAuth, secret, s)]
                                  + [MppeAttr(c, MS_MPPE_RECV_KEY, recvKey, requestAuth, secret, t)]) + after)
    ensures var attrs := before + ([MppeAttr(c, MS_MPPE_SEND_KEY, sendKey, requestAuth, secret, s)]
                                   + [MppeAttr(c, MS_MPPE_RECV_KEY, recvKey, requestAuth, secret, t)]) + after;
            var packet := Sealed(c, ACCESS_ACCEPT, identifier, true, attrs, requestAuth, secret);
            var r := Responses.Accept(c, packet + padding, ACCESS_REQUEST, identifier, requestAuth, secret);
            r.Some? && |r.value.packet| >= 20
            && var send := FirstVsa(r.value.packet[20..], [0, 0, 1, 55], 16);
               var recv := FirstVsa(r.value.packet[20..], [0, 0, 1, 55], 17);
               send.Some? && recv.Some?
               && Mppe.MppeKeyDecrypt(c, send.value, secret, r.value.requestAuthenticator) == Ok(sendKey)
               && Mppe.MppeKeyDecrypt(c, recv.value, secret, r.value.requestAuthenticator) == Ok(recvKey)
  {
    hide MppeAttr, Sealed, FrameTag, Mppe.MppeKeyDecrypt, Passwords.TunnelCipher, Responses.Accept, Walk, Encode;
    var pair := [MppeAttr(c, MS_MPPE_SEND_KEY, sendKey, requestAuth, secret, s)]
                + [MppeAttr(c, MS_MPPE_RECV_KEY, recvKey, requestAuth, secret, t)];
    var attrs := before + pair + after;
    assert forall a :: a in attrs ==> a in before || a in pair || a in after;
    SealedAccepted(c, ACCESS_ACCEPT, identifier, true, attrs, requestAuth, secret, padding, ACCESS_REQUEST, identifier);
    var slot := MaSlot(FrameTag(c, ACCESS_ACCEPT, identifier, [MaSlot(ZERO_DIGEST)] + attrs, requestAuth, secret));
    FirstVsaInAppend([slot], attrs, MS_VENDOR_ID, MS_MPPE_SEND_KEY);
    FirstVsaInAppend([slot], attrs, MS_VENDOR_ID, MS_MPPE_RECV_KEY);
    MppeFound(c, before, after, sendKey, recvKey, requestAuth, secret, s, t);
    Mppe.MppeRoundTrip(c, sendKey, secret, requestAuth, s);
    Mppe.MppeRoundTrip(c, recvKey, secret, requestAuth, t);
  }
}
