/** The Message-Authenticator attribute (section 3.2 of RFC 3579). */
module MessageAuthenticator {
  import opened Bytes
  import opened Header
  import opened Attributes
  import opened PacketBuffers

  const TYPE: byte := 80
  const VALUE_LEN := 16
  const TLV_LEN := 18

  datatype Verification = Absent | Valid | Invalid

  /** A slot is an attribute of type 80 with an 18-octet encoding. */
  predicate IsSlot(a: Attr) {
    a.typ == TYPE && |a.value| == VALUE_LEN
  }

  function ZeroSlot(a: Attr): (r: Attr)
    ensures |r.value| == |a.value| && r.typ == a.typ
  {
    if IsSlot(a) then RawAttribute(TYPE, ZERO_DIGEST) else a
  }

  function ZeroSlots(attrs: seq<Attr>): (r: seq<Attr>)
  {
    if attrs == [] then [] else [ZeroSlot(attrs[0])] + ZeroSlots(attrs[1..])
  }

  /** A region with every slot value zeroed and any malformed tail kept as it is. */
  function Zeroed(region: seq<byte>): (r: seq<byte>) {
    Encode(ZeroSlots(Walk(region).attrs)) + Walk(region).tail
  }

  /** The tag of a packet: HMAC over Code, Identifier, Length, the substituted Authenticator and
      the zeroed region. */
  function Tag(c: Crypto, packet: seq<byte>, requestAuth: Digest, secret: seq<byte>): (r: Digest)
    requires |packet| >= MIN_PACKET_LEN
  {
    (c.hmac)(secret, packet[..4] + requestAuth + Zeroed(packet[MIN_PACKET_LEN..]))
  }

  /** Only the values of 18-octet attributes of type 80 are zeroed; all else stays in place. */
  lemma {:induction false} ZeroSlotsPointwise(attrs: seq<Attr>)
    ensures |ZeroSlots(attrs)| == |attrs|
    ensures forall i :: 0 <= i < |attrs| ==>
              ZeroSlots(attrs)[i] == if attrs[i].typ == 80 && |attrs[i].value| == 16
                                     then RawAttribute(80, ZERO_DIGEST) else attrs[i]
  {
    if attrs != [] {
      ZeroSlotsPointwise(attrs[1..]);
    }
  }

  /** What is hashed has the octets of the region in their places; a malformed tail stays as it is. */
  lemma {:induction false} ZeroedMeaning(attrs: seq<Attr>, tail: seq<byte>)
    requires Stuck(tail)
    ensures Zeroed(Encode(attrs) + tail) == Encode(ZeroSlots(attrs)) + tail
    ensures |Encode(ZeroSlots(attrs))| == |Encode(attrs)|
  {
    WalkUnique(attrs, tail);
    if attrs != [] {
      ZeroedMeaning(attrs[1..], tail);
      EncodeCons(ZeroSlot(attrs[0]), ZeroSlots(attrs[1..]));
    }
  }

  lemma ZeroedCons(a: Attr, rest: seq<byte>)
    ensures Zeroed(EncodeAttr(a) + rest) == EncodeAttr(ZeroSlot(a)) + Zeroed(rest)
  {
  }

  /** The streaming computation feeds exactly the zeroed packet to the HMAC, on every input. */
  method Compute(c: Crypto, packet: seq<byte>, requestAuth: Digest, secret: seq<byte>) returns (tag: Digest)
    requires |packet| >= MIN_PACKET_LEN
    ensures tag == Tag(c, packet, requestAuth, secret)
  {
    var fed := packet[..4];
    fed := fed + requestAuth;
    ghost var head := fed;
    var rest := packet[MIN_PACKET_LEN..];
    assert head + Zeroed(rest) == fed + Zeroed(rest);
    while rest != []
      invariant fed + Zeroed(rest) == head + Zeroed(packet[MIN_PACKET_LEN..])
      decreases |rest|
    {
      if |rest| < 2 {
        assert Zeroed(rest) == [] + rest == rest;
        fed := fed + rest;
        break;
      }
      var len := rest[1];
      if len < 2 || len > |rest| {
        assert Zeroed(rest) == [] + rest == rest;
        fed := fed + rest;
        break;
      }
      var slot, after := rest[..len], rest[len..];
      HeadSlot(rest);
      ghost var a: Attr := RawAttribute(rest[0], rest[2..len]);
      ZeroedCons(a, after);
      ghost var before := fed;
      if slot[0] == TYPE && |slot| == TLV_LEN {
        fed := fed + slot[..2];
        fed := fed + Zeros(VALUE_LEN);
        assert fed == before + EncodeAttr(ZeroSlot(a));
      } else {
        fed := fed + slot;
        assert slot == EncodeAttr(a);
      }
      Associative(before, EncodeAttr(ZeroSlot(a)), Zeroed(after));
      rest := after;
    }
    assert fed == head + Zeroed(packet[MIN_PACKET_LEN..]);
    tag := (c.hmac)(secret, fed);
  }

  /** The values of all attributes of type 80, whatever their length. */
  function MaValues(attrs: seq<Attr>): (r: seq<seq<byte>>)
  {
    if attrs == [] then []
    else if attrs[0].typ == TYPE then [attrs[0].value] + MaValues(attrs[1..])
    else MaValues(attrs[1..])
  }

  lemma {:induction false} NoMaValuesIff(attrs: seq<Attr>)
    ensures MaValues(attrs) == [] <==> NoneOfType(attrs, TYPE)
  {
    if attrs != [] {
      NoMaValuesIff(attrs[1..]);
      assert attrs == [attrs[0]] + attrs[1..];
    }
  }

  function VerifyResult(c: Crypto, packet: seq<byte>, requestAuth: Digest, secret: seq<byte>): (r: Verification)
  {
    if |packet| < MIN_PACKET_LEN || !WellFormed(packet[MIN_PACKET_LEN..]) then Invalid
    else
      var values := MaValues(Walk(packet[MIN_PACKET_LEN..]).attrs);
      if values == [] then Absent
      else if values == [Tag(c, packet, requestAuth, secret)] then Valid
      else Invalid
  }

  lemma MaValuesCons(a: Attr, rest: seq<Attr>)
    ensures MaValues([a] + rest) == (if a.typ == TYPE then [a.value] else []) + MaValues(rest)
  {
  }

  /** The scan of `Verify` from absolute offset `base`: the offset of the one acceptable value, or
      `None` to reject. */
  function Scan(attrs: seq<Attr>, base: nat, found: Option<nat>): (r: Option<Option<nat>>)
    decreases |attrs|
  {
    if attrs == [] then Some(found)
    else
      var next := base + |attrs[0].value| + 2;
      if attrs[0].typ != TYPE then Scan(attrs[1..], next, found)
      else if !IsSlot(attrs[0]) || found.Some? then None
      else Scan(attrs[1..], next, Some(base + 2))
  }

  lemma ScanCons(a: Attr, rest: seq<Attr>, base: nat, found: Option<nat>)
    ensures var next := base + |a.value| + 2;
            Scan([a] + rest, base, found)
            == if a.typ != TYPE then Scan(rest, next, found)
               else if |a.value| + 2 != TLV_LEN || found.Some? then None
               else Scan(rest, next, Some(base + 2))
  {
  }

  lemma {:induction false} ScanAfterFound(attrs: seq<Attr>, base: nat, o: nat)
    ensures Scan(attrs, base, Some(o)) == if MaValues(attrs) == [] then Some(Some(o)) else None
    decreases |attrs|
  {
    if attrs != [] {
      ScanAfterFound(attrs[1..], base + |attrs[0].value| + 2, o);
    }
  }

  /** The scan accepts exactly the lists with no value of type 80 or one of 16 octets, and returns
      where that one stands in the encoding. */
  lemma {:induction false} ScanMeaning(attrs: seq<Attr>, base: nat)
    ensures var values := MaValues(attrs);
            match Scan(attrs, base, None)
            case None => |values| > 1 || (|values| == 1 && |values[0]| != VALUE_LEN)
            case Some(None) => values == []
            case Some(Some(o)) =>
              base + 2 <= o && o - base + 16 <= |Encode(attrs)|
              && values == [Encode(attrs)[o - base..o - base + 16]]
    decreases |attrs|
  {
    if attrs != [] {
      var rest, n := attrs[1..], |attrs[0].value| + 2;
      assert Encode(attrs) == EncodeAttr(attrs[0]) + Encode(rest);
      if attrs[0].typ != TYPE {
        ScanMeaning(rest, base + n);
        match Scan(rest, base + n, None)
        case Some(Some(o)) =>
          assert Encode(attrs)[o - base..o - base + 16] == Encode(rest)[o - base - n..o - base - n + 16];
        case _ =>
      } else if IsSlot(attrs[0]) {
        ScanAfterFound(rest, base + n, base + 2);
        assert Encode(attrs)[2..18] == EncodeAttr(attrs[0])[2..] == attrs[0].value;
      }
    }
  }

  method ScanSlots(packet: seq<byte>) returns (rejected: bool, valueOffset: Option<nat>)
    requires |packet| >= MIN_PACKET_LEN
    ensures rejected <==> !WellFormed(packet[MIN_PACKET_LEN..])
                          || Scan(Walk(packet[MIN_PACKET_LEN..]).attrs, MIN_PACKET_LEN, None).None?
    ensures !rejected ==> Scan(Walk(packet[MIN_PACKET_LEN..]).attrs, MIN_PACKET_LEN, None) == Some(valueOffset)
  {
    valueOffset := None;
    var offset: nat := MIN_PACKET_LEN;
    var it := new AttributesIter(packet[MIN_PACKET_LEN..]);
    ghost var all := Walk(packet[MIN_PACKET_LEN..]);
    while true
      invariant fresh(it) && !it.halted && it.Remaining().tail == all.tail
      invariant Scan(all.attrs, MIN_PACKET_LEN, None) == Scan(it.Remaining().attrs, offset, valueOffset)
      decreases |it.rest|
    {
      var slot := it.Next();
      match slot {
        case None => return false, valueOffset;
        case Some(Err(_)) => return true, None;
        case Some(Ok(attribute)) =>
          ScanCons(attribute, it.Remaining().attrs, offset, valueOffset);
          if attribute.typ == TYPE {
            if |attribute.value| + 2 != TLV_LEN || valueOffset.Some? {
              return true, None;
            }
            valueOffset := Some(offset + 2);
          }
          offset := offset + |attribute.value| + 2;
      }
    }
  }

  /** `Valid` exactly for a well-formed list with one attribute of type 80 that holds the tag;
      `Absent` exactly for a well-formed list with none. */
  method Verify(c: Crypto, packet: seq<byte>, requestAuth: Digest, secret: seq<byte>)
    returns (r: Verification)
    ensures r == VerifyResult(c, packet, requestAuth, secret)
  {
    hide Walk, Encode, MaValues, Scan, Tag;
    if |packet| < MIN_PACKET_LEN {
      return Invalid;
    }
    var rejected, valueOffset := ScanSlots(packet);
    ghost var region := packet[MIN_PACKET_LEN..];
    ScanMeaning(Walk(region).attrs, MIN_PACKET_LEN);
    WellFormedIffEncoded(region);
    if rejected {
      return Invalid;
    }
    if valueOffset.None? {
      return Absent;
    }
    assert packet[valueOffset.value..valueOffset.value + VALUE_LEN]
        == region[valueOffset.value - MIN_PACKET_LEN..valueOffset.value - MIN_PACKET_LEN + VALUE_LEN];
    var computed := Compute(c, packet, requestAuth, secret);
    if packet[valueOffset.value..valueOffset.value + VALUE_LEN] == computed {
      return Valid;
    }
    return Invalid;
  }

  /** Offset of the first slot's value, when the walk starts at absolute offset `base`. */
  function SlotOffset(attrs: seq<Attr>, base: nat): (r: Option<nat>)
  {
    if attrs == [] then None
    else if IsSlot(attrs[0]) then Some(base + 2)
    else SlotOffset(attrs[1..], base + |attrs[0].value| + 2)
  }

  function CountSlots(attrs: seq<Attr>): (r: nat)
  {
    if attrs == [] then 0 else (if IsSlot(attrs[0]) then 1 else 0) + CountSlots(attrs[1..])
  }

  /** The count is the number of 18-octet attributes of type 80. */
  lemma {:induction false} CountSlotsIsCardinality(attrs: seq<Attr>)
    ensures CountSlots(attrs) == |set i | 0 <= i < |attrs| && attrs[i].typ == 80 && |attrs[i].value| == 16|
  {
    if attrs != [] {
      var last, rest := |attrs| - 1, attrs[..|attrs| - 1];
      CountSlotsIsCardinality(rest);
      CountSlotsSnoc(rest, attrs[last]);
      assert attrs == rest + [attrs[last]];
      var all := set i | 0 <= i < |attrs| && attrs[i].typ == 80 && |attrs[i].value| == 16;
      var most := set i | 0 <= i < |rest| && rest[i].typ == 80 && |rest[i].value| == 16;
      assert all == if IsSlot(attrs[last]) then most + {last} else most;
    }
  }

  lemma {:induction false} CountSlotsSnoc(attrs: seq<Attr>, a: Attr)
    ensures CountSlots(attrs + [a]) == CountSlots(attrs) + if IsSlot(a) then 1 else 0
  {
    if attrs != [] {
      assert (attrs + [a])[1..] == attrs[1..] + [a];
      CountSlotsSnoc(attrs[1..], a);
    }
  }

  /** The offset is that of the first 18-octet attribute of type 80 in the encoding. */
  lemma {:induction false} SlotOffsetIsFirst(before: seq<Attr>, a: Attr, after: seq<Attr>, base: nat)
    requires forall x :: x in before ==> x.typ != 80 || |x.value| != 16
    requires a.typ == 80 && |a.value| == 16
    ensures SlotOffset(before + [a] + after, base) == Some(base + |Encode(before)| + 2)
    ensures SlotOffset(before, base) == None
  {
    if before != [] {
      var all := before + [a] + after;
      assert all[0] == before[0] && all[1..] == before[1..] + [a] + after;
      SlotOffsetIsFirst(before[1..], a, after, base + |before[0].value| + 2);
    }
  }

  /** One step of either scan, at any offset of the packet. */
  lemma SlotStep(packet: seq<byte>, offset: nat)
    requires offset <= |packet|
    ensures var rest := packet[offset..];
            var attrs := Walk(rest).attrs;
            if |rest| < 2 || rest[1] < 2 || rest[1] > |rest|
            then SlotOffset(attrs, offset).None? && CountSlots(attrs) == 0
            else
              var n := rest[1];
              var after := Walk(packet[offset + n..]).attrs;
                 if rest[0] == TYPE && n == TLV_LEN
                 then SlotOffset(attrs, offset) == Some(offset + 2) && CountSlots(attrs) == 1 + CountSlots(after)
                 else SlotOffset(attrs, offset) == SlotOffset(after, offset + n)
                      && CountSlots(attrs) == CountSlots(after)
  {
  }

  method FindValueOffset(packet: seq<byte>) returns (r: Option<nat>)
    ensures r == if |packet| < MIN_PACKET_LEN then None
                 else SlotOffset(Walk(packet[MIN_PACKET_LEN..]).attrs, MIN_PACKET_LEN)
  {
    hide Walk, SlotOffset, CountSlots, IsSlot;
    if |packet| < MIN_PACKET_LEN {
      return None;
    }
    var offset := MIN_PACKET_LEN;
    SlotStep(packet, |packet|);
    while offset < |packet|
      invariant MIN_PACKET_LEN <= offset <= |packet|
      invariant SlotOffset(Walk(packet[MIN_PACKET_LEN..]).attrs, MIN_PACKET_LEN)
                == SlotOffset(Walk(packet[offset..]).attrs, offset)
    {
      var rest := packet[offset..];
      SlotStep(packet, offset);
      if |rest| < 2 {
        return None;
      }
      var len := rest[1];
      if len < 2 || len > |rest| {
        return None;
      }
      if rest[0] == TYPE && rest[1] == TLV_LEN {
        return Some(offset + 2);
      }
      offset := offset + len;
    }
    return None;
  }

  method CountValueOffsets(packet: seq<byte>) returns (count: nat)
    ensures count == if |packet| < MIN_PACKET_LEN then 0
                     else CountSlots(Walk(packet[MIN_PACKET_LEN..]).attrs)
  {
    hide Walk, SlotOffset, CountSlots, IsSlot;
    if |packet| < MIN_PACKET_LEN {
      return 0;
    }
    count := 0;
    var offset := MIN_PACKET_LEN;
    ghost var total := CountSlots(Walk(packet[offset..]).attrs);
    SlotStep(packet, |packet|);
    while offset < |packet|
      invariant MIN_PACKET_LEN <= offset <= |packet|
      invariant total == count + CountSlots(Walk(packet[offset..]).attrs)
    {
      var rest := packet[offset..];
      SlotStep(packet, offset);
      if |rest| < 2 {
        break;
      }
      var len := rest[1];
      if len < 2 || len > |rest| {
        break;
      }
      if rest[0] == TYPE && rest[1] == TLV_LEN {
        count := count + 1;
      }
      offset := offset + len;
    }
  }

  lemma {:induction false} NoMaValuesNoSlots(attrs: seq<Attr>, base: nat)
    requires MaValues(attrs) == []
    ensures CountSlots(attrs) == 0 && SlotOffset(attrs, base).None?
  {
    if attrs != [] {
      NoMaValuesNoSlots(attrs[1..], base + |attrs[0].value| + 2);
    }
  }

  lemma {:induction false} OneSlotFound(attrs: seq<Attr>, base: nat, tag: Digest)
    requires MaValues(attrs) == [tag]
    ensures CountSlots(attrs) == 1 && SlotOffset(attrs, base).Some?
    ensures var o := SlotOffset(attrs, base).value - base;
            2 <= o && o + 16 <= |Encode(attrs)| && Encode(attrs)[o..o + 16] == tag
  {
    var rest, n := attrs[1..], |attrs[0].value| + 2;
    if attrs[0].typ == TYPE {
      assert MaValues(attrs)[0] == tag && MaValues(attrs)[1..] == MaValues(rest);
      NoMaValuesNoSlots(rest, base + n);
      assert Encode(attrs)[2..18] == EncodeAttr(attrs[0])[2..];
    } else {
      OneSlotFound(rest, base + n, tag);
      var o := SlotOffset(rest, base + n).value - base - n;
      assert Encode(attrs)[n + o..n + o + 16] == Encode(rest)[o..o + 16];
    }
  }

  /** The slot finder and counter agree with verification on every packet it calls valid or
      unsigned. */
  lemma HelpersAgreeWithVerify(c: Crypto, packet: seq<byte>, requestAuth: Digest, secret: seq<byte>)
    requires |packet| >= MIN_PACKET_LEN
    ensures var attrs := Walk(packet[20..]).attrs;
            var r := VerifyResult(c, packet, requestAuth, secret);
            (r.Absent? ==> CountSlots(attrs) == 0 && SlotOffset(attrs, 20).None?)
            && (r.Valid? ==>
                  CountSlots(attrs) == 1 && SlotOffset(attrs, 20).Some?
                  && var o := SlotOffset(attrs, 20).value;
                     22 <= o && o + 16 <= |packet|
                     && packet[o..o + 16] == Tag(c, packet, requestAuth, secret))
  {
    hide Walk, Encode, Tag, MaValues, CountSlots, SlotOffset;
    var region := packet[20..];
    var attrs := Walk(region).attrs;
    var r := VerifyResult(c, packet, requestAuth, secret);
    if r.Absent? {
      NoMaValuesNoSlots(attrs, 20);
    } else if r.Valid? {
      OneSlotFound(attrs, 20, Tag(c, packet, requestAuth, secret));
      WellFormedIffEncoded(region);
      var o := SlotOffset(attrs, 20).value;
      assert packet[o..o + 16] == region[o - 20..o - 4];
    }
  }

  /** Append a slot whose value will be patched; the value's absolute offset is returned. */
  method AppendZeroedSlot(buf: PacketBuffer) returns (r: Result<nat, CodecError>)
    requires buf.Valid()
    modifies buf
    ensures buf.Valid()
    ensures r.Ok? <==> old(|buf.inner|) + TLV_LEN <= MAX_PACKET_LEN
    ensures r.Ok? ==> r.value == old(|buf.inner|) + 2
                      && buf.inner == old(buf.inner) + EncodeAttr(RawAttribute(TYPE, ZERO_DIGEST))
    ensures r.Err? ==> buf.inner == old(buf.inner)
                       && r.error == PacketTooLarge(old(|buf.inner|), TLV_LEN)
  {
    var valueOffset := |buf.inner| + 2;
    var failed := buf.AddAttribute(TYPE, ZERO_DIGEST);
    match failed {
      case Some(e) => return Err(e);
      case None => return Ok(valueOffset);
    }
  }

  function MaSlot(tag: Digest): (r: Attr) {
    RawAttribute(TYPE, tag)
  }

  /** The tag of a frame, from its attribute list. */
  function FrameTag(c: Crypto, code: byte, identifier: byte, attrs: seq<Attr>, requestAuth: Digest, secret: seq<byte>)
    : (r: Digest)
    requires MIN_PACKET_LEN + |Encode(attrs)| <= MAX_PACKET_LEN
  {
    (c.hmac)(secret, Prefix(code, identifier, MIN_PACKET_LEN + |Encode(attrs)|) + requestAuth
                     + Encode(ZeroSlots(attrs)))
  }

  /** The octets under the HMAC, in order. */
  lemma TagOctets(c: Crypto, code: byte, identifier: byte, attrs: seq<Attr>, requestAuth: Digest, secret: seq<byte>)
    requires MIN_PACKET_LEN + |Encode(attrs)| <= MAX_PACKET_LEN
    ensures FrameTag(c, code, identifier, attrs, requestAuth, secret)
            == (c.hmac)(secret, [code, identifier] + U16(20 + |Encode(attrs)|) + requestAuth + Encode(ZeroSlots(attrs)))
  {
    hide Encode, ZeroSlots;
  }

  /** On a frame, the tag depends only on the attribute list, and verification compares it with the
      one value of type 80. */
  lemma VerifyFrame(c: Crypto, code: byte, identifier: byte, auth: Digest, attrs: seq<Attr>,
                    requestAuth: Digest, secret: seq<byte>)
    requires MIN_PACKET_LEN + |Encode(attrs)| <= MAX_PACKET_LEN
    ensures var packet := Frame(code, identifier, auth, Encode(attrs));
            var tag := FrameTag(c, code, identifier, attrs, requestAuth, secret);
            Tag(c, packet, requestAuth, secret) == tag
            && VerifyResult(c, packet, requestAuth, secret)
               == if MaValues(attrs) == [] then Absent
                  else if MaValues(attrs) == [tag] then Valid else Invalid
  {
    var packet := Frame(code, identifier, auth, Encode(attrs));
    WalkEncode(attrs);
    assert packet[20..] == Encode(attrs);
    assert Zeroed(Encode(attrs)) == Encode(ZeroSlots(attrs));
  }

  /** Nothing that cannot be read to its end verifies or passes for unsigned. */
  lemma UnreadableIsInvalid(c: Crypto, code: byte, identifier: byte, auth: Digest, attrs: seq<Attr>, tail: seq<byte>,
                            short: seq<byte>, requestAuth: Digest, secret: seq<byte>)
    requires Stuck(tail) && tail != [] && MIN_PACKET_LEN + |Encode(attrs) + tail| <= MAX_PACKET_LEN && |short| < 20
    ensures VerifyResult(c, Frame(code, identifier, auth, Encode(attrs) + tail), requestAuth, secret) == Invalid
    ensures VerifyResult(c, short, requestAuth, secret) == Invalid
  {
    hide Encode, Walk, MaValues;
    WalkUnique(attrs, tail);
  }

  lemma ZeroSlotsOfSigned(tag: Digest, attrs: seq<Attr>)
    ensures ZeroSlots([MaSlot(tag)] + attrs) == [MaSlot(ZERO_DIGEST)] + ZeroSlots(attrs)
  {
  }

  /** Writing a tag into the leading slot changes only that slot, and not the tag of the frame. */
  lemma PatchLeadingSlot(c: Crypto, code: byte, identifier: byte, tag: Digest, other: Digest,
                         attrs: seq<Attr>, requestAuth: Digest, secret: seq<byte>)
    requires MIN_PACKET_LEN + |Encode([MaSlot(other)] + attrs)| <= MAX_PACKET_LEN
    ensures var before, after := Encode([MaSlot(other)] + attrs), Encode([MaSlot(tag)] + attrs);
            |after| == |before| == 18 + |Encode(attrs)|
            && before[..2] + tag + before[18..] == after
            && FrameTag(c, code, identifier, [MaSlot(tag)] + attrs, requestAuth, secret)
               == FrameTag(c, code, identifier, [MaSlot(other)] + attrs, requestAuth, secret)
  {
  }

  /** The leading slot of a frame holding its own tag verifies exactly when no other attribute of
      type 80 follows. */
  lemma SignedFrameVerifies(c: Crypto, code: byte, identifier: byte, auth: Digest, attrs: seq<Attr>,
                            requestAuth: Digest, secret: seq<byte>)
    requires MIN_PACKET_LEN + |Encode([MaSlot(ZERO_DIGEST)] + attrs)| <= MAX_PACKET_LEN
    ensures var tag := FrameTag(c, code, identifier, [MaSlot(ZERO_DIGEST)] + attrs, requestAuth, secret);
            |Encode([MaSlot(tag)] + attrs)| == |Encode([MaSlot(ZERO_DIGEST)] + attrs)|
            && VerifyResult(c, Frame(code, identifier, auth, Encode([MaSlot(tag)] + attrs)), requestAuth, secret)
               == if MaValues(attrs) == [] then Valid else Invalid
  {
    var tag := FrameTag(c, code, identifier, [MaSlot(ZERO_DIGEST)] + attrs, requestAuth, secret);
    PatchLeadingSlot(c, code, identifier, tag, ZERO_DIGEST, attrs, requestAuth, secret);
    VerifyFrame(c, code, identifier, auth, [MaSlot(tag)] + attrs, requestAuth, secret);
    MaValuesCons(MaSlot(tag), attrs);
  }
}
