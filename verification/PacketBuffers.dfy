/** The packet buffer, its attribute builders with rollback, and what any run of them leaves for
    the attribute walker. */
module PacketBuffers {
  import opened Bytes
  import opened Header
  import opened Attributes

  datatype CodecError =
    | PacketTooLarge(current: nat, attempted: nat)
    | AttributeValueTooLong(len: nat)
    | WrongPacketType
    | ReservedAttribute(typ: byte)
    | PasswordTooLong(len: nat)

  /** `None` is success. */
  type Outcome = Option<CodecError>

  /** One attempt of a nested-attribute closure to add a child, either through a typed handle
      (encode, then check) or raw (check, then encode). */
  datatype Child = Child(typed: bool, subType: byte, value: seq<byte>)

  /** What a nested-attribute closure does: the children it attempts, in order, and the result it
      returns in the end. */
  datatype Script = Script(children: seq<Child>, verdict: Outcome)

  /** A builder call. A writing closure is represented by the bytes it appends. */
  datatype BuildOp =
    | AddAttribute(typ: byte, val: seq<byte>)
    | AddAttributeWith(typ: byte, written: seq<byte>)
    | AddVsa(vendor: Pen, vendorType: byte, data: seq<byte>)
    | AddTlv(parent: byte, build: Script)
    | AddVsaTlv(vendor: Pen, vendorType: byte, build: Script)

  /** The children that fit a sub-length octet, as attributes. */
  function Kept(children: seq<Child>): (r: seq<Attr>)
  {
    if children == [] then []
    else if |children[0].value| > MAX_ATTRIBUTE_VALUE_LEN then Kept(children[1..])
    else [RawAttribute(children[0].subType, children[0].value)] + Kept(children[1..])
  }

  /** The vendor envelope with the vendor length saturated at 255. */
  function SaturatedVsa(vendor: Pen, vendorType: byte, data: seq<byte>): (r: seq<byte>)
    ensures |r| == 6 + |data|
  {
    vendor + [vendorType, if |data| + 2 <= 255 then |data| + 2 else 255] + data
  }

  /** The attribute a call sets out to append, before any limit is applied. */
  function Wanted(op: BuildOp): (r: RawAttribute)
  {
    match op
    case AddAttribute(typ, val) => RawAttribute(typ, val)
    case AddAttributeWith(typ, written) => RawAttribute(typ, written)
    case AddVsa(vendor, vendorType, data) =>
      RawAttribute(VENDOR_SPECIFIC, SaturatedVsa(vendor, vendorType, data))
    case AddTlv(parent, build) => RawAttribute(parent, Encode(Kept(build.children)))
    case AddVsaTlv(vendor, vendorType, build) =>
      RawAttribute(VENDOR_SPECIFIC, SaturatedVsa(vendor, vendorType, Encode(Kept(build.children))))
  }

  /** Limits of `add_attribute`, which knows the value beforehand. */
  function AppendLimits(size: nat, len: nat): (r: Outcome)
  {
    if len > MAX_ATTRIBUTE_VALUE_LEN then Some(AttributeValueTooLong(len))
    else if size + 2 + len > MAX_PACKET_LEN then Some(PacketTooLarge(size, 2 + len))
    else None
  }

  /** The result of appending a value of `len` octets to a packet of `size`, where a closure returned
      `verdict`: success exactly when the value fits one Length octet, the packet stays within 4096
      octets and the closure did not fail. A value that does not fit is reported before the packet's
      size, and both before the closure's error. */
  predicate Refusal(r: Outcome, size: nat, len: nat, verdict: Outcome) {
    && (r.None? <==> len <= 253 && size + 2 + len <= 4096 && verdict.None?)
    && (len > 253 ==> r == Some(AttributeValueTooLong(len)))
    && (len <= 253 && size + 2 + len > 4096 ==> r == Some(PacketTooLarge(size, 2 + len)))
    && (len <= 253 && size + 2 + len <= 4096 ==> r == verdict)
  }

  /** The same for builders that reserve the two header octets first: without room for those nothing
      is written at all. */
  predicate RefusalWith(r: Outcome, size: nat, len: nat, verdict: Outcome) {
    if size + 2 > 4096 then r == Some(PacketTooLarge(size, 2)) else Refusal(r, size, len, verdict)
  }

  /** Limits of the closure-driven builders, which learn the value length afterwards. */
  function WithLimits(size: nat, len: nat): (r: Outcome)
  {
    if size + 2 > MAX_PACKET_LEN then Some(PacketTooLarge(size, 2))
    else AppendLimits(size, len)
  }

  function OutcomeOf(size: nat, op: BuildOp): (r: Outcome)
  {
    match op
    case AddAttribute(_, val) => AppendLimits(size, |val|)
    case AddAttributeWith(_, _) => WithLimits(size, |Wanted(op).value|)
    case AddVsa(_, _, _) => WithLimits(size, |Wanted(op).value|)
    case AddTlv(_, build) =>
      if WithLimits(size, |Wanted(op).value|).Some? then WithLimits(size, |Wanted(op).value|)
      else build.verdict
    case AddVsaTlv(_, _, build) =>
      if WithLimits(size, |Wanted(op).value|).Some? then WithLimits(size, |Wanted(op).value|)
      else build.verdict
  }

  /** The attribute a call appends, if it succeeds. */
  function Appended(size: nat, op: BuildOp): (r: Option<Attr>)
    ensures r.Some? ==> size + 2 + |r.value.value| <= MAX_PACKET_LEN
  {
    if OutcomeOf(size, op).None? then Some(Wanted(op)) else None
  }

  /** The buffer after a call: one more encoded attribute on success, the same bytes on failure. */
  function Step(inner: seq<byte>, op: BuildOp): (r: seq<byte>)
  {
    match Appended(|inner|, op)
    case Some(a) => inner + EncodeAttr(a)
    case None => inner
  }

  /** A header-only packet. */
  function Fresh(code: byte, identifier: byte): (r: seq<byte>)
    ensures |r| == MIN_PACKET_LEN && r[0] == code && r[1] == identifier
  {
    [code, identifier, 0, 20] + ZERO_DIGEST
  }

  lemma FreshParses(code: byte, identifier: byte, tail: seq<byte>)
    ensures Fresh(code, identifier) == Frame(code, identifier, ZERO_DIGEST, [])
    ensures Parse(Fresh(code, identifier) + tail) == Ok(Parsed(Header(code, identifier, 20, ZERO_DIGEST), []))
  {
  }

  /** Patching the Length of a buffer under construction makes it a frame. */
  lemma PatchedIsFrame(code: byte, identifier: byte, region: seq<byte>)
    requires |region| <= 4076
    ensures var inner := Fresh(code, identifier) + region;
            inner[..2] + U16(|inner|) + inner[4..] == Frame(code, identifier, ZERO_DIGEST, region)
  {
  }

  /** Overwriting the Authenticator of a frame. */
  lemma ResignedFrame(code: byte, identifier: byte, auth: Digest, other: Digest, region: seq<byte>)
    requires |region| <= 4076
    ensures var f := Frame(code, identifier, auth, region);
            f[..4] + other + f[20..] == Frame(code, identifier, other, region)
  {
  }

  lemma {:induction false} KeptAppend(a: seq<Child>, b: seq<Child>)
    ensures Kept(a + b) == Kept(a) + Kept(b)
  {
    if a == [] {
      assert a + b == b;
    } else {
      assert (a + b)[0] == a[0] && (a + b)[1..] == a[1..] + b;
      KeptAppend(a[1..], b);
    }
  }

  /** What one child attempt leaves in the parent's value. */
  function ChildBytes(subType: byte, value: seq<byte>): (r: seq<byte>)
  {
    if |value| <= MAX_ATTRIBUTE_VALUE_LEN then EncodeAttr(RawAttribute(subType, value)) else []
  }

  lemma KeptSnoc(children: seq<Child>, i: nat)
    requires i < |children|
    ensures Encode(Kept(children[..i + 1]))
            == Encode(Kept(children[..i])) + ChildBytes(children[i].subType, children[i].value)
  {
    var c := children[i];
    assert children[..i + 1] == children[..i] + [c];
    KeptAppend(children[..i], [c]);
    EncodeAppend(Kept(children[..i]), Kept([c]));
    assert [c][1..] == [];
    if |c.value| <= MAX_ATTRIBUTE_VALUE_LEN {
      assert Kept([c]) == [RawAttribute(c.subType, c.value)];
      EncodeOne(RawAttribute(c.subType, c.value));
    }
  }

  /** Pushing header and value one after the other appends the encoded attribute. */
  lemma PushedAttr(inner: seq<byte>, typ: byte, value: seq<byte>)
    requires |value| <= MAX_ATTRIBUTE_VALUE_LEN
    ensures inner + [typ] + [|value| + 2] + value == inner + EncodeAttr(RawAttribute(typ, value))
  {
  }

  /** Pushing a zero length and patching it later comes to the same, and truncating undoes it. */
  lemma PatchedAttr(inner: seq<byte>, typ: byte, value: seq<byte>)
    ensures (inner + [typ] + [0] + value)[..|inner|] == inner
    ensures |value| <= MAX_ATTRIBUTE_VALUE_LEN ==>
              (inner + [typ] + [0] + value)[|inner| + 1 := |value| + 2] == inner + EncodeAttr(RawAttribute(typ, value))
  {
  }

  /** A vendor envelope written after `inner` with its length octet patched last. */
  lemma VendorEnvelope(inner: seq<byte>, vendor: Pen, vendorType: byte, data: seq<byte>)
    ensures var written := inner + [VENDOR_SPECIFIC, 0] + vendor + [vendorType, 0] + data;
            var patched := written[|inner| + 7 := if |data| + 2 <= 255 then |data| + 2 else 255];
            patched[..|inner|] == inner && patched[|inner|] == VENDOR_SPECIFIC
            && patched[|inner| + 2..] == SaturatedVsa(vendor, vendorType, data)
    ensures |data| <= 247 ==>
              inner + EncodeAttr(RawAttribute(VENDOR_SPECIFIC, SaturatedVsa(vendor, vendorType, data)))
              == inner + [26, |data| + 8] + vendor + [vendorType, |data| + 2] + data
  {
  }

  /** An empty value is a value: it is refused only for want of room. */
  lemma EmptyValueFits(size: nat, typ: byte)
    ensures OutcomeOf(size, BuildOp.AddAttribute(typ, [])).None? <==> size + 2 <= MAX_PACKET_LEN
  {
  }

  class PacketBuffer {
    var inner: seq<byte>

    predicate Valid()
      reads this
    {
      MIN_PACKET_LEN <= |inner| <= MAX_PACKET_LEN
    }

    constructor (code: byte, identifier: byte)
      ensures Valid() && inner == Fresh(code, identifier)
    {
      inner := [code, identifier] + U16(MIN_PACKET_LEN) + ZERO_DIGEST;
    }

    /** Takes a received datagram; padding after the declared length is dropped. */
    static method FromBytes(bytes: seq<byte>) returns (r: Result<seq<byte>, HeaderError>)
      ensures r.Ok? <==> Parse(bytes).Ok?
      ensures r.Ok? ==> r.value == bytes[..Parse(bytes).value.header.length]
                        && Parse(r.value) == Parse(bytes)
      ensures r.Err? ==> r.error == Parse(bytes).error
    {
      match Parse(bytes) {
        case Err(e) => r := Err(e);
        case Ok(p) =>
          r := Ok(bytes[..p.header.length]);
          assert r.value[4..20] == bytes[4..20];
          assert r.value[20..p.header.length] == bytes[20..p.header.length];
      }
    }

    method Reset(code: byte, identifier: byte)
      modifies this
      ensures Valid() && inner == Fresh(code, identifier)
    {
      inner := [];
      inner := inner + [code, identifier];
      inner := inner + U16(MIN_PACKET_LEN);
      inner := inner + ZERO_DIGEST;
    }

    method AddAttribute(typ: byte, val: seq<byte>) returns (r: Outcome)
      requires Valid()
      modifies this
      ensures Valid()
      ensures r == OutcomeOf(old(|inner|), BuildOp.AddAttribute(typ, val))
      ensures inner == Step(old(inner), BuildOp.AddAttribute(typ, val))
      ensures Refusal(r, old(|inner|), |val|, None)
      ensures inner == if r.None? then old(inner) + [typ, |val| + 2] + val else old(inner)
    {
      if |val| > MAX_ATTRIBUTE_VALUE_LEN {
        return Some(AttributeValueTooLong(|val|));
      }
      var added := 2 + |val|;
      if |inner| + added > MAX_PACKET_LEN {
        return Some(PacketTooLarge(|inner|, added));
      }
      PushedAttr(inner, typ, val);
      inner := inner + [typ];
      inner := inner + [added];
      inner := inner + val;
      return None;
    }

    /** Reserve the two-octet attribute header that a closure then writes after. */
    method Open(typ: byte) returns (r: Outcome)
      modifies this
      ensures r == if old(|inner|) + 2 > MAX_PACKET_LEN then Some(PacketTooLarge(old(|inner|), 2)) else None
      ensures inner == if r.None? then old(inner) + [typ, 0] else old(inner)
    {
      var headerPos := |inner|;
      if headerPos + 2 > MAX_PACKET_LEN {
        return Some(PacketTooLarge(headerPos, 2));
      }
      inner := inner + [typ, 0];
      return None;
    }

    /** Check what was written after the header at `headerPos`; patch its length or roll back. */
    method Close(headerPos: nat) returns (r: Outcome)
      requires headerPos + 2 <= |inner|
      modifies this
      ensures r == AppendLimits(headerPos, old(|inner|) - headerPos - 2)
      ensures inner == if r.None?
                       then old(inner[..headerPos])
                            + EncodeAttr(RawAttribute(old(inner[headerPos]), old(inner[headerPos + 2..])))
                       else old(inner[..headerPos])
    {
      var valLen := |inner| - (headerPos + 2);
      if valLen > MAX_ATTRIBUTE_VALUE_LEN {
        inner := inner[..headerPos];
        return Some(AttributeValueTooLong(valLen));
      }
      if |inner| > MAX_PACKET_LEN {
        inner := inner[..headerPos];
        return Some(PacketTooLarge(headerPos, 2 + valLen));
      }
      inner := inner[headerPos + 1 := valLen + 2];
      return None;
    }

    method AddAttributeWith(typ: byte, written: seq<byte>) returns (r: Outcome)
      requires Valid()
      modifies this
      ensures Valid()
      ensures r == OutcomeOf(old(|inner|), BuildOp.AddAttributeWith(typ, written))
      ensures inner == Step(old(inner), BuildOp.AddAttributeWith(typ, written))
      ensures RefusalWith(r, old(|inner|), |written|, None)
      ensures inner == if r.None? then old(inner) + [typ, |written| + 2] + written else old(inner)
    {
      var headerPos := |inner|;
      r := Open(typ);
      if r.Some? {
        return;
      }
      inner := inner + written;
      assert inner[..headerPos] == old(inner) && inner[headerPos + 2..] == written;
      r := Close(headerPos);
    }

    /** Begin a vendor envelope whose vendor length is patched by `EndVendor`. */
    method BeginVendor(vendor: Pen, vendorType: byte) returns (lenPos: nat)
      modifies this
      ensures inner == old(inner) + vendor + [vendorType, 0]
      ensures lenPos == old(|inner|) + 5
    {
      inner := inner + vendor;
      inner := inner + [vendorType];
      lenPos := |inner|;
      inner := inner + [0];
    }

    method EndVendor(lenPos: nat)
      requires lenPos < |inner|
      modifies this
      ensures var vsaLen := old(|inner|) - lenPos + 1;
              inner == old(inner)[lenPos := if vsaLen <= 255 then vsaLen else 255]
    {
      var vsaLen := |inner| - (lenPos + 1) + 2;
      inner := inner[lenPos := if vsaLen <= 255 then vsaLen else 255];
    }

    method AddVsa(vendor: Pen, vendorType: byte, data: seq<byte>) returns (r: Outcome)
      requires Valid()
      modifies this
      ensures Valid()
      ensures r == OutcomeOf(old(|inner|), BuildOp.AddVsa(vendor, vendorType, data))
      ensures inner == Step(old(inner), BuildOp.AddVsa(vendor, vendorType, data))
      ensures RefusalWith(r, old(|inner|), 6 + |data|, None)
      ensures inner == if r.None? then old(inner) + [26, |data| + 8] + vendor + [vendorType, |data| + 2] + data
                       else old(inner)
    {
      hide SaturatedVsa, EncodeAttr;
      var headerPos := |inner|;
      r := Open(VENDOR_SPECIFIC);
      if r.Some? {
        return;
      }
      VendorEnvelope(old(inner), vendor, vendorType, data);
      var lenPos := BeginVendor(vendor, vendorType);
      inner := inner + data;
      EndVendor(lenPos);
      r := Close(headerPos);
    }

    /** The same where a closure wrote: an error of its own rolls back what fits. */
    method CloseWith(headerPos: nat, childErr: Outcome) returns (r: Outcome)
      requires headerPos + 2 <= |inner|
      modifies this
      ensures var limits := AppendLimits(headerPos, old(|inner|) - headerPos - 2);
              r == if limits.Some? then limits else childErr
      ensures inner == if r.None?
                       then old(inner[..headerPos])
                            + EncodeAttr(RawAttribute(old(inner[headerPos]), old(inner[headerPos + 2..])))
                       else old(inner[..headerPos])
    {
      r := Close(headerPos);
      if r.Some? {
        return;
      }
      if childErr.Some? {
        inner := inner[..headerPos];
        return childErr;
      }
    }

    method AddTlv(parent: byte, build: Script) returns (r: Outcome)
      requires Valid()
      modifies this
      ensures Valid()
      ensures r == OutcomeOf(old(|inner|), BuildOp.AddTlv(parent, build))
      ensures inner == Step(old(inner), BuildOp.AddTlv(parent, build))
      ensures var value := Encode(Kept(build.children));
              (r.None? <==> build.verdict.None? && |value| <= 253 && old(|inner|) + 2 + |value| <= 4096)
              && (|value| <= 253 && old(|inner|) + 2 + |value| <= 4096 ==> r == build.verdict)
              && RefusalWith(r, old(|inner|), |value|, build.verdict)
              && inner == if r.None? then old(inner) + [parent, |value| + 2] + value else old(inner)
    {
      var snapshot := |inner|;
      r := Open(parent);
      if r.Some? {
        return;
      }
      var w := new TlvWriter(this);
      var childErr := w.Execute(build);
      assert inner[..snapshot] == old(inner);
      assert inner[snapshot + 2..] == Encode(Kept(build.children));
      r := CloseWith(snapshot, childErr);
    }

    method AddVsaTlv(vendor: Pen, vendorType: byte, build: Script) returns (r: Outcome)
      requires Valid()
      modifies this
      ensures Valid()
      ensures r == OutcomeOf(old(|inner|), BuildOp.AddVsaTlv(vendor, vendorType, build))
      ensures inner == Step(old(inner), BuildOp.AddVsaTlv(vendor, vendorType, build))
      ensures var data := Encode(Kept(build.children));
              (r.None? <==> build.verdict.None? && |data| <= 247 && old(|inner|) + 8 + |data| <= 4096)
              && (|data| <= 247 && old(|inner|) + 8 + |data| <= 4096 ==> r == build.verdict)
              && RefusalWith(r, old(|inner|), 6 + |data|, build.verdict)
              && inner == if r.None?
                          then old(inner) + [26, |data| + 8] + vendor + [vendorType, |data| + 2] + data
                          else old(inner)
    {
      hide SaturatedVsa, EncodeAttr, Kept, Encode;
      var snapshot := |inner|;
      r := Open(VENDOR_SPECIFIC);
      if r.Some? {
        return;
      }
      var lenPos := BeginVendor(vendor, vendorType);
      var w := new TlvWriter(this);
      var childErr := w.Execute(build);
      VendorEnvelope(old(inner), vendor, vendorType, Encode(Kept(build.children)));
      EndVendor(lenPos);
      r := CloseWith(snapshot, childErr);
    }

    /** Any builder call, by name. */
    method Apply(op: BuildOp) returns (r: Outcome)
      requires Valid()
      modifies this
      ensures Valid()
      ensures r == OutcomeOf(old(|inner|), op)
      ensures inner == Step(old(inner), op)
    {
      match op {
        case AddAttribute(typ, val) => r := AddAttribute(typ, val);
        case AddAttributeWith(typ, written) => r := AddAttributeWith(typ, written);
        case AddVsa(vendor, vendorType, data) => r := AddVsa(vendor, vendorType, data);
        case AddTlv(parent, build) => r := AddTlv(parent, build);
        case AddVsaTlv(vendor, vendorType, build) => r := AddVsaTlv(vendor, vendorType, build);
      }
    }

    /** Write the current size into the Length field. */
    method PatchLength()
      requires Valid()
      modifies this
      ensures inner == old(inner[..2]) + U16(old(|inner|)) + old(inner[4..])
    {
      var len := U16(|inner|);
      inner := inner[2 := len[0]][3 := len[1]];
    }

    method SetAuthenticator(auth: Digest)
      requires Valid()
      modifies this
      ensures inner == old(inner[..4]) + auth + old(inner[20..])
    {
      inner := inner[..4] + auth + inner[20..];
    }

    method SetIdentifier(identifier: byte)
      requires Valid()
      modifies this
      ensures inner == old(inner)[1 := identifier]
    {
      inner := inner[1 := identifier];
    }

    method TruncateAttributesTo(newLen: nat)
      requires Valid()
      modifies this
      ensures Valid()
      ensures inner == if MIN_PACKET_LEN + newLen <= old(|inner|) then old(inner[..MIN_PACKET_LEN + newLen])
                       else old(inner)
    {
      if MIN_PACKET_LEN + newLen <= |inner| {
        inner := inner[..MIN_PACKET_LEN + newLen];
      }
    }

    /** Overwrite 16 octets of the attribute region at an absolute offset. */
    method Patch(valueOffset: nat, tag: Digest)
      requires Valid() && MIN_PACKET_LEN <= valueOffset && valueOffset + 16 <= |inner|
      modifies this
      ensures Valid() && inner == old(inner[..valueOffset]) + tag + old(inner[valueOffset + 16..])
    {
      inner := inner[..valueOffset] + tag + inner[valueOffset + 16..];
    }
  }

  /** The child writer handed to nested-attribute closures. */
  class TlvWriter {
    const out: PacketBuffer

    constructor (out: PacketBuffer)
      ensures this.out == out
    {
      this.out := out;
    }

    /** Typed child: written first, rolled back if its value does not fit. */
    method WriteChild(subType: byte, value: seq<byte>) returns (r: Outcome)
      modifies out
      ensures r.None? <==> |value| <= MAX_ATTRIBUTE_VALUE_LEN
      ensures r.Some? ==> r.value == AttributeValueTooLong(|value|)
      ensures out.inner == old(out.inner) + ChildBytes(subType, value)
      ensures out.inner == if |value| <= 253 then old(out.inner) + [subType, |value| + 2] + value else old(out.inner)
    {
      var headerPos := |out.inner|;
      PatchedAttr(out.inner, subType, value);
      out.inner := out.inner + [subType];
      out.inner := out.inner + [0];
      out.inner := out.inner + value;
      var valLen := |out.inner| - (headerPos + 2);
      if valLen > MAX_ATTRIBUTE_VALUE_LEN {
        out.inner := out.inner[..headerPos];
        return Some(AttributeValueTooLong(valLen));
      }
      out.inner := out.inner[headerPos + 1 := valLen + 2];
      return None;
    }

    /** Raw child: checked before anything is written. */
    method AddRaw(subType: byte, value: seq<byte>) returns (r: Outcome)
      modifies out
      ensures r.None? <==> |value| <= MAX_ATTRIBUTE_VALUE_LEN
      ensures r.Some? ==> r.value == AttributeValueTooLong(|value|)
      ensures out.inner == old(out.inner) + ChildBytes(subType, value)
      ensures out.inner == if |value| <= 253 then old(out.inner) + [subType, |value| + 2] + value else old(out.inner)
    {
      if |value| > MAX_ATTRIBUTE_VALUE_LEN {
        return Some(AttributeValueTooLong(|value|));
      }
      PushedAttr(out.inner, subType, value);
      out.inner := out.inner + [subType];
      out.inner := out.inner + [|value| + 2];
      out.inner := out.inner + value;
      return None;
    }

    /** Run a closure: attempt each child, then return its verdict. */
    method Execute(build: Script) returns (r: Outcome)
      modifies out
      ensures r == build.verdict
      ensures out.inner == old(out.inner) + Encode(Kept(build.children))
    {
      assert build.children[..0] == [];
      for i := 0 to |build.children|
        invariant out.inner == old(out.inner) + Encode(Kept(build.children[..i]))
      {
        var c := build.children[i];
        ghost var e, b := Encode(Kept(build.children[..i])), ChildBytes(c.subType, c.value);
        if c.typed {
          var _ := WriteChild(c.subType, c.value);
        } else {
          var _ := AddRaw(c.subType, c.value);
        }
        Associative(old(out.inner), e, b);
        KeptSnoc(build.children, i);
      }
      assert build.children[..|build.children|] == build.children;
      return build.verdict;
    }
  }

  /** The buffer after a whole run of builder calls. */
  function Run(inner: seq<byte>, ops: seq<BuildOp>): (r: seq<byte>)
    decreases |ops|
  {
    if ops == [] then inner else Run(Step(inner, ops[0]), ops[1..])
  }

  /** The attributes whose call succeeded, in call order. */
  function Accepted(inner: seq<byte>, ops: seq<BuildOp>): (r: seq<Attr>)
    decreases |ops|
  {
    if ops == [] then []
    else
      var rest := Accepted(Step(inner, ops[0]), ops[1..]);
      match Appended(|inner|, ops[0])
      case Some(a) => [a] + rest
      case None => rest
  }

  /** Any run on any packet keeps the header and the size limits and appends the encoding of the
      accepted attributes. */
  lemma {:induction false} RunAppendsAccepted(inner: seq<byte>, ops: seq<BuildOp>)
    requires MIN_PACKET_LEN <= |inner| <= MAX_PACKET_LEN
    ensures Run(inner, ops) == inner + Encode(Accepted(inner, ops))
    ensures |Run(inner, ops)| <= MAX_PACKET_LEN
    decreases |ops|
  {
    hide Appended;
    if ops != [] {
      var rest := Accepted(Step(inner, ops[0]), ops[1..]);
      RunAppendsAccepted(Step(inner, ops[0]), ops[1..]);
      match Appended(|inner|, ops[0])
      case None =>
      case Some(a) =>
        EncodeCons(a, rest);
        Associative(inner, EncodeAttr(a), Encode(rest));
    }
  }

  lemma WalkAppended(region: seq<byte>, added: seq<Attr>)
    requires WellFormed(region)
    ensures Walk(region + Encode(added)) == Walked(Walk(region).attrs + added, [])
  {
    var before := Walk(region).attrs;
    WalkDecomposes(region);
    assert region == Encode(before) + [] == Encode(before);
    EncodeAppend(before, added);
    WalkEncode(before + added);
  }

  /** On a packet whose region is well formed, the walker afterwards yields what it yielded before
      followed by exactly the accepted attributes, with no error. */
  lemma RunWalksBack(inner: seq<byte>, ops: seq<BuildOp>)
    requires MIN_PACKET_LEN <= |inner| <= MAX_PACKET_LEN
    requires WellFormed(inner[20..])
    ensures var after := Run(inner, ops);
            |after| <= MAX_PACKET_LEN && inner <= after
            && Walk(after[20..]) == Walked(Walk(inner[20..]).attrs + Accepted(inner, ops), [])
  {
    RunAppendsAccepted(inner, ops);
    hide *;
    var added := Accepted(inner, ops);
    assert Run(inner, ops)[20..] == inner[20..] + Encode(added);
    WalkAppended(inner[20..], added);
  }

  /** Octets written by a closure come back as one attribute of its type, and vendor data comes back
      under the handle it was wrapped with. */
  lemma WrittenComesBack(inner: seq<byte>, typ: byte, written: seq<byte>, vendor: Pen, vendorType: byte,
                         data: seq<byte>)
    requires MIN_PACKET_LEN <= |inner| <= MAX_PACKET_LEN && WellFormed(inner[20..])
    requires |written| <= 253 && |inner| + 2 + |written| <= 4096
    requires |data| <= 247 && |inner| + 8 + |data| <= 4096
    ensures var before := Walk(inner[20..]).attrs;
            var plain := Step(inner, BuildOp.AddAttributeWith(typ, written));
            var vsa := Step(inner, BuildOp.AddVsa(vendor, vendorType, data));
            |plain| >= 20 && Walk(plain[20..]) == Walked(before + [RawAttribute(typ, written)], [])
            && |vsa| >= 20 && |Walk(vsa[20..]).attrs| == |before| + 1 && WellFormed(vsa[20..])
            && Walk(vsa[20..]).attrs[..|before|] == before
            && GetVsa(Walk(vsa[20..]).attrs[|before|], vendor, vendorType) == Some(data)
  {
    hide Walk, Encode, EncodeAttr, GetVsa;
    var a: Attr := RawAttribute(typ, written);
    var v: Attr := RawAttribute(VENDOR_SPECIFIC, SaturatedVsa(vendor, vendorType, data));
    assert (inner + EncodeAttr(a))[20..] == inner[20..] + EncodeAttr(a);
    assert (inner + EncodeAttr(v))[20..] == inner[20..] + EncodeAttr(v);
    EncodeOne(a);
    EncodeOne(v);
    WalkAppended(inner[20..], [a]);
    WalkAppended(inner[20..], [v]);
    VsaNotSaturated(vendor, vendorType, data, vendor, vendorType);
  }

  /** Instance for a new packet: the walker returns the accepted attributes and nothing else. */
  lemma NewPacketWalksBack(code: byte, identifier: byte, ops: seq<BuildOp>)
    ensures var after := Run(Fresh(code, identifier), ops);
            MIN_PACKET_LEN <= |after| <= MAX_PACKET_LEN
            && after[..20] == Fresh(code, identifier)
            && Walk(after[20..]) == Walked(Accepted(Fresh(code, identifier), ops), [])
  {
    assert Fresh(code, identifier)[20..] == [];
    RunWalksBack(Fresh(code, identifier), ops);
    assert [] + Accepted(Fresh(code, identifier), ops) == Accepted(Fresh(code, identifier), ops);
  }

  /** A successful nested attribute walks back to exactly the children that were kept; for a
      closure that reports its children's errors these are all of them. */
  lemma NestedTlvWalksBack(size: nat, parent: byte, build: Script)
    requires OutcomeOf(size, BuildOp.AddTlv(parent, build)).None?
    ensures |Wanted(BuildOp.AddTlv(parent, build)).value| <= 253
    ensures TlvChildren(Wanted(BuildOp.AddTlv(parent, build))) == Walked(Kept(build.children), [])
  {
    WalkEncode(Kept(build.children));
  }

  /** The same for a nested vendor attribute: its vendor length is exact, never saturated, and only
      the handle it was written with opens it. */
  lemma NestedVsaTlvWalksBack(size: nat, vendor: Pen, vendorType: byte, build: Script, v: Pen, t: byte)
    requires OutcomeOf(size, BuildOp.AddVsaTlv(vendor, vendorType, build)).None?
    ensures var a := Wanted(BuildOp.AddVsaTlv(vendor, vendorType, build));
            |a.value| <= 253 && a.value[5] == |a.value| - 4 < 255
            && VsaTlvChildren(a, v, t)
               == if v == vendor && t == vendorType then Some(Walked(Kept(build.children), [])) else None
  {
    WalkEncode(Kept(build.children));
    VsaNotSaturated(vendor, vendorType, Encode(Kept(build.children)), v, t);
  }

  /** A vendor attribute that fits carries its exact vendor length and returns its data. */
  lemma VsaNotSaturated(vendor: Pen, vendorType: byte, data: seq<byte>, v: Pen, t: byte)
    requires |SaturatedVsa(vendor, vendorType, data)| <= 253
    ensures var a := RawAttribute(VENDOR_SPECIFIC, SaturatedVsa(vendor, vendorType, data));
            a.value[5] == |data| + 2 < 255
            && GetVsa(a, v, t) == if v == vendor && t == vendorType then Some(data) else None
  {
    assert SaturatedVsa(vendor, vendorType, data) == VsaValue(vendor, vendorType, data);
    GetVsaOfValue(vendor, vendorType, data, v, t);
  }

  lemma {:induction false} KeptIsAllWhenAllFit(children: seq<Child>)
    requires forall c :: c in children ==> |c.value| <= 253
    ensures |Kept(children)| == |children|
    ensures forall i :: 0 <= i < |children| ==>
              Kept(children)[i] == RawAttribute(children[i].subType, children[i].value)
  {
    if children != [] {
      KeptIsAllWhenAllFit(children[1..]);
    }
  }
}
