/** The attribute walker (sections 5 and 5.26 of RFC 2865) and the encoding it inverts. */
module Attributes {
  import opened Bytes

  const MIN_ATTRIBUTE_LEN := 2
  const MAX_ATTRIBUTE_VALUE_LEN := 253
  const VENDOR_SPECIFIC: byte := 26

  /** A vendor's private enterprise number, as its four big-endian octets. */
  type Pen = s: seq<byte> | |s| == 4 witness [0, 0, 0, 0]

  datatype RawAttribute = RawAttribute(typ: byte, value: seq<byte>)

  /** An attribute whose value one Length octet can describe. */
  type Attr = a: RawAttribute | |a.value| <= MAX_ATTRIBUTE_VALUE_LEN witness RawAttribute(0, [])

  datatype AttributeError =
    | TruncatedHeader(remaining: nat)
    | LengthUnderflow(length: byte)
    | LengthExceedsRemaining(length: byte, remaining: nat)

  function EncodeAttr(a: Attr): (r: seq<byte>)
    ensures |r| == |a.value| + 2
    ensures r[0] == a.typ && r[1] == |r| && r[2..] == a.value
  {
    [a.typ, |a.value| + 2] + a.value
  }

  function Encode(attrs: seq<Attr>): (r: seq<byte>)
    ensures |r| >= 2 * |attrs|
  {
    if attrs == [] then [] else EncodeAttr(attrs[0]) + Encode(attrs[1..])
  }

  /** The error raised when the walker stands at the start of `rest`, if any. */
  function ErrorAt(rest: seq<byte>): (r: Option<AttributeError>)
  {
    if rest == [] then None
    else if |rest| < MIN_ATTRIBUTE_LEN then Some(TruncatedHeader(|rest|))
    else if rest[1] < MIN_ATTRIBUTE_LEN then Some(LengthUnderflow(rest[1]))
    else if rest[1] > |rest| then Some(LengthExceedsRemaining(rest[1], |rest|))
    else None
  }

  predicate Stuck(rest: seq<byte>) {
    rest == [] || ErrorAt(rest).Some?
  }

  /** Everything a walk yields: the well-formed attributes in order and the bytes it could not
      read. The walk met an error exactly when `tail` is not empty. */
  datatype Walked = Walked(attrs: seq<Attr>, tail: seq<byte>)

  function Walk(region: seq<byte>): (r: Walked)
  {
    if Stuck(region) then Walked([], region)
    else
      var w := Walk(region[region[1]..]);
      Walked([RawAttribute(region[0], region[2..region[1]])] + w.attrs, w.tail)
  }

  predicate WellFormed(region: seq<byte>) {
    Walk(region).tail == []
  }

  lemma EncodeCons(a: Attr, rest: seq<Attr>)
    ensures Encode([a] + rest) == EncodeAttr(a) + Encode(rest)
  {
  }

  /** One well-formed slot in front of a region is the first attribute of its walk. */
  lemma WalkCons(a: Attr, rest: seq<byte>)
    ensures Walk(EncodeAttr(a) + rest) == Walked([a] + Walk(rest).attrs, Walk(rest).tail)
  {
  }

  /** Where the walker is not stuck, the region starts with one encoded slot. */
  lemma HeadSlot(region: seq<byte>)
    requires !Stuck(region)
    ensures var n := region[1];
            2 <= n <= |region|
            && region == EncodeAttr(RawAttribute(region[0], region[2..n])) + region[n..]
  {
  }

  /** The walk splits every region, malformed or not, into an encoding and a stuck tail. */
  lemma {:induction false} WalkDecomposes(region: seq<byte>)
    ensures region == Encode(Walk(region).attrs) + Walk(region).tail
    ensures Stuck(Walk(region).tail)
  {
    if Stuck(region) {
      assert Encode([]) + region == region;
    } else {
      var n := region[1];
      HeadSlot(region);
      var a: Attr := RawAttribute(region[0], region[2..n]);
      WalkDecomposes(region[n..]);
      var w := Walk(region[n..]);
      EncodeCons(a, w.attrs);
      Associative(EncodeAttr(a), Encode(w.attrs), w.tail);
      WalkCons(a, region[n..]);
    }
  }

  /** That split is the only one, so the walk returns exactly the attributes that were encoded. */
  lemma {:induction false} WalkUnique(attrs: seq<Attr>, tail: seq<byte>)
    requires Stuck(tail)
    ensures Walk(Encode(attrs) + tail) == Walked(attrs, tail)
  {
    if attrs == [] {
      assert Encode(attrs) + tail == tail;
    } else {
      WalkUnique(attrs[1..], tail);
      WalkCons(attrs[0], Encode(attrs[1..]) + tail);
      Associative(EncodeAttr(attrs[0]), Encode(attrs[1..]), tail);
      assert [attrs[0]] + attrs[1..] == attrs;
    }
  }

  /** Walking an encoding gives the attributes back and no error. */
  lemma WalkEncode(attrs: seq<Attr>)
    ensures Walk(Encode(attrs)) == Walked(attrs, [])
  {
  }

  lemma {:induction false} EncodeAppend(a: seq<Attr>, b: seq<Attr>)
    ensures Encode(a + b) == Encode(a) + Encode(b)
  {
    if a == [] {
      assert a + b == b;
    } else {
      assert (a + b)[0] == a[0] && (a + b)[1..] == a[1..] + b;
      EncodeAppend(a[1..], b);
      Associative(EncodeAttr(a[0]), Encode(a[1..]), Encode(b));
    }
  }

  lemma EncodeOne(a: Attr)
    ensures Encode([a]) == EncodeAttr(a)
  {
  }

  /** A region is well formed exactly when it is the encoding of its walk. */
  lemma WellFormedIffEncoded(region: seq<byte>)
    ensures WellFormed(region) <==> region == Encode(Walk(region).attrs)
  {
  }

  /** The zero-copy iterator over an attribute region. */
  class AttributesIter {
    var rest: seq<byte>
    var halted: bool

    constructor (attrs: seq<byte>)
      ensures rest == attrs && !halted
    {
      rest, halted := attrs, false;
    }

    /** What the iterator will still yield. */
    ghost function Remaining(): (r: Walked)
      reads this
    {
      if halted then Walked([], []) else Walk(rest)
    }

    /** One step yields the head of the walk; after an error, or at the end, it yields nothing
        any more. */
    method Next() returns (item: Option<Result<Attr, AttributeError>>)
      modifies this
      ensures match item
              case None =>
                rest == old(rest) && halted == old(halted) && Remaining() == Walked([], [])
              case Some(Ok(a)) =>
                !old(halted) && !halted && old(rest) == EncodeAttr(a) + rest
                && old(Remaining()) == Walked([a] + Remaining().attrs, Remaining().tail)
              case Some(Err(e)) =>
                halted && old(Remaining().attrs) == [] && old(Remaining().tail) != []
                && ErrorAt(old(Remaining().tail)) == Some(e)
    {
      if halted || rest == [] {
        return None;
      }
      if |rest| < MIN_ATTRIBUTE_LEN {
        halted := true;
        return Some(Err(TruncatedHeader(|rest|)));
      }
      var length := rest[1];
      if length < MIN_ATTRIBUTE_LEN {
        halted := true;
        return Some(Err(LengthUnderflow(length)));
      }
      if length > |rest| {
        halted := true;
        return Some(Err(LengthExceedsRemaining(length, |rest|)));
      }
      var a: Attr := RawAttribute(rest[0], rest[2..length]);
      assert rest == EncodeAttr(a) + rest[length..];
      rest := rest[length..];
      return Some(Ok(a));
    }
  }

  /** Why the walker is stuck on octets that are there: one octet left, a Length that does not cover
      its own header, or a Length past the end. */
  lemma StuckBecause(typ: byte, length: byte, rest: seq<byte>)
    ensures ErrorAt([typ]) == Some(TruncatedHeader(1))
    ensures ErrorAt([typ, length] + rest)
            == if length < 2 then Some(LengthUnderflow(length))
               else if length > 2 + |rest| then Some(LengthExceedsRemaining(length, 2 + |rest|))
               else None
    ensures Stuck([typ]) && (Stuck([typ, length] + rest) <==> length < 2 || length > 2 + |rest|)
  {
  }

  predicate NoneOfType(attrs: seq<Attr>, typ: byte) {
    forall a :: a in attrs ==> a.typ != typ
  }

  /** First attribute of the given type in a list. */
  function FirstOfType(attrs: seq<Attr>, typ: byte): (r: Option<Attr>)
  {
    if attrs == [] then None
    else if attrs[0].typ == typ then Some(attrs[0])
    else FirstOfType(attrs[1..], typ)
  }

  /** The lookup the walker performs: the error surfaces only when no match precedes it. */
  function FirstRaw(region: seq<byte>, typ: byte): (r: Result<Option<Attr>, AttributeError>)
  {
    match FirstOfType(Walk(region).attrs, typ)
    case Some(a) => Ok(Some(a))
    case None =>
      if Walk(region).tail == [] then Ok(None)
      else
        WalkDecomposes(region);
        Err(ErrorAt(Walk(region).tail).value)
  }

  /** Encoded attributes in front of any region, malformed or not, come first in its walk. */
  lemma {:induction false} WalkAfter(attrs: seq<Attr>, rest: seq<byte>)
    ensures Walk(Encode(attrs) + rest) == Walked(attrs + Walk(rest).attrs, Walk(rest).tail)
  {
    if attrs == [] {
      assert Encode(attrs) + rest == rest;
    } else {
      var region := Encode(attrs[1..]) + rest;
      WalkAfter(attrs[1..], rest);
      Associative(EncodeAttr(attrs[0]), Encode(attrs[1..]), rest);
      WalkCons(attrs[0], region);
      assert attrs == [attrs[0]] + attrs[1..];
      Associative([attrs[0]], attrs[1..], Walk(rest).attrs);
    }
  }

  lemma {:induction false} FirstOfTypeAt(before: seq<Attr>, a: Attr, after: seq<Attr>)
    requires NoneOfType(before, a.typ)
    ensures FirstOfType(before + [a] + after, a.typ) == Some(a)
  {
    if before != [] {
      var all := before + [a] + after;
      assert all[0] == before[0] && all[1..] == before[1..] + [a] + after;
      FirstOfTypeAt(before[1..], a, after);
    }
  }

  lemma {:induction false} FirstOfTypeAbsent(attrs: seq<Attr>, typ: byte)
    requires NoneOfType(attrs, typ)
    ensures FirstOfType(attrs, typ) == None
  {
    if attrs != [] {
      FirstOfTypeAbsent(attrs[1..], typ);
    }
  }

  /** The lookup finds the first attribute of its type whatever follows it; without one it reports
      what stopped the walk, or that nothing did. */
  lemma FirstRawMeaning(before: seq<Attr>, a: Attr, rest: seq<byte>, tail: seq<byte>)
    requires NoneOfType(before, a.typ) && Stuck(tail)
    ensures FirstRaw(Encode(before + [a]) + rest, a.typ) == Ok(Some(a))
    ensures FirstRaw(Encode(before) + tail, a.typ)
            == if tail == [] then Ok(None) else Err(ErrorAt(tail).value)
  {
    WalkAfter(before + [a], rest);
    FirstOfTypeAt(before, a, Walk(rest).attrs);
    WalkUnique(before, tail);
    FirstOfTypeAbsent(before, a.typ);
  }

  method FindRaw(region: seq<byte>, typ: byte) returns (r: Result<Option<Attr>, AttributeError>)
    ensures r == FirstRaw(region, typ)
  {
    var it := new AttributesIter(region);
    while true
      invariant fresh(it) && !it.halted
      invariant FirstOfType(Walk(region).attrs, typ) == FirstOfType(it.Remaining().attrs, typ)
      invariant Walk(region).tail == it.Remaining().tail
      decreases |it.rest|
    {
      var slot := it.Next();
      match slot {
        case None => return Ok(None);
        case Some(Err(e)) => return Err(e);
        case Some(Ok(raw)) =>
          if raw.typ == typ {
            return Ok(Some(raw));
          }
      }
    }
  }

  /** The data of a Vendor-Specific attribute that carries the given vendor and vendor type. */
  function GetVsa(a: Attr, vendor: Pen, vendorType: byte): (r: Option<seq<byte>>)
  {
    if a.typ != VENDOR_SPECIFIC || |a.value| < 4 || a.value[..4] != vendor then None
    else if |a.value| < 6 || a.value[4] != vendorType then None
    else if a.value[5] < 2 || |a.value| - 6 < a.value[5] - 2 then None
    else Some(a.value[6..4 + a.value[5]])
  }

  /** The vendor envelope around `data`. */
  function VsaValue(vendor: Pen, vendorType: byte, data: seq<byte>): (r: seq<byte>)
    requires |data| <= 253
    ensures |r| == 6 + |data|
  {
    vendor + [vendorType, |data| + 2] + data
  }

  /** Unwrapping inverts wrapping for the vendor that wrapped, and no other handle matches. */
  lemma GetVsaOfValue(vendor: Pen, vendorType: byte, data: seq<byte>, v: Pen, t: byte)
    requires |data| <= 247
    ensures GetVsa(RawAttribute(VENDOR_SPECIFIC, VsaValue(vendor, vendorType, data)), v, t)
            == if v == vendor && t == vendorType then Some(data) else None
  {
    var value := VsaValue(vendor, vendorType, data);
    var a: Attr := RawAttribute(VENDOR_SPECIFIC, value);
    assert value[..4] == vendor;
    assert value[4] == vendorType && value[5] == |data| + 2;
    assert value[6..4 + value[5]] == data;
  }

  /** Data is found exactly in a type-26 attribute that holds vendor, vendor type, its length and then
      itself; octets behind the vendor length are ignored. */
  lemma GetVsaIff(a: Attr, vendor: Pen, vendorType: byte, data: seq<byte>)
    ensures GetVsa(a, vendor, vendorType) == Some(data) <==>
            a.typ == 26 && |data| <= 247 && vendor + [vendorType, |data| + 2] + data <= a.value
  {
    if GetVsa(a, vendor, vendorType) == Some(data) {
      assert a.value[..6 + |data|] == vendor + [vendorType, |data| + 2] + data;
    }
    if a.typ == 26 && |data| <= 247 && vendor + [vendorType, |data| + 2] + data <= a.value {
      assert a.value[..4] == vendor && a.value[6..6 + |data|] == data;
    }
  }

  /** Children of a nested attribute: the region is walked with the same iterator. */
  function TlvChildren(a: Attr): (r: Walked) {
    Walk(a.value)
  }

  function VsaTlvChildren(a: Attr, vendor: Pen, vendorType: byte): (r: Option<Walked>) {
    match GetVsa(a, vendor, vendorType)
    case None => None
    case Some(data) => Some(Walk(data))
  }

  function FirstVsaIn(attrs: seq<Attr>, vendor: Pen, vendorType: byte): (r: Option<seq<byte>>)
  {
    if attrs == [] then None
    else if GetVsa(attrs[0], vendor, vendorType).Some? then GetVsa(attrs[0], vendor, vendorType)
    else FirstVsaIn(attrs[1..], vendor, vendorType)
  }

  lemma {:induction false} FirstVsaInAppend(a: seq<Attr>, b: seq<Attr>, vendor: Pen, vendorType: byte)
    ensures FirstVsaIn(a + b, vendor, vendorType)
            == if FirstVsaIn(a, vendor, vendorType).Some? then FirstVsaIn(a, vendor, vendorType)
               else FirstVsaIn(b, vendor, vendorType)
  {
    if a == [] {
      assert a + b == b;
    } else {
      assert (a + b)[0] == a[0] && (a + b)[1..] == a[1..] + b;
      FirstVsaInAppend(a[1..], b, vendor, vendorType);
    }
  }

  /** First matching vendor attribute; a malformed slot hides everything after it. */
  function FirstVsa(region: seq<byte>, vendor: Pen, vendorType: byte): (r: Option<seq<byte>>) {
    FirstVsaIn(Walk(region).attrs, vendor, vendorType)
  }

  method FindVsa(region: seq<byte>, vendor: Pen, vendorType: byte) returns (r: Option<seq<byte>>)
    ensures r == FirstVsa(region, vendor, vendorType)
  {
    var it := new AttributesIter(region);
    while true
      invariant fresh(it) && !it.halted
      invariant FirstVsa(region, vendor, vendorType)
                == FirstVsaIn(it.Remaining().attrs, vendor, vendorType)
      decreases |it.rest|
    {
      var slot := it.Next();
      match slot {
        case None => return None;
        case Some(Err(_)) => return None;
        case Some(Ok(raw)) =>
          var v := GetVsa(raw, vendor, vendorType);
          if v.Some? {
            return v;
          }
      }
    }
  }
}
