/** EAP-Message fragmentation (section 3.1 of RFC 3579) and the EAP packet header (section 4 of
    RFC 3748). */
module Eap {
  import opened Bytes
  import opened Attributes

  const TYPE: byte := 79
  const CHUNK := 253

  /** Consecutive EAP-Message attributes of at most 253 octets. */
  function Fragmented(packet: seq<byte>): (r: seq<Attr>)
  {
    if packet == [] then []
    else if |packet| <= CHUNK then [RawAttribute(TYPE, packet)]
    else [RawAttribute(TYPE, packet[..CHUNK])] + Fragmented(packet[CHUNK..])
  }

  lemma FragmentedHead(packet: seq<byte>)
    requires packet != []
    ensures var chunk := if |packet| <= CHUNK then packet else packet[..CHUNK];
            Fragmented(packet) == [RawAttribute(TYPE, chunk)] + Fragmented(packet[|chunk|..])
            && |Encode(Fragmented(packet))| == 2 + |chunk| + |Encode(Fragmented(packet[|chunk|..]))|
  {
  }

  /** The concatenated values of all EAP-Message attributes. */
  function Payload(attrs: seq<Attr>): (r: seq<byte>)
  {
    if attrs == [] then []
    else (if attrs[0].typ == TYPE then attrs[0].value else []) + Payload(attrs[1..])
  }

  lemma PayloadCons(a: Attr, rest: seq<Attr>)
    ensures Payload([a] + rest) == (if a.typ == TYPE then a.value else []) + Payload(rest)
  {
  }

  lemma {:induction false} PayloadAppend(a: seq<Attr>, b: seq<Attr>)
    ensures Payload(a + b) == Payload(a) + Payload(b)
  {
    if a == [] {
      assert a + b == b;
    } else {
      PayloadAppend(a[1..], b);
      assert (a + b)[0] == a[0] && (a + b)[1..] == a[1..] + b;
      Associative(if a[0].typ == TYPE then a[0].value else [], Payload(a[1..]), Payload(b));
    }
  }

  /** Reassembly inverts fragmentation. */
  lemma {:induction false} PayloadOfFragmented(packet: seq<byte>)
    ensures Payload(Fragmented(packet)) == packet
    ensures forall a :: a in Fragmented(packet) ==> a.typ == TYPE
    decreases |packet|
  {
    if |packet| > CHUNK {
      PayloadOfFragmented(packet[CHUNK..]);
      PayloadCons(RawAttribute(TYPE, packet[..CHUNK]), Fragmented(packet[CHUNK..]));
      assert packet == packet[..CHUNK] + packet[CHUNK..];
    } else if packet != [] {
      assert [RawAttribute(TYPE, packet)] == [RawAttribute(TYPE, packet)] + [];
      PayloadCons(RawAttribute(TYPE, packet), []);
    }
  }

  /** Fragments are full except the last, which is not empty. */
  lemma {:induction false} FragmentsAreFull(packet: seq<byte>)
    ensures var f := Fragmented(packet);
            (f == [] <==> packet == [])
            && (forall i :: 0 <= i < |f| - 1 ==> |f[i].value| == 253)
            && (f != [] ==> 1 <= |f[|f| - 1].value| <= 253)
            && (forall i :: 0 <= i < |f| ==> f[i].typ == 79)
    decreases |packet|
  {
    if |packet| > CHUNK {
      FragmentsAreFull(packet[CHUNK..]);
    }
  }

  lemma {:induction false} PayloadOfOthers(attrs: seq<Attr>)
    requires NoneOfType(attrs, TYPE)
    ensures Payload(attrs) == []
  {
    if attrs != [] {
      PayloadOfOthers(attrs[1..]);
    }
  }

  /** Reassembly finds the fragments among any other attributes. */
  lemma PayloadAmongOthers(before: seq<Attr>, packet: seq<byte>, after: seq<Attr>)
    requires NoneOfType(before, TYPE) && NoneOfType(after, TYPE)
    ensures Payload(before + Fragmented(packet) + after) == packet
  {
    PayloadAppend(before + Fragmented(packet), after);
    PayloadAppend(before, Fragmented(packet));
    PayloadOfFragmented(packet);
    PayloadOfOthers(before);
    PayloadOfOthers(after);
  }

  /** Appends every fragment up to the first malformed slot. */
  method ReassembleInto(region: seq<byte>, out: seq<byte>) returns (r: seq<byte>, added: nat)
    ensures r == out + Payload(Walk(region).attrs) && added == |Payload(Walk(region).attrs)|
  {
    r := out;
    var it := new AttributesIter(region);
    while true
      invariant fresh(it) && !it.halted
      invariant out + Payload(Walk(region).attrs) == r + Payload(it.Remaining().attrs)
      decreases |it.rest|
    {
      var slot := it.Next();
      match slot {
        case None => break;
        case Some(Err(_)) => break;
        case Some(Ok(raw)) =>
          PayloadCons(raw, it.Remaining().attrs);
          if raw.typ == TYPE {
            assert (r + raw.value) + Payload(it.Remaining().attrs)
                == r + (raw.value + Payload(it.Remaining().attrs));
            r := r + raw.value;
          }
      }
    }
    added := |r| - |out|;
  }

  datatype PacketError = ShortHeader | LengthTooSmall | LengthExceedsBuffer | PayloadTooLong(len: nat)

  datatype Packet = Packet(code: byte, identifier: byte, payload: seq<byte>) {
    function Typ(): (r: Option<byte>) {
      if payload == [] then None else Some(payload[0])
    }

    function TypeData(): (r: seq<byte>) {
      if payload == [] then [] else payload[1..]
    }
  }

  function Parse(buf: seq<byte>): (r: Result<Packet, PacketError>)
  {
    if |buf| < 4 then Err(ShortHeader)
    else
      var length := FromU16(buf[2], buf[3]);
      if length < 4 then Err(LengthTooSmall)
      else if length > |buf| then Err(LengthExceedsBuffer)
      else Ok(Packet(buf[0], buf[1], buf[4..length]))
  }

  /** Appends an EAP packet with a Type octet; a packet longer than 65535 octets is refused. */
  method WriteWithType(out: seq<byte>, code: byte, id: byte, typ: byte, typeData: seq<byte>)
    returns (r: seq<byte>, written: Result<nat, PacketError>)
    ensures 5 + |typeData| > 65535 ==> r == out && written == Err(PayloadTooLong(5 + |typeData|))
    ensures 5 + |typeData| <= 65535 ==>
              written == Ok(5 + |typeData|) && |r| == |out| + 5 + |typeData| && r[..|out|] == out
              && Parse(r[|out|..]) == Ok(Packet(code, id, [typ] + typeData))
              && Parse(r[|out|..]).value.Typ() == Some(typ) && Parse(r[|out|..]).value.TypeData() == typeData
  {
    var total := 4 + 1 + |typeData|;
    r := out;
    if total > 65535 {
      return r, Err(PayloadTooLong(total));
    }
    var length := U16(total);
    r := r + [code];
    r := r + [id];
    r := r + length;
    r := r + [typ];
    r := r + typeData;
    ghost var p := r[|out|..];
    assert p == [code, id] + length + [typ] + typeData;
    assert p[2] == length[0] && p[3] == length[1];
    assert p[4..total] == [typ] + typeData;
    return r, Ok(total);
  }

  function Terminal(code: byte, id: byte): (r: seq<byte>)
    ensures Parse(r) == Ok(Packet(code, id, [])) && Parse(r).value.Typ() == None
  {
    var p := [code, id] + U16(4);
    assert p[2] == U16(4)[0] && p[3] == U16(4)[1] && p[4..4] == [];
    p
  }

  /** The declared Length decides, and bounds the payload. */
  lemma ParseDeclared(code: byte, id: byte, declared: nat, rest: seq<byte>, short: seq<byte>)
    requires declared < 0x1_0000 && |short| < 4
    ensures Parse(short) == Err(ShortHeader)
    ensures Parse([code, id] + U16(declared) + rest)
            == if declared < 4 then Err(LengthTooSmall)
               else if declared > 4 + |rest| then Err(LengthExceedsBuffer)
               else Ok(Packet(code, id, rest[..declared - 4]))
  {
    var buf := [code, id] + U16(declared) + rest;
    assert buf[2] == U16(declared)[0] && buf[3] == U16(declared)[1];
    if 4 <= declared <= |buf| {
      assert buf[4..declared] == rest[..declared - 4];
    }
  }

  /** Octets after the declared length never change what is parsed. */
  lemma ParseIgnoresTrailing(buf: seq<byte>, trailing: seq<byte>)
    requires Parse(buf).Ok?
    ensures Parse(buf + trailing) == Parse(buf)
  {
    var length := FromU16(buf[2], buf[3]);
    assert (buf + trailing)[4..length] == buf[4..length];
  }
}
