/** The fixed 20-octet packet header (section 3 of RFC 2865). */
module Header {
  import opened Bytes

  const MIN_PACKET_LEN := 20
  const MAX_PACKET_LEN := 4096

  const ACCESS_REQUEST: byte := 1
  const ACCESS_ACCEPT: byte := 2
  const ACCESS_REJECT: byte := 3
  const ACCOUNTING_REQUEST: byte := 4
  const ACCOUNTING_RESPONSE: byte := 5
  const ACCESS_CHALLENGE: byte := 11
  const STATUS_SERVER: byte := 12
  const DISCONNECT_REQUEST: byte := 40
  const DISCONNECT_ACK: byte := 41
  const DISCONNECT_NAK: byte := 42
  const COA_REQUEST: byte := 43
  const COA_ACK: byte := 44
  const COA_NAK: byte := 45

  datatype Header = Header(code: byte, identifier: byte, length: nat, authenticator: Digest)

  datatype HeaderError =
    | TooShort(got: nat)
    | LengthUnderflow(length: nat)
    | LengthOverflow(length: nat)
    | LengthExceedsBuffer(length: nat, got: nat)

  /** A parsed header together with the attribute region it delimits. */
  datatype Parsed = Parsed(header: Header, attrs: seq<byte>)

  function Parse(bytes: seq<byte>): (r: Result<Parsed, HeaderError>)
  {
    if |bytes| < MIN_PACKET_LEN then Err(TooShort(|bytes|))
    else
      var length := FromU16(bytes[2], bytes[3]);
      if length < MIN_PACKET_LEN then Err(LengthUnderflow(length))
      else if length > MAX_PACKET_LEN then Err(LengthOverflow(length))
      else if length > |bytes| then Err(LengthExceedsBuffer(length, |bytes|))
      else Ok(Parsed(Header(bytes[0], bytes[1], length, bytes[4..20]), bytes[20..length]))
  }

  /** Code, Identifier and Length of a packet of `length` octets. */
  function Prefix(code: byte, identifier: byte, length: nat): (r: seq<byte>)
    requires length <= MAX_PACKET_LEN
    ensures |r| == 4
  {
    [code, identifier] + U16(length)
  }

  /** The wire form of a complete packet. */
  function Frame(code: byte, identifier: byte, auth: Digest, region: seq<byte>): (r: seq<byte>)
    requires MIN_PACKET_LEN + |region| <= MAX_PACKET_LEN
    ensures |r| == MIN_PACKET_LEN + |region|
    ensures r[..4] == Prefix(code, identifier, |r|) && r[4..20] == auth && r[20..] == region
  {
    Prefix(code, identifier, MIN_PACKET_LEN + |region|) + auth + region
  }

  /** Parsing inverts framing, whatever padding follows the packet in the datagram. */
  lemma ParseFrame(code: byte, identifier: byte, auth: Digest, region: seq<byte>, padding: seq<byte>)
    requires MIN_PACKET_LEN + |region| <= MAX_PACKET_LEN
    ensures var packet := Frame(code, identifier, auth, region);
            Parse(packet + padding)
            == Ok(Parsed(Header(code, identifier, MIN_PACKET_LEN + |region|, auth), region))
  {
    var packet := Frame(code, identifier, auth, region);
    var bytes := packet + padding;
    var prefix := Prefix(code, identifier, |packet|);
    assert bytes[..4] == prefix;
    assert bytes[2] == prefix[2] && bytes[3] == prefix[3];
    assert bytes[4..20] == packet[4..20];
    assert bytes[20..|packet|] == packet[20..];
  }

  /** The declared Length decides: it must cover the header, be at most 4096 and be present in the
      buffer. Buffers shorter than a header have no Length to look at. */
  lemma ParseDeclared(code: byte, identifier: byte, declared: nat, auth: Digest, rest: seq<byte>, short: seq<byte>)
    requires declared < 0x1_0000 && |short| < 20
    ensures Parse(short) == Err(TooShort(|short|))
    ensures Parse([code, identifier] + U16(declared) + auth + rest)
            == if declared < 20 then Err(LengthUnderflow(declared))
               else if declared > 4096 then Err(LengthOverflow(declared))
               else if declared > 20 + |rest| then Err(LengthExceedsBuffer(declared, 20 + |rest|))
               else Ok(Parsed(Header(code, identifier, declared, auth), rest[..declared - 20]))
  {
    var bytes := [code, identifier] + U16(declared) + auth + rest;
    assert bytes[2] == U16(declared)[0] && bytes[3] == U16(declared)[1];
    assert bytes[4..20] == auth;
    if 20 <= declared <= |bytes| {
      assert bytes[20..declared] == rest[..declared - 20];
    }
  }

  /** Parsing accepts exactly the buffers that begin with a framed packet, and the header and
      region it returns are that packet's. */
  lemma ParseIsFramePrefix(bytes: seq<byte>)
    ensures Parse(bytes).Ok? <==>
            exists code: byte, identifier: byte, auth: Digest, region: seq<byte> ::
              MIN_PACKET_LEN + |region| <= MAX_PACKET_LEN
              && Frame(code, identifier, auth, region) <= bytes
    ensures Parse(bytes).Ok? ==>
              var p := Parse(bytes).value;
              MIN_PACKET_LEN + |p.attrs| == p.header.length <= MAX_PACKET_LEN
              && Frame(p.header.code, p.header.identifier, p.header.authenticator, p.attrs)
                 == bytes[..p.header.length]
  {
    if Parse(bytes).Ok? {
      var p := Parse(bytes).value;
      U16OfFromU16(bytes[2], bytes[3]);
      var f := Frame(p.header.code, p.header.identifier, p.header.authenticator, p.attrs);
      assert bytes[..p.header.length] == bytes[..4] + bytes[4..20] + bytes[20..p.header.length];
      assert f == bytes[..p.header.length];
    }
    forall code: byte, identifier: byte, auth: Digest, region: seq<byte>
      | MIN_PACKET_LEN + |region| <= MAX_PACKET_LEN && Frame(code, identifier, auth, region) <= bytes
      ensures Parse(bytes).Ok?
    {
      var f := Frame(code, identifier, auth, region);
      ParseFrame(code, identifier, auth, region, bytes[|f|..]);
      assert f + bytes[|f|..] == bytes;
    }
  }
}
