/** Request and Response Authenticator (section 3 of RFC 2865, section 3 of RFC 2866). */
module Authenticator {
  import opened Bytes
  import opened Header

  /** MD5 over the packet with `substitute` in place of its Authenticator, then the secret. */
  function Md5WithSubstitute(c: Crypto, packet: seq<byte>, substitute: Digest, secret: seq<byte>): (r: Digest)
    requires |packet| >= MIN_PACKET_LEN
  {
    (c.md5)(packet[..4] + substitute + packet[MIN_PACKET_LEN..] + secret)
  }

  function ComputeResponse(c: Crypto, packet: seq<byte>, requestAuth: Digest, secret: seq<byte>): (r: Digest)
    requires |packet| >= MIN_PACKET_LEN
  {
    Md5WithSubstitute(c, packet, requestAuth, secret)
  }

  predicate VerifyResponse(c: Crypto, packet: seq<byte>, requestAuth: Digest, secret: seq<byte>)
  {
    |packet| >= MIN_PACKET_LEN && packet[4..MIN_PACKET_LEN] == ComputeResponse(c, packet, requestAuth, secret)
  }

  function ComputeZeroedRequest(c: Crypto, packet: seq<byte>, secret: seq<byte>): (r: Digest)
    requires |packet| >= MIN_PACKET_LEN
  {
    Md5WithSubstitute(c, packet, ZERO_DIGEST, secret)
  }

  predicate VerifyZeroedRequest(c: Crypto, packet: seq<byte>, secret: seq<byte>)
  {
    |packet| >= MIN_PACKET_LEN && packet[4..MIN_PACKET_LEN] == ComputeZeroedRequest(c, packet, secret)
  }

  /** The Authenticator that signs a frame under `substitute`. */
  function Signature(c: Crypto, code: byte, identifier: byte, region: seq<byte>, substitute: Digest, secret: seq<byte>)
    : (r: Digest)
    requires MIN_PACKET_LEN + |region| <= MAX_PACKET_LEN
  {
    (c.md5)(Prefix(code, identifier, MIN_PACKET_LEN + |region|) + substitute + region + secret)
  }

  /** A frame verifies exactly when its Authenticator field is its signature, so the field the hash
      overwrites never enters its own computation. */
  lemma VerifiesIffSigned(c: Crypto, code: byte, identifier: byte, auth: Digest, region: seq<byte>,
                          substitute: Digest, secret: seq<byte>)
    requires MIN_PACKET_LEN + |region| <= MAX_PACKET_LEN
    ensures Signature(c, code, identifier, region, substitute, secret)
            == (c.md5)([code, identifier] + U16(20 + |region|) + substitute + region + secret)
    ensures var packet := Frame(code, identifier, auth, region);
            Md5WithSubstitute(c, packet, substitute, secret)
            == Signature(c, code, identifier, region, substitute, secret)
            && (VerifyResponse(c, packet, substitute, secret)
                <==> auth == Signature(c, code, identifier, region, substitute, secret))
            && (VerifyZeroedRequest(c, packet, secret)
                <==> auth == Signature(c, code, identifier, region, ZERO_DIGEST, secret))
  {
  }

  /** Fewer octets than a header never verify. */
  lemma ShortNeverVerifies(c: Crypto, packet: seq<byte>, requestAuth: Digest, secret: seq<byte>)
    requires |packet| < 20
    ensures !VerifyResponse(c, packet, requestAuth, secret) && !VerifyZeroedRequest(c, packet, secret)
  {
  }
}
