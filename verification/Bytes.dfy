/** Octets, big-endian integers, exclusive-or and the two hash primitives that the
    RADIUS codec is built from. */
module Bytes {

  datatype Option<+T> = None | Some(value: T)

  datatype Result<+T, +E> = Ok(value: T) | Err(error: E)

  type byte = b: int | 0 <= b < 256

  /** A 16-octet value: an MD5 digest, an HMAC-MD5 tag or an Authenticator field. */
  type Digest = d: seq<byte> | |d| == 16 witness ZERO_DIGEST

  const ZERO_DIGEST: seq<byte> := [0, 0, 0, 0, 0, 0, 0, 0, 0, 0, 0, 0, 0, 0, 0, 0]

  /** The hash primitives. Every theorem is for all values of this type, so nothing about
      MD5 or HMAC-MD5 is used except that a digest has 16 octets. */
  datatype Crypto = Crypto(md5: seq<byte> -> Digest, hmac: (seq<byte>, seq<byte>) -> Digest)

  function Zeros(n: nat): (r: seq<byte>)
    ensures |r| == n
    ensures forall i :: 0 <= i < n ==> r[i] == 0
  {
    seq(n, i => 0)
  }

  function U16(n: nat): (r: seq<byte>)
    requires n < 0x1_0000
    ensures |r| == 2 && FromU16(r[0], r[1]) == n && r[0] as int * 256 + r[1] as int == n
  {
    [n / 256, n % 256]
  }

  function FromU16(hi: byte, lo: byte): (r: nat)
    ensures r < 0x1_0000
  {
    hi * 256 + lo
  }

  lemma U16OfFromU16(hi: byte, lo: byte)
    ensures U16(FromU16(hi, lo)) == [hi, lo]
  {
  }

  lemma SubsetSize<T>(a: set<T>, b: set<T>)
    requires a <= b
    ensures |a| <= |b|
  {
    assert b == a + (b - a);
  }

  lemma Associative<T>(a: seq<T>, b: seq<T>, c: seq<T>)
    ensures (a + b) + c == a + (b + c)
  {
  }

  /** Exclusive-or of the low `bits` bits of `a` and `b`. */
  function XorBits(bits: nat, a: nat, b: nat): (r: nat)
  {
    if bits == 0 then 0
    else (if a % 2 == b % 2 then 0 else 1) + 2 * XorBits(bits - 1, a / 2, b / 2)
  }

  function Pow2(bits: nat): (r: nat)
    ensures r > 0
  {
    if bits == 0 then 1 else 2 * Pow2(bits - 1)
  }

  lemma {:induction false} XorBitsBound(bits: nat, a: nat, b: nat)
    ensures XorBits(bits, a, b) < Pow2(bits)
  {
    if bits > 0 {
      XorBitsBound(bits - 1, a / 2, b / 2);
    }
  }

  lemma {:induction false} XorBitsInvolution(bits: nat, a: nat, b: nat)
    requires a < Pow2(bits)
    ensures XorBits(bits, XorBits(bits, a, b), b) == a
  {
    if bits > 0 {
      XorBitsInvolution(bits - 1, a / 2, b / 2);
      var x := XorBits(bits, a, b);
      assert x / 2 == XorBits(bits - 1, a / 2, b / 2);
    }
  }

  function Xor(a: byte, b: byte): (r: byte)
  {
    XorBitsBound(8, a, b);
    assert Pow2(8) == 256 by { assert Pow2(4) == 16; }
    XorBits(8, a, b)
  }

  /** XOR-ing twice with the same octet restores the first operand. */
  lemma XorInvolution(a: byte, b: byte)
    ensures Xor(Xor(a, b), b) == a
  {
    assert Pow2(8) == 256 by { assert Pow2(4) == 16; }
    XorBitsInvolution(8, a, b);
  }

  /** Bit `i` of `n`. */
  function Bit(n: nat, i: nat): (r: nat) {
    if i == 0 then n % 2 else Bit(n / 2, i - 1)
  }

  lemma {:induction false} XorBitsBitwise(bits: nat, a: nat, b: nat, i: nat)
    requires i < bits
    ensures Bit(XorBits(bits, a, b), i) == if Bit(a, i) == Bit(b, i) then 0 else 1
  {
    var x := XorBits(bits, a, b);
    assert x / 2 == XorBits(bits - 1, a / 2, b / 2);
    if i > 0 {
      XorBitsBitwise(bits - 1, a / 2, b / 2, i - 1);
    }
  }

  /** A bit of the result is set exactly when the operands differ there. */
  lemma XorBitwise(a: byte, b: byte, i: nat)
    requires i < 8
    ensures Bit(Xor(a, b), i) == if Bit(a, i) == Bit(b, i) then 0 else 1
  {
    XorBitsBitwise(8, a, b, i);
  }

  function XorBlock(a: seq<byte>, b: seq<byte>): (r: seq<byte>)
    requires |a| == |b|
    ensures |r| == |a|
    ensures forall i :: 0 <= i < |a| ==> r[i] == Xor(a[i], b[i])
  {
    seq(|a|, i requires 0 <= i < |a| => Xor(a[i], b[i]))
  }

  lemma XorBlockInvolution(a: seq<byte>, b: seq<byte>)
    requires |a| == |b|
    ensures XorBlock(XorBlock(a, b), b) == a
  {
    forall i | 0 <= i < |a|
      ensures XorBlock(XorBlock(a, b), b)[i] == a[i]
    {
      XorInvolution(a[i], b[i]);
    }
  }
}
