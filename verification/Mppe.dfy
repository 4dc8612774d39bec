/** Decryption of one MS-MPPE key value (section 2.4.2 of RFC 2548). */
module Mppe {
  import opened Bytes
  import opened Passwords

  datatype MppeError = TooShort(len: nat) | BadSalt | BadLength(len: nat) | InvalidKeyLength

  function MppeKeyDecrypt(c: Crypto, value: seq<byte>, secret: seq<byte>, requestAuth: Digest)
    : (r: Result<seq<byte>, MppeError>)
  {
    if |value| < 18 then Err(TooShort(|value|))
    else if value[0] < 128 then Err(BadSalt)
    else
      var ciphertext := value[2..];
      if |ciphertext| % 16 != 0 || |ciphertext| > 240 then Err(BadLength(|ciphertext|))
      else
        match TunnelPlain(c, ciphertext, secret, requestAuth, [value[0], value[1]])
        case Ok(key) => Ok(key)
        case Err(_) => Err(InvalidKeyLength)
  }

  /** Salt and ciphertext of any key of 0 to 239 octets decrypt to the key, provided the salt has
      its top bit set; without it they are refused. */
  lemma MppeRoundTrip(c: Crypto, key: seq<byte>, secret: seq<byte>, requestAuth: Digest, salt: Salt)
    requires |key| < TUNNEL_CIPHERTEXT_MAX
    ensures MppeKeyDecrypt(c, salt + TunnelCipher(c, key, secret, requestAuth, salt), secret, requestAuth)
            == if salt[0] >= 128 then Ok(key) else Err(BadSalt)
  {
    var ct := TunnelCipher(c, key, secret, requestAuth, salt);
    TunnelRoundTrip(c, key, secret, requestAuth, salt);
    assert (salt + ct)[2..] == ct;
    assert [salt[0], salt[1]] == salt;
  }

  /** The other refusals, in the order they are looked for, and acceptance: salt with its top bit set,
      one to fifteen blocks, and a plaintext of those blocks that delimits the key. */
  lemma MppeOutcomes(c: Crypto, value: seq<byte>, secret: seq<byte>, requestAuth: Digest, key: seq<byte>)
    ensures var r := MppeKeyDecrypt(c, value, secret, requestAuth);
            (|value| < 18 <==> r == Err(TooShort(|value|)))
            && (|value| >= 18 && value[0] < 128 <==> r == Err(BadSalt))
            && (|value| >= 18 ==>
                  (value[0] >= 128 && (|value| % 16 != 2 || |value| > 242) <==> r == Err(BadLength(|value| - 2))))
            && (r == Ok(key) <==>
                  18 <= |value| <= 242 && |value| % 16 == 2 && value[0] >= 128
                  && exists plain :: Delimits(plain, key)
                                     && Encipher(c, secret, requestAuth + value[..2], plain) == value[2..])
  {
    if |value| >= 18 {
      assert value[..2] == [value[0], value[1]];
      TunnelAcceptsIff(c, value[2..], secret, requestAuth, value[..2], key);
    }
  }

  /** The embedded key length is checked last: that error is given exactly to well-salted,
      well-sized values whose first deciphered octet points past the plaintext. */
  lemma InvalidKeyLengthIff(c: Crypto, value: seq<byte>, secret: seq<byte>, requestAuth: Digest)
    ensures MppeKeyDecrypt(c, value, secret, requestAuth) == Err(InvalidKeyLength) <==>
            |value| >= 18 && value[0] >= 128 && |value| % 16 == 2 && |value| <= 242
            && Decipher(c, secret, requestAuth + value[..2], value[2..])[0] + 1 > |value| - 2
  {
    if |value| >= 18 {
      assert value[..2] == [value[0], value[1]];
    }
  }
}
