/** Chained-hash password hiding: User-Password (section 5.2 of RFC 2865) and the salted form that
    Tunnel-Password (section 3.5 of RFC 2868) and the MPPE keys (section 2.4.2 of RFC 2548) share. */
module Passwords {
  import opened Bytes

  const USER_PASSWORD_MAX := 128
  const TUNNEL_CIPHERTEXT_MAX := 240

  type Salt = s: seq<byte> | |s| == 2 witness [128, 0]

  datatype Error = InvalidLength

  function ChainHash(c: Crypto, secret: seq<byte>, prev: seq<byte>): (r: Digest) {
    (c.md5)(secret + prev)
  }

  /** Each block is XOR-ed with the hash of the secret and the previous ciphertext block. */
  function Encipher(c: Crypto, secret: seq<byte>, prev: seq<byte>, plain: seq<byte>): (r: seq<byte>)
    requires |plain| % 16 == 0
    ensures |r| == |plain|
    decreases |plain|
  {
    if plain == [] then []
    else
      var block := XorBlock(plain[..16], ChainHash(c, secret, prev));
      block + Encipher(c, secret, block, plain[16..])
  }

  function Decipher(c: Crypto, secret: seq<byte>, prev: seq<byte>, cipher: seq<byte>): (r: seq<byte>)
    requires |cipher| % 16 == 0
    ensures |r| == |cipher|
    decreases |cipher|
  {
    if cipher == [] then []
    else
      XorBlock(cipher[..16], ChainHash(c, secret, prev)) + Decipher(c, secret, cipher[..16], cipher[16..])
  }

  lemma {:induction false} DecipherEncipher(c: Crypto, secret: seq<byte>, prev: seq<byte>, plain: seq<byte>)
    requires |plain| % 16 == 0
    ensures Decipher(c, secret, prev, Encipher(c, secret, prev, plain)) == plain
    decreases |plain|
  {
    if plain != [] {
      var key := ChainHash(c, secret, prev);
      var block := XorBlock(plain[..16], key);
      var cipher := Encipher(c, secret, prev, plain);
      assert cipher[..16] == block && cipher[16..] == Encipher(c, secret, block, plain[16..]);
      XorBlockInvolution(plain[..16], key);
      DecipherEncipher(c, secret, block, plain[16..]);
      assert plain[..16] + plain[16..] == plain;
    }
  }

  lemma {:induction false} EncipherDecipher(c: Crypto, secret: seq<byte>, prev: seq<byte>, cipher: seq<byte>)
    requires |cipher| % 16 == 0
    ensures Encipher(c, secret, prev, Decipher(c, secret, prev, cipher)) == cipher
    decreases |cipher|
  {
    if cipher != [] {
      var key := ChainHash(c, secret, prev);
      var plain := Decipher(c, secret, prev, cipher);
      assert plain[..16] == XorBlock(cipher[..16], key);
      assert plain[16..] == Decipher(c, secret, cipher[..16], cipher[16..]);
      XorBlockInvolution(cipher[..16], key);
      EncipherDecipher(c, secret, cipher[..16], cipher[16..]);
      assert cipher[..16] + cipher[16..] == cipher;
    }
  }

  /** Block by block and octets named: each is the plaintext block XOR-ed with the MD5 of the secret
      and the ciphertext block before it, or the seed. */
  lemma {:induction false} EncipherBlock(c: Crypto, secret: seq<byte>, seed: seq<byte>, plain: seq<byte>, base: nat)
    requires |plain| % 16 == 0 && base < |plain| && base % 16 == 0
    ensures var r := Encipher(c, secret, seed, plain);
            base + 16 <= |r| == |plain|
            && r[base..base + 16]
               == XorBlock(plain[base..base + 16], (c.md5)(secret + if base == 0 then seed else r[base - 16..base]))
    decreases base
  {
    var block := XorBlock(plain[..16], ChainHash(c, secret, seed));
    var r, rest := Encipher(c, secret, seed, plain), Encipher(c, secret, block, plain[16..]);
    assert r == block + rest;
    if base == 0 {
      assert r[..16] == block;
    } else {
      EncipherBlock(c, secret, block, plain[16..], base - 16);
      assert r[base..base + 16] == rest[base - 16..base];
      assert plain[base..base + 16] == plain[16..][base - 16..base];
      if base == 16 {
        assert r[0..16] == block;
      } else {
        assert r[base - 16..base] == rest[base - 32..base - 16];
      }
    }
  }

  /** For every hash, secret and seed the chain is a bijection on padded plaintexts. */
  lemma ChainIsBijection(c: Crypto, secret: seq<byte>, prev: seq<byte>, plain: seq<byte>, cipher: seq<byte>)
    requires |plain| % 16 == 0 && |cipher| % 16 == 0
    ensures Encipher(c, secret, prev, plain) == cipher <==> plain == Decipher(c, secret, prev, cipher)
  {
    DecipherEncipher(c, secret, prev, plain);
    EncipherDecipher(c, secret, prev, cipher);
  }

  /** Writes one block: 16 octets of `src` at `base`, XOR-ed with the key block. */
  method XorInto(out: array<byte>, base: nat, src: seq<byte>, b: Digest)
    requires base + 16 <= |src| == out.Length
    modifies out
    ensures out[..base] == old(out[..base])
    ensures out[base..base + 16] == XorBlock(src[base..base + 16], b)
  {
    hide Xor;
    for j := 0 to 16
      invariant out[..base] == old(out[..base])
      invariant forall k :: 0 <= k < j ==> out[base + k] == Xor(src[base + k], b[k])
    {
      out[base + j] := Xor(src[base + j], b[j]);
    }
  }

  /** One block of the chain, read off at `base`. */
  lemma EncipherStep(c: Crypto, secret: seq<byte>, prev: seq<byte>, plain: seq<byte>, base: nat)
    requires base < |plain| && base % 16 == 0 && |plain| % 16 == 0
    ensures base + 16 <= |plain|
    ensures var block := XorBlock(plain[base..base + 16], ChainHash(c, secret, prev));
            Encipher(c, secret, prev, plain[base..]) == block + Encipher(c, secret, block, plain[base + 16..])
  {
    BlockStep(plain, base);
  }

  lemma EncipherEnd(c: Crypto, secret: seq<byte>, prev: seq<byte>)
    ensures Encipher(c, secret, prev, []) == []
  {
  }

  /** The block loop of the encryptors, writing `out` in place. */
  method EncryptBlocks(c: Crypto, secret: seq<byte>, seed: seq<byte>, plaintext: seq<byte>) returns (r: seq<byte>)
    requires |plaintext| % 16 == 0
    ensures r == Encipher(c, secret, seed, plaintext)
  {
    hide Encipher, XorBlock;
    var out := new byte[|plaintext|](_ => 0);
    var prev := seed;
    var base := 0;
    while base < |plaintext|
      invariant 0 <= base <= |plaintext| && base % 16 == 0
      invariant Encipher(c, secret, seed, plaintext)
                == out[..base] + Encipher(c, secret, prev, plaintext[base..])
    {
      EncipherStep(c, secret, prev, plaintext, base);
      var b := ChainHash(c, secret, prev);
      ghost var done := out[..base];
      XorInto(out, base, plaintext, b);
      prev := out[base..base + 16];
      Associative(done, prev, Encipher(c, secret, prev, plaintext[base + 16..]));
      assert out[..base + 16] == done + prev;
      base := base + 16;
    }
    r := out[..];
    assert plaintext[base..] == [];
    EncipherEnd(c, secret, prev);
  }

  lemma BlockStep(s: seq<byte>, base: nat)
    requires base < |s| && base % 16 == 0 && |s| % 16 == 0
    ensures base + 16 <= |s| && s[base..][16..] == s[base + 16..] && s[base..][..16] == s[base..base + 16]
  {
  }

  lemma DecipherStep(c: Crypto, secret: seq<byte>, prev: seq<byte>, cipher: seq<byte>, base: nat)
    requires base < |cipher| && base % 16 == 0 && |cipher| % 16 == 0
    ensures base + 16 <= |cipher|
    ensures var block := cipher[base..base + 16];
            Decipher(c, secret, prev, cipher[base..])
            == XorBlock(block, ChainHash(c, secret, prev)) + Decipher(c, secret, block, cipher[base + 16..])
  {
    BlockStep(cipher, base);
  }

  lemma DecipherEnd(c: Crypto, secret: seq<byte>, prev: seq<byte>)
    ensures Decipher(c, secret, prev, []) == []
  {
  }

  /** The block loop of the decryptors. */
  method DecryptBlocks(c: Crypto, secret: seq<byte>, seed: seq<byte>, ciphertext: seq<byte>) returns (r: seq<byte>)
    requires |ciphertext| % 16 == 0
    ensures r == Decipher(c, secret, seed, ciphertext)
  {
    hide Decipher, XorBlock;
    var pt := new byte[|ciphertext|](_ => 0);
    var prev := seed;
    var base := 0;
    while base < |ciphertext|
      invariant 0 <= base <= |ciphertext| && base % 16 == 0
      invariant Decipher(c, secret, seed, ciphertext)
                == pt[..base] + Decipher(c, secret, prev, ciphertext[base..])
    {
      DecipherStep(c, secret, prev, ciphertext, base);
      var b := ChainHash(c, secret, prev);
      ghost var done := pt[..base];
      XorInto(pt, base, ciphertext, b);
      prev := ciphertext[base..base + 16];
      Associative(done, pt[base..base + 16], Decipher(c, secret, prev, ciphertext[base + 16..]));
      assert pt[..base + 16] == done + pt[base..base + 16];
      base := base + 16;
    }
    r := pt[..];
    assert ciphertext[base..] == [];
    DecipherEnd(c, secret, prev);
  }

  function PadTo16(s: seq<byte>): (r: seq<byte>)
    ensures |r| % 16 == 0 && |s| <= |r| < |s| + 16 && r[..|s|] == s
    ensures forall i :: |s| <= i < |r| ==> r[i] == 0
  {
    s + Zeros((|s| + 15) / 16 * 16 - |s|)
  }

  /** A User-Password is padded to at least one block. */
  function PadUser(password: seq<byte>): (r: seq<byte>)
    ensures |r| % 16 == 0 && |r| >= 16 && |r| >= |password| && r[..|password|] == password
    ensures |password| <= 128 ==> |r| <= 128
    ensures |r| < |password| + 16 || |r| == 16
    ensures forall i :: |password| <= i < |r| ==> r[i] == 0
  {
    if password == [] then Zeros(16) else PadTo16(password)
  }

  function TrimNuls(s: seq<byte>): (r: seq<byte>)
    ensures r <= s && (r == [] || r[|r| - 1] != 0)
    ensures forall i :: |r| <= i < |s| ==> s[i] == 0
  {
    if s == [] || s[|s| - 1] != 0 then s else TrimNuls(s[..|s| - 1])
  }

  /** `TrimNuls` is determined by its contract: the stretch that ends in a non-zero octet. */
  lemma TrimUnique(s: seq<byte>, t: seq<byte>)
    requires t <= s && (t == [] || t[|t| - 1] != 0)
    requires forall i :: |t| <= i < |s| ==> s[i] == 0
    ensures TrimNuls(s) == t
  {
  }

  lemma TrimPadUser(password: seq<byte>)
    ensures TrimNuls(PadUser(password)) == TrimNuls(password)
  {
  }

  function UserCipher(c: Crypto, password: seq<byte>, secret: seq<byte>, auth: Digest): (r: seq<byte>)
    ensures |password| <= USER_PASSWORD_MAX ==> UserLength(|r|)
    ensures |r| == |PadUser(password)|
  {
    Encipher(c, secret, auth, PadUser(password))
  }

  method UserPasswordEncrypt(c: Crypto, password: seq<byte>, secret: seq<byte>, auth: Digest) returns (r: seq<byte>)
    requires |password| <= USER_PASSWORD_MAX
    ensures r == UserCipher(c, password, secret, auth)
  {
    var blockCount := ((if |password| > 1 then |password| else 1) + 15) / 16;
    var paddedLen := blockCount * 16;
    var plaintext := password + Zeros(paddedLen - |password|);
    assert plaintext == PadUser(password);
    r := EncryptBlocks(c, secret, auth, plaintext);
  }

  predicate UserLength(n: nat) {
    n > 0 && n % 16 == 0 && n <= USER_PASSWORD_MAX
  }

  function UserPlain(c: Crypto, ciphertext: seq<byte>, secret: seq<byte>, auth: Digest): (r: Result<seq<byte>, Error>) {
    if !UserLength(|ciphertext|) then Err(InvalidLength)
    else Ok(TrimNuls(Decipher(c, secret, auth, ciphertext)))
  }

  method UserPasswordDecrypt(c: Crypto, ciphertext: seq<byte>, secret: seq<byte>, auth: Digest)
    returns (r: Result<seq<byte>, Error>)
    ensures r == UserPlain(c, ciphertext, secret, auth)
    ensures r.Ok? <==> 16 <= |ciphertext| <= 128 && |ciphertext| % 16 == 0
  {
    if ciphertext == [] || |ciphertext| % 16 != 0 || |ciphertext| > USER_PASSWORD_MAX {
      return Err(InvalidLength);
    }
    var plaintext := DecryptBlocks(c, secret, auth, ciphertext);
    var trimmed := |plaintext|;
    while trimmed > 0 && plaintext[trimmed - 1] == 0
      invariant 0 <= trimmed <= |plaintext|
      invariant forall i :: trimmed <= i < |plaintext| ==> plaintext[i] == 0
    {
      trimmed := trimmed - 1;
    }
    TrimUnique(plaintext, plaintext[..trimmed]);
    return Ok(plaintext[..trimmed]);
  }

  /** Decrypting an encryption gives the password without its trailing NULs; it gives the password
      itself exactly when that does not end in NUL. */
  lemma UserRoundTrip(c: Crypto, password: seq<byte>, secret: seq<byte>, auth: Digest)
    requires |password| <= USER_PASSWORD_MAX
    ensures var r := UserPlain(c, UserCipher(c, password, secret, auth), secret, auth);
            r == Ok(TrimNuls(password))
            && (r == Ok(password) <==> password == [] || password[|password| - 1] != 0)
  {
    DecipherEncipher(c, secret, auth, PadUser(password));
    TrimPadUser(password);
  }

  /** The ciphertext length is the least positive multiple of 16 that holds the password, and its
      plaintext is the password and zeros under the request's Authenticator. */
  lemma UserCipherMeaning(c: Crypto, password: seq<byte>, secret: seq<byte>, auth: Digest, m: nat)
    ensures var n := |UserCipher(c, password, secret, auth)|;
            n >= 16 && n % 16 == 0 && n >= |password|
            && (m >= 16 && m % 16 == 0 && m >= |password| ==> m >= n)
            && UserCipher(c, password, secret, auth)
               == Encipher(c, secret, auth, password + Zeros(n - |password|))
  {
    var p := PadUser(password);
    assert p == password + Zeros(|p| - |password|);
  }

  /** Plaintext of the salted form: a length octet, the key, zero padding. */
  function PadTunnel(password: seq<byte>): (r: seq<byte>)
    requires |password| < TUNNEL_CIPHERTEXT_MAX
    ensures |r| % 16 == 0 && 1 + |password| <= |r| < |password| + 17
    ensures r[0] == |password| && r[1..1 + |password|] == password
  {
    PadTo16([|password|] + password)
  }

  function TunnelCipher(c: Crypto, password: seq<byte>, secret: seq<byte>, auth: Digest, salt: Salt): (r: seq<byte>)
    requires |password| < TUNNEL_CIPHERTEXT_MAX
    ensures |r| % 16 == 0 && |password| + 1 <= |r| <= TUNNEL_CIPHERTEXT_MAX
  {
    Encipher(c, secret, auth + salt, PadTunnel(password))
  }

  method TunnelPasswordEncryptWithSalt(c: Crypto, password: seq<byte>, secret: seq<byte>, auth: Digest, salt: Salt)
    returns (r: seq<byte>)
    requires |password| < TUNNEL_CIPHERTEXT_MAX
    ensures r == TunnelCipher(c, password, secret, auth, salt)
  {
    var plaintextLen := (1 + |password| + 15) / 16 * 16;
    var plaintext := [|password|] + password + Zeros(plaintextLen - 1 - |password|);
    assert plaintext == PadTunnel(password);
    r := EncryptBlocks(c, secret, auth + salt, plaintext);
  }

  /** The ciphertext length is the least multiple of 16 that holds the length octet and the key. */
  lemma TunnelCipherLength(c: Crypto, password: seq<byte>, secret: seq<byte>, auth: Digest, salt: Salt, m: nat)
    requires |password| < TUNNEL_CIPHERTEXT_MAX
    ensures var n := |TunnelCipher(c, password, secret, auth, salt)|;
            n % 16 == 0 && |password| + 1 <= n <= TUNNEL_CIPHERTEXT_MAX
            && (m % 16 == 0 && m >= |password| + 1 ==> m >= n)
            && TunnelCipher(c, password, secret, auth, salt)
               == Encipher(c, secret, auth + salt, [|password|] + password + Zeros(n - 1 - |password|))
  {
    var p := PadTunnel(password);
    assert p == [|password|] + password + Zeros(|p| - 1 - |password|);
  }

  predicate TunnelLength(n: nat) {
    n > 0 && n % 16 == 0 && n <= TUNNEL_CIPHERTEXT_MAX
  }

  function TunnelPlain(c: Crypto, ciphertext: seq<byte>, secret: seq<byte>, auth: Digest, salt: Salt)
    : (r: Result<seq<byte>, Error>)
  {
    if !TunnelLength(|ciphertext|) then Err(InvalidLength)
    else
      var plain := Decipher(c, secret, auth + salt, ciphertext);
      if 1 + plain[0] > |plain| then Err(InvalidLength) else Ok(plain[1..1 + plain[0]])
  }

  method TunnelPasswordDecrypt(c: Crypto, ciphertext: seq<byte>, secret: seq<byte>, auth: Digest, salt: Salt)
    returns (r: Result<seq<byte>, Error>)
    ensures r == TunnelPlain(c, ciphertext, secret, auth, salt)
    ensures r.Ok? ==> 16 <= |ciphertext| <= 240 && |ciphertext| % 16 == 0
  {
    if ciphertext == [] || |ciphertext| % 16 != 0 || |ciphertext| > TUNNEL_CIPHERTEXT_MAX {
      return Err(InvalidLength);
    }
    var plaintext := DecryptBlocks(c, secret, auth + salt, ciphertext);
    var plen := plaintext[0];
    if 1 + plen > |plaintext| {
      return Err(InvalidLength);
    }
    return Ok(plaintext[1..1 + plen]);
  }

  /** Every key of 0 to 239 octets comes back exactly, zeros included. */
  lemma TunnelRoundTrip(c: Crypto, password: seq<byte>, secret: seq<byte>, auth: Digest, salt: Salt)
    requires |password| < TUNNEL_CIPHERTEXT_MAX
    ensures TunnelPlain(c, TunnelCipher(c, password, secret, auth, salt), secret, auth, salt) == Ok(password)
  {
    DecipherEncipher(c, secret, auth + salt, PadTunnel(password));
  }

  /** `plain` is a block-aligned plaintext whose length octet delimits `key` inside it. */
  predicate Delimits(plain: seq<byte>, key: seq<byte>) {
    |plain| % 16 == 0 && |plain| >= 1 + |key| && plain[0] == |key| && plain[1..1 + |key|] == key
  }

  /** A ciphertext decrypts to `key` exactly when its length is legal and it is the encipherment of
      some plaintext that delimits `key`; every other ciphertext is rejected. */
  lemma TunnelAcceptsIff(c: Crypto, ciphertext: seq<byte>, secret: seq<byte>, auth: Digest, salt: Salt, key: seq<byte>)
    ensures TunnelPlain(c, ciphertext, secret, auth, salt) == Ok(key) <==>
            16 <= |ciphertext| <= 240 && |ciphertext| % 16 == 0
            && exists plain :: Delimits(plain, key) && Encipher(c, secret, auth + salt, plain) == ciphertext
  {
    if TunnelLength(|ciphertext|) {
      var plain := Decipher(c, secret, auth + salt, ciphertext);
      EncipherDecipher(c, secret, auth + salt, ciphertext);
      assert TunnelPlain(c, ciphertext, secret, auth, salt) == Ok(key) <==> Delimits(plain, key);
      forall q | Delimits(q, key) && Encipher(c, secret, auth + salt, q) == ciphertext
        ensures q == plain
      {
        DecipherEncipher(c, secret, auth + salt, q);
      }
    }
  }
}
