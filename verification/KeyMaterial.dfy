/** Salted attributes of a reply: Tunnel-Password and the two MPPE keys, and the uniqueness of
    their salts within one packet. */
module KeyMaterial {
  import opened Bytes
  import opened Attributes
  import opened Passwords

  const TUNNEL_PASSWORD: byte := 69
  const MS_VENDOR_ID: Pen := [0, 0, 1, 55]
  const MS_MPPE_SEND_KEY: byte := 16
  const MS_MPPE_RECV_KEY: byte := 17
  const KEY_MAX_LEN := 239

  function TunnelAttr(c: Crypto, tag: byte, password: seq<byte>, requestAuth: Digest, secret: seq<byte>, salt: Salt)
    : (r: Attr)
    requires |password| <= KEY_MAX_LEN
    ensures SaltOf(r) == Some(salt)
  {
    var value := [tag] + salt + TunnelCipher(c, password, secret, requestAuth, salt);
    assert value[1..3] == salt;
    RawAttribute(TUNNEL_PASSWORD, value)
  }

  function MppeAttr(c: Crypto, vendorType: byte, key: seq<byte>, requestAuth: Digest, secret: seq<byte>, salt: Salt)
    : (r: Attr)
    requires |key| <= KEY_MAX_LEN
    ensures r.typ == VENDOR_SPECIFIC && |r.value| <= 250
    ensures vendorType == MS_MPPE_SEND_KEY || vendorType == MS_MPPE_RECV_KEY ==> SaltOf(r) == Some(salt)
  {
    var data := salt + TunnelCipher(c, key, secret, requestAuth, salt);
    var value := VsaValue(MS_VENDOR_ID, vendorType, data);
    assert value[..4] == MS_VENDOR_ID && value[4] == vendorType && value[6..] == data;
    assert value[6..8] == data[..2] == salt;
    RawAttribute(VENDOR_SPECIFIC, value)
  }

  lemma TunnelValue(c: Crypto, tag: byte, password: seq<byte>, requestAuth: Digest, secret: seq<byte>, salt: Salt)
    requires |password| <= KEY_MAX_LEN
    ensures var a := TunnelAttr(c, tag, password, requestAuth, secret, salt);
            a == RawAttribute(TUNNEL_PASSWORD, [tag] + salt + TunnelCipher(c, password, secret, requestAuth, salt))
            && |a.value| == 3 + |PadTunnel(password)| <= 253
  {
  }

  lemma MppeValue(c: Crypto, vendorType: byte, key: seq<byte>, requestAuth: Digest, secret: seq<byte>, salt: Salt)
    requires |key| <= KEY_MAX_LEN
    ensures var cipher := TunnelCipher(c, key, secret, requestAuth, salt);
            var a := MppeAttr(c, vendorType, key, requestAuth, secret, salt);
            |cipher| <= 251
            && a == RawAttribute(VENDOR_SPECIFIC, MS_VENDOR_ID + [vendorType] + [4 + |cipher|] + salt + cipher)
            && |a.value| == 8 + |PadTunnel(key)| <= 253
  {
    var cipher := TunnelCipher(c, key, secret, requestAuth, salt);
    assert MS_VENDOR_ID + [vendorType] + [4 + |cipher|] + salt + cipher
        == VsaValue(MS_VENDOR_ID, vendorType, salt + cipher);
  }

  /** The salt an attribute carries, as the scan for used salts reads it. */
  function SaltOf(a: Attr): (r: Option<Salt>)
  {
    if a.typ == TUNNEL_PASSWORD then
      if |a.value| >= 3 then Some(a.value[1..3]) else None
    else if a.typ == VENDOR_SPECIFIC && |a.value| >= 8 && a.value[..4] == MS_VENDOR_ID
            && (a.value[4] == MS_MPPE_SEND_KEY || a.value[4] == MS_MPPE_RECV_KEY) then
      Some(a.value[6..8])
    else None
  }

  predicate Uses(attrs: seq<Attr>, salt: Salt) {
    exists a :: a in attrs && SaltOf(a) == Some(salt)
  }

  /** All salts in the list have the top bit set and no two attributes share one. */
  predicate SaltsDistinct(attrs: seq<Attr>) {
    && (forall i :: 0 <= i < |attrs| && SaltOf(attrs[i]).Some? ==> SaltOf(attrs[i]).value[0] >= 128)
    && forall i, j :: 0 <= i < j < |attrs| && SaltOf(attrs[i]).Some? ==> SaltOf(attrs[i]) != SaltOf(attrs[j])
  }

  /** A salt that no attribute carries, with its top bit set. */
  predicate NewSalt(attrs: seq<Attr>, salt: Salt) {
    salt[0] >= 128 && !Uses(attrs, salt)
  }

  /** One more attribute keeps the salts distinct exactly if it has none, or a new one. */
  lemma DistinctSnoc(attrs: seq<Attr>, a: Attr)
    ensures SaltsDistinct(attrs + [a]) <==>
            SaltsDistinct(attrs) && (SaltOf(a).None? || NewSalt(attrs, SaltOf(a).value))
  {
    var after := attrs + [a];
    if SaltsDistinct(after) {
      assert forall i :: 0 <= i < |attrs| ==> after[i] == attrs[i];
      assert after[|attrs|] == a;
    }
  }

  /** Position of a salt among those with the top bit set. */
  function SaltIndex(s: Salt): (r: int) {
    FromU16(s[0], s[1]) - 32768
  }

  /** Distinct salts with the top bit set. */
  function SaltPool(n: nat): (r: set<Salt>)
    requires n <= 32768
  {
    if n == 0 then {} else SaltPool(n - 1) + {[128 + (n - 1) / 256, (n - 1) % 256]}
  }

  lemma {:induction false} SaltPoolSize(n: nat)
    requires n <= 32768
    ensures |SaltPool(n)| == n
    ensures forall s :: s in SaltPool(n) ==> 128 <= s[0] && SaltIndex(s) < n
  {
    if n > 0 {
      SaltPoolSize(n - 1);
      var last: Salt := [128 + (n - 1) / 256, (n - 1) % 256];
      assert SaltIndex(last) == n - 1;
      assert last !in SaltPool(n - 1);
    }
  }

  function UsedSalts(attrs: seq<Attr>): (r: set<Salt>)
    ensures forall s :: s in r <==> Uses(attrs, s)
  {
    if attrs == [] then {}
    else
      var rest := UsedSalts(attrs[1..]);
      assert forall a :: a in attrs <==> a == attrs[0] || a in attrs[1..];
      match SaltOf(attrs[0])
      case Some(s) => rest + {s}
      case None => rest
  }

  lemma {:induction false} UsedSaltsSize(attrs: seq<Attr>)
    ensures |UsedSalts(attrs)| <= |attrs|
  {
    if attrs != [] {
      UsedSaltsSize(attrs[1..]);
    }
  }

  /** A packet never holds enough attributes to exhaust the salts. */
  lemma UnusedSaltExists(attrs: seq<Attr>) returns (salt: Salt)
    requires |Encode(attrs)| <= 4076
    ensures salt[0] >= 128 && !Uses(attrs, salt)
  {
    UsedSaltsSize(attrs);
    SaltPoolSize(2039);
    var pool, used := SaltPool(2039), UsedSalts(attrs);
    if pool <= used {
      SubsetSize(pool, used);
      assert false;
    }
    salt :| salt in pool && salt !in used;
  }

  /** The random source: every draw has its top bit set and every such salt eventually comes up. */
  ghost predicate FairDraws(draws: nat -> Salt) {
    && (forall n: nat :: draws(n)[0] >= 128)
    && forall s: Salt :: s[0] >= 128 ==> exists n: nat :: draws(n) == s
  }

  /** A fair source eventually draws a salt that the packet does not use. */
  lemma UnusedDraw(region: seq<byte>, draws: nat -> Salt) returns (n: nat)
    requires FairDraws(draws) && |region| <= 4076
    ensures !Uses(Walk(region).attrs, draws(n))
  {
    WalkDecomposes(region);
    var free := UnusedSaltExists(Walk(region).attrs);
    n :| draws(n) == free;
  }

  /** The retry loop ends, because an unused salt is drawn in the end, and returns the first. */
  method UniqueSalt(region: seq<byte>, draws: nat -> Salt) returns (candidate: Salt)
    requires exists n: nat :: !Uses(Walk(region).attrs, draws(n))
    ensures !Uses(Walk(region).attrs, candidate)
    ensures exists n: nat :: draws(n) == candidate && forall k :: 0 <= k < n ==> Uses(Walk(region).attrs, draws(k))
  {
    hide Uses;
    ghost var attrs := Walk(region).attrs;
    ghost var bound: nat :| !Uses(attrs, draws(bound));
    var i := 0;
    candidate := draws(0);
    while true
      invariant candidate == draws(i) && i <= bound
      invariant forall k :: 0 <= k < i ==> Uses(attrs, draws(k))
      decreases bound - i
    {
      var used := ScanForSalt(region, candidate);
      if !used {
        assert draws(i) == candidate;
        return;
      }
      i := i + 1;
      candidate := draws(i);
    }
  }

  method ScanForSalt(region: seq<byte>, candidate: Salt) returns (used: bool)
    ensures used <==> Uses(Walk(region).attrs, candidate)
  {
    var it := new AttributesIter(region);
    while true
      invariant fresh(it)
      invariant Uses(Walk(region).attrs, candidate) <==> Uses(it.Remaining().attrs, candidate)
      decreases if it.halted then 0 else 1, |it.rest|
    {
      ghost var before := it.Remaining().attrs;
      var slot := it.Next();
      match slot {
        case None => return false;
        case Some(Err(_)) =>
        case Some(Ok(attribute)) =>
          assert before == [attribute] + it.Remaining().attrs;
          assert forall a :: a in before <==> a == attribute || a in it.Remaining().attrs;
          if SaltOf(attribute) == Some(candidate) {
            return true;
          }
      }
    }
  }
}
