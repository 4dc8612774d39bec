/** The request builder of the client side and what its sealed packets satisfy. */
module Requests {
  import opened Bytes
  import opened Header
  import opened Attributes
  import opened PacketBuffers
  import opened MessageAuthenticator
  import Replies
  import Authenticator
  import Passwords
  import Pap
  import Eap

  /** Codes whose Authenticator is random; the others carry a signature. */
  predicate RandomAuth(code: byte) {
    code == ACCESS_REQUEST || code == STATUS_SERVER
  }

  /** Attribute types that the builder manages itself. */
  predicate Reserved(typ: byte) {
    typ == Pap.USER_PASSWORD || typ == TYPE
  }

  /** The Authenticator in force while a request is hidden and tagged. */
  function WorkingAuth(code: byte, random: Digest): (r: Digest) {
    if RandomAuth(code) then random else ZERO_DIGEST
  }

  /** The appended attributes and, last, the hidden password. */
  function WithPassword(c: Crypto, attrs: seq<Attr>, password: Option<seq<byte>>, auth: Digest, secret: seq<byte>)
    : (r: seq<Attr>)
    requires password.Some? ==> |password.value| <= 128
  {
    match password
    case None => attrs
    case Some(p) => attrs + [RawAttribute(Pap.USER_PASSWORD, Passwords.UserCipher(c, p, secret, auth))]
  }

  /** A sealed request: Length, then the tag under the working Authenticator, then the final
      Authenticator over everything. */
  function Sealed(c: Crypto, code: byte, identifier: byte, attrs: seq<Attr>, random: Digest, secret: seq<byte>)
    : (r: seq<byte>)
    requires Replies.Fits(true, attrs)
  {
    var auth := WorkingAuth(code, random);
    var region := Replies.SealedRegion(c, code, identifier, true, attrs, auth, secret);
    Frame(code, identifier,
          if RandomAuth(code) then auth else Authenticator.Signature(c, code, identifier, region, ZERO_DIGEST, secret),
          region)
  }

  /** The octets are the header, the zeroed slot and the attributes, none of a managed type. */
  ghost predicate Holds(inner: seq<byte>, password: Option<seq<byte>>, attrs: seq<Attr>) {
    && MIN_PACKET_LEN <= |inner| <= MAX_PACKET_LEN
    && Replies.Fits(true, attrs)
    && inner == Fresh(inner[0], inner[1]) + Encode(Replies.Slots(true, attrs))
    && NoneOfType(attrs, TYPE) && NoneOfType(attrs, Pap.USER_PASSWORD)
    && (password.Some? ==> inner[0] == ACCESS_REQUEST && |password.value| <= 128)
  }

  /** A builder call of an unmanaged type adds its attribute to the list, or nothing. */
  lemma AppendHolds(inner: seq<byte>, password: Option<seq<byte>>, attrs: seq<Attr>, op: BuildOp)
    requires |inner| >= MIN_PACKET_LEN && Holds(inner, password, attrs) && !Reserved(Wanted(op).typ)
    ensures var after := PacketBuffers.Step(inner, op);
            |after| >= 2 && after[..2] == inner[..2]
            && match Appended(|inner|, op)
               case Some(a) => OutcomeOf(|inner|, op).None? && Holds(after, password, attrs + [a])
               case None => OutcomeOf(|inner|, op).Some? && after == inner
  {
    hide Holds, EncodeAttr, Wanted, OutcomeOf;
    if Appended(|inner|, op).Some? {
      SnocHolds(inner, password, attrs, Appended(|inner|, op).value);
    }
  }

  lemma SnocHolds(inner: seq<byte>, password: Option<seq<byte>>, attrs: seq<Attr>, a: Attr)
    requires Holds(inner, password, attrs) && !Reserved(a.typ)
    requires |inner| + 2 + |a.value| <= MAX_PACKET_LEN
    ensures Holds(inner + EncodeAttr(a), password, attrs + [a])
  {
    hide Encode, Replies.Slots, Fresh;
    Replies.SlotsAppend(Fresh(inner[0], inner[1]), true, attrs, a);
    assert forall x :: x in attrs + [a] ==> x in attrs || x == a;
  }

  /** Stamping the identifier changes that octet of the header alone. */
  lemma StampHolds(inner: seq<byte>, password: Option<seq<byte>>, attrs: seq<Attr>, identifier: byte)
    requires Holds(inner, password, attrs)
    ensures |inner| >= MIN_PACKET_LEN && Holds(inner[1 := identifier], password, attrs)
    ensures inner[1 := identifier] == Fresh(inner[0], identifier) + Encode(Replies.Slots(true, attrs))
    ensures Replies.Fits(true, attrs) && (password.Some? ==> |password.value| <= 128)
  {
    hide Encode, Replies.Slots;
  }

  class Request {
    const buf: PacketBuffer
    var password: Option<seq<byte>>
    ghost var attrs: seq<Attr>

    ghost predicate Valid()
      reads this, buf
    {
      buf.Valid() && Holds(buf.inner, password, attrs)
    }

    constructor (code: byte)
      ensures Valid() && fresh(buf) && buf.inner[0] == code && password.None? && attrs == []
    {
      buf := new PacketBuffer(code, 0);
      password := None;
      attrs := [];
      new;
      var offset := AppendZeroedSlot(buf);
      EncodeOne(MaSlot(ZERO_DIGEST));
      assert [MaSlot(ZERO_DIGEST)] + [] == [MaSlot(ZERO_DIGEST)];
    }

    method UserPassword(plaintext: seq<byte>) returns (r: Outcome)
      requires Valid()
      modifies this
      ensures Valid() && attrs == old(attrs)
      ensures r == if buf.inner[0] != ACCESS_REQUEST then Some(WrongPacketType)
                   else if |plaintext| > 128 then Some(PasswordTooLong(|plaintext|)) else None
      ensures password == if r.None? then Some(plaintext) else old(password)
    {
      var code := HeaderCode();
      if code != ACCESS_REQUEST {
        return Some(WrongPacketType);
      }
      if |plaintext| > 128 {
        return Some(PasswordTooLong(|plaintext|));
      }
      password := Some(plaintext);
      return None;
    }

    method HeaderCode() returns (code: byte)
      requires Valid()
      ensures code == buf.inner[0]
    {
      FreshParses(buf.inner[0], buf.inner[1], Encode(Replies.Slots(true, attrs)));
      code := Parse(buf.inner).value.header.code;
    }

    /** The appends, each behind the check for builder-managed types. */
    method Append(op: BuildOp) returns (r: Outcome)
      requires Valid()
      modifies this, buf
      ensures Valid() && buf.Valid() && password == old(password) && buf.inner[..2] == old(buf.inner[..2])
      ensures r == if Wanted(op).typ == 2 || Wanted(op).typ == 80 then Some(ReservedAttribute(Wanted(op).typ))
                   else OutcomeOf(old(|buf.inner|), op)
      ensures r.Some? ==> attrs == old(attrs) && buf.inner == old(buf.inner)
      ensures r.None? ==> Appended(old(|buf.inner|), op).Some?
                          && attrs == old(attrs) + [Appended(old(|buf.inner|), op).value]
                          && buf.inner == Step(old(buf.inner), op)
    {
      hide Holds, Appended, Wanted, OutcomeOf, PacketBuffers.Step;
      if Reserved(Wanted(op).typ) {
        return Some(ReservedAttribute(Wanted(op).typ));
      }
      ghost var added := Appended(|buf.inner|, op);
      AppendHolds(buf.inner, password, attrs, op);
      r := buf.Apply(op);
      if added.Some? {
        attrs := attrs + [added.value];
      }
    }

    /** Writes the next fragment of `rest`, if it fits. */
    method AppendFragment(rest: seq<byte>) returns (r: Outcome, chunk: seq<byte>)
      requires Valid() && rest != []
      modifies this, buf
      ensures Valid() && buf.Valid() && password == old(password)
      ensures |chunk| > 0 && chunk <= rest
      ensures |chunk| <= 253
              && Eap.Fragmented(rest) == [RawAttribute(Eap.TYPE, chunk)] + Eap.Fragmented(rest[|chunk|..])
      ensures |Encode(Eap.Fragmented(rest))| == 2 + |chunk| + |Encode(Eap.Fragmented(rest[|chunk|..]))|
      ensures r.None? <==> old(|buf.inner|) + 2 + |chunk| <= MAX_PACKET_LEN
      ensures r.None? ==> attrs == old(attrs) + [RawAttribute(Eap.TYPE, chunk)]
                          && |buf.inner| == old(|buf.inner|) + 2 + |chunk| && old(buf.inner) <= buf.inner
      ensures r.Some? ==> attrs == old(attrs) && buf.inner == old(buf.inner)
                          && r.value == PacketTooLarge(|buf.inner|, 2 + |chunk|)
    {
      chunk := if |rest| <= Eap.CHUNK then rest else rest[..Eap.CHUNK];
      Eap.FragmentedHead(rest);
      r := Append(BuildOp.AddAttribute(Eap.TYPE, chunk));
    }

    /** All fragments or none: a failure restores the buffer, however many were already written. */
    method AddEapMessage(packet: seq<byte>) returns (r: Outcome)
      requires Valid()
      modifies this, buf
      ensures Valid() && password == old(password)
      ensures r.None? <==> old(|buf.inner|) + |Encode(Eap.Fragmented(packet))| <= MAX_PACKET_LEN
      ensures r.None? ==> attrs == old(attrs) + Eap.Fragmented(packet)
      ensures r.Some? ==> attrs == old(attrs) && buf.inner == old(buf.inner)
                          && FragmentRefused(old(|buf.inner|), Eap.Fragmented(packet), r.value)
    {
      var previous := |buf.inner| - MIN_PACKET_LEN;
      assert buf.Valid() && Eap.Fragmented([]) == [] && Encode([]) == [];
      ghost var before := buf.inner;
      var rest := packet;
      ghost var done: seq<Attr> := [];
      assert attrs == attrs + [] && done + Eap.Fragmented(packet) == Eap.Fragmented(packet);
      assert Holds(before, password, attrs);
      hide *;
      while rest != []
        invariant Valid() && 20 <= |buf.inner| <= MAX_PACKET_LEN && password == old(password)
        invariant before <= buf.inner
        invariant done + Eap.Fragmented(rest) == Eap.Fragmented(packet) && attrs == old(attrs) + done
        invariant |buf.inner| + |Encode(Eap.Fragmented(rest))| == old(|buf.inner|) + |Encode(Eap.Fragmented(packet))|
        decreases |rest|
      {
        var chunk;
        r, chunk := AppendFragment(rest);
        if r.Some? {
          RefusedAt(packet, done, rest, chunk, |before|, |buf.inner|);
          Restore(previous, before, old(attrs));
          return;
        }
        ghost var first: Attr := RawAttribute(Eap.TYPE, chunk);
        rest := rest[|chunk|..];
        Associative(done, [first], Eap.Fragmented(rest));
        Associative(old(attrs), done, [first]);
        done := done + [first];
      }
      r := None;
    }

    /** The error names the size after some of the fragments and the size of the next one. */
    static ghost predicate FragmentRefused(size: nat, fragments: seq<Attr>, error: CodecError) {
      exists k :: 0 <= k < |fragments|
        && error == PacketTooLarge(size + |Encode(fragments[..k])|, 2 + |fragments[k].value|)
    }

    static lemma RefusedAt(packet: seq<byte>, done: seq<Attr>, rest: seq<byte>, chunk: seq<byte>, size: nat, now: nat)
      requires |chunk| <= 253 && chunk <= rest
      requires done + Eap.Fragmented(rest) == Eap.Fragmented(packet)
      requires Eap.Fragmented(rest) == [RawAttribute(Eap.TYPE, chunk)] + Eap.Fragmented(rest[|chunk|..])
      requires now + |Encode(Eap.Fragmented(rest))| == size + |Encode(Eap.Fragmented(packet))|
      ensures FragmentRefused(size, Eap.Fragmented(packet), PacketTooLarge(now, 2 + |chunk|))
    {
      hide Encode, Eap.Fragmented;
      var fragments := Eap.Fragmented(packet);
      assert fragments[..|done|] == done && fragments[|done|].value == chunk;
      EncodeAppend(done, Eap.Fragmented(rest));
    }

    method Restore(previous: nat, ghost before: seq<byte>, ghost attrsBefore: seq<Attr>)
      requires Valid() && before <= buf.inner && |before| == MIN_PACKET_LEN + previous
      requires Holds(before, password, attrsBefore)
      modifies this, buf
      ensures Valid() && buf.inner == before && attrs == attrsBefore && password == old(password)
    {
      buf.TruncateAttributesTo(previous);
      attrs := attrsBefore;
    }

    /** Sealing fails exactly when the hidden password does not fit. Otherwise the bytes are the
        sealed frame of the attributes and the password hidden under the working Authenticator, and
        they pass the checks of a receiver. */
    method Seal(c: Crypto, identifier: byte, secret: seq<byte>, random: Digest)
      returns (r: Result<seq<byte>, CodecError>)
      requires Valid()
      modifies this, buf
      ensures var auth := WorkingAuth(old(buf.inner[0]), random);
              var all := WithPassword(c, old(attrs), old(password), auth, secret);
              (r.Ok? <==> Replies.Fits(true, all))
              && (r.Err? ==> old(password).Some?
                             && r.error == PacketTooLarge(old(|buf.inner|),
                                                          2 + |Passwords.PadUser(old(password).value)|))
              && (r.Ok? ==> r.value == Sealed(c, old(buf.inner[0]), identifier, all, random, secret)
                            && PassesChecks(c, r.value, old(buf.inner[0]), identifier, random, secret))
    {
      hide PassesChecks, Holds, Sealed, Encode, Replies.Slots, Fresh;
      StampHolds(buf.inner, password, attrs, identifier);
      ghost var code := buf.inner[0];
      SealedPassesChecks(c, buf.inner, password, attrs, identifier, random, secret);
      buf.SetIdentifier(identifier);
      var theCode := HeaderCode();
      var auth := if theCode == ACCESS_REQUEST || theCode == STATUS_SERVER then random else ZERO_DIGEST;
      ghost var all := WithPassword(c, attrs, password, auth, secret);
      if password.Some? {
        var failed := HidePassword(c, code, identifier, secret, auth);
        if failed.Some? {
          return Err(failed.value);
        }
      }
      Finish(c, code, identifier, secret, auth, all, random);
      return Ok(buf.inner);
    }

    /** Appends the hidden password, if it fits, and forgets the plain one. */
    method HidePassword(c: Crypto, ghost code: byte, ghost identifier: byte, secret: seq<byte>, auth: Digest)
      returns (r: Outcome)
      requires password.Some? && |password.value| <= 128
      requires buf.Valid() && buf.inner == Fresh(code, identifier) + Encode(Replies.Slots(true, attrs))
      modifies this, buf
      ensures buf.Valid() && password.None?
      ensures var all := WithPassword(c, old(attrs), old(password), auth, secret);
              (r.None? <==> Replies.Fits(true, all))
              && (r.None? ==> buf.inner == Fresh(code, identifier) + Encode(Replies.Slots(true, all)))
      ensures r.Some? ==> r.value == PacketTooLarge(old(|buf.inner|), 2 + |Passwords.PadUser(old(password).value)|)
    {
      hide Replies.Slots, Encode, EncodeAttr;
      var ciphertext := Passwords.UserPasswordEncrypt(c, password.value, secret, auth);
      password := None;
      Replies.SlotsAppend(Fresh(code, identifier), true, attrs, RawAttribute(Pap.USER_PASSWORD, ciphertext));
      r := buf.AddAttribute(Pap.USER_PASSWORD, ciphertext);
    }

    /** The last steps of sealing: Length, tag, Authenticator. */
    method Finish(c: Crypto, ghost code: byte, ghost identifier: byte, secret: seq<byte>, auth: Digest,
                  ghost all: seq<Attr>, ghost random: Digest)
      requires buf.Valid() && Replies.Fits(true, all)
      requires buf.inner == Fresh(code, identifier) + Encode(Replies.Slots(true, all))
      requires auth == WorkingAuth(code, random)
      modifies buf
      ensures buf.inner == Sealed(c, code, identifier, all, random, secret)
    {
      ghost var region := Encode(Replies.Slots(true, all));
      buf.PatchLength();
      PatchedIsFrame(code, identifier, region);
      Replies.WriteTag(c, buf, 22, code, identifier, all, auth, secret);
      region := Replies.SealedRegion(c, code, identifier, true, all, auth, secret);
      hide Replies.SealedRegion, Replies.Slots, Encode, Frame;
      Authenticator.VerifiesIffSigned(c, code, identifier, ZERO_DIGEST, region, ZERO_DIGEST, secret);
      var final := auth;
      FrameFields(code, identifier, ZERO_DIGEST, region);
      if !(buf.inner[0] == ACCESS_REQUEST || buf.inner[0] == STATUS_SERVER) {
        final := Authenticator.ComputeZeroedRequest(c, buf.inner, secret);
      }
      ResignedFrame(code, identifier, ZERO_DIGEST, final, region);
      buf.SetAuthenticator(final);
    }
  }

  /** What a receiver checks of a request: Access-Request and Status-Server carry the random
      Authenticator and a tag under it; every other code a tag under zeros and the MD5 signature. */
  predicate PassesChecks(c: Crypto, packet: seq<byte>, code: byte, identifier: byte, random: Digest, secret: seq<byte>)
  {
    && |packet| >= 20 && packet[0] == code && packet[1] == identifier
    && (code == 1 || code == 12 ==> packet[4..20] == random && VerifyResult(c, packet, random, secret) == Valid)
    && (code != 1 && code != 12 ==>
          Authenticator.VerifyZeroedRequest(c, packet, secret) && VerifyResult(c, packet, ZERO_DIGEST, secret) == Valid)
  }

  /** Every sealed request verifies: its tag under its own Authenticator for Access and
      Status-Server and under zeros otherwise, where the MD5 signature holds too; and it walks back
      to its attributes. */
  lemma SealedVerifies(c: Crypto, code: byte, identifier: byte, attrs: seq<Attr>, random: Digest, secret: seq<byte>)
    requires Replies.Fits(true, attrs) && NoneOfType(attrs, TYPE)
    ensures var packet := Sealed(c, code, identifier, attrs, random, secret);
            PassesChecks(c, packet, code, identifier, random, secret)
            && Walk(packet[20..])
               == Walked(Replies.OnWire(c, code, identifier, true, attrs, WorkingAuth(code, random), secret), [])
  {
    var auth := WorkingAuth(code, random);
    var region := Replies.SealedRegion(c, code, identifier, true, attrs, auth, secret);
    var final := if RandomAuth(code) then auth
                 else Authenticator.Signature(c, code, identifier, region, ZERO_DIGEST, secret);
    NoMaValuesIff(attrs);
    SignedFrameVerifies(c, code, identifier, final, attrs, auth, secret);
    Authenticator.VerifiesIffSigned(c, code, identifier, final, region, ZERO_DIGEST, secret);
    WalkEncode(Replies.OnWire(c, code, identifier, true, attrs, auth, secret));
    FrameFields(code, identifier, final, region);
  }

  /** Which Authenticator a sealed request carries and which one its tag is under, code by code. */
  lemma SealedByCode(c: Crypto, code: byte, identifier: byte, attrs: seq<Attr>, random: Digest, secret: seq<byte>)
    requires Replies.Fits(true, attrs) && NoneOfType(attrs, 80)
    ensures var packet := Sealed(c, code, identifier, attrs, random, secret);
            |packet| >= 20 && packet[0] == code && packet[1] == identifier
            && if code == 1 || code == 12
               then packet[4..20] == random && VerifyResult(c, packet, random, secret) == Valid
               else Authenticator.VerifyZeroedRequest(c, packet, secret)
                    && VerifyResult(c, packet, ZERO_DIGEST, secret) == Valid
  {
    hide Sealed, VerifyResult;
    SealedVerifies(c, code, identifier, attrs, random, secret);
  }

  /** Whatever the builder holds, the request it seals verifies: it lets no attribute of type 80 in. */
  lemma SealedPassesChecks(c: Crypto, inner: seq<byte>, password: Option<seq<byte>>, attrs: seq<Attr>,
                           identifier: byte, random: Digest, secret: seq<byte>)
    requires Holds(inner, password, attrs)
    ensures var all := WithPassword(c, attrs, password, WorkingAuth(inner[0], random), secret);
            Replies.Fits(true, all) ==>
              PassesChecks(c, Sealed(c, inner[0], identifier, all, random, secret), inner[0], identifier, random,
                           secret)
  {
    var all := WithPassword(c, attrs, password, WorkingAuth(inner[0], random), secret);
    assert forall a :: a in all ==> a in attrs || a.typ == Pap.USER_PASSWORD;
    if Replies.Fits(true, all) {
      SealedVerifies(c, inner[0], identifier, all, random, secret);
    }
  }

  /** End to end: an EAP packet fragmented among other attributes of a sealed request, of any code and
      with or without a hidden password, is reassembled unchanged by the server. */
  lemma EapReachesTheServer(c: Crypto, code: byte, identifier: byte, before: seq<Attr>, eap: seq<byte>,
                            after: seq<Attr>, password: Option<seq<byte>>, random: Digest, secret: seq<byte>)
    requires password.Some? ==> |password.value| <= 128
    requires NoneOfType(before, TYPE) && NoneOfType(after, TYPE)
    requires NoneOfType(before, Eap.TYPE) && NoneOfType(after, Eap.TYPE)
    requires Replies.Fits(true, WithPassword(c, before + Eap.Fragmented(eap) + after, password,
                                             WorkingAuth(code, random), secret))
    ensures var attrs := before + Eap.Fragmented(eap) + after;
            var all := WithPassword(c, attrs, password, WorkingAuth(code, random), secret);
            var packet := Sealed(c, code, identifier, all, random, secret);
            PassesChecks(c, packet, code, identifier, random, secret)
            && WellFormed(packet[20..]) && Eap.Payload(Walk(packet[20..]).attrs) == eap
  {
    hide PassesChecks, Sealed, Encode;
    var auth := WorkingAuth(code, random);
    var attrs := before + Eap.Fragmented(eap) + after;
    var all := WithPassword(c, attrs, password, auth, secret);
    var last := if password.None? then after else after + all[|all| - 1..];
    assert all == before + Eap.Fragmented(eap) + last;
    Eap.PayloadOfFragmented(eap);
    Eap.PayloadAmongOthers(before, eap, last);
    SealedVerifies(c, code, identifier, all, random, secret);
    Eap.PayloadCons(MaSlot(FrameTag(c, code, identifier, [MaSlot(ZERO_DIGEST)] + all, auth, secret)), all);
  }

  lemma FrameFields(code: byte, identifier: byte, auth: Digest, region: seq<byte>)
    requires MIN_PACKET_LEN + |region| <= MAX_PACKET_LEN
    ensures var f := Frame(code, identifier, auth, region);
            f[0] == code && f[1] == identifier && f[4..20] == auth && f[20..] == region
  {
  }

  /** The first User-Password a receiver finds is the one the builder hid. */
  lemma HiddenPasswordIsFirst(c: Crypto, identifier: byte, attrs: seq<Attr>, hidden: Attr, random: Digest,
                              secret: seq<byte>)
    requires hidden.typ == Pap.USER_PASSWORD && Replies.Fits(true, attrs + [hidden])
    requires NoneOfType(attrs, TYPE) && NoneOfType(attrs, Pap.USER_PASSWORD)
    ensures var packet := Sealed(c, ACCESS_REQUEST, identifier, attrs + [hidden], random, secret);
            |packet| >= 20 && packet[4..20] == random
            && FirstRaw(packet[20..], Pap.USER_PASSWORD) == Ok(Some(hidden))
  {
    var all := attrs + [hidden];
    assert forall a :: a in all ==> a in attrs || a == hidden;
    SealedVerifies(c, ACCESS_REQUEST, identifier, all, random, secret);
    hide Sealed, FrameTag, VerifyResult;
    var slot := MaSlot(FrameTag(c, ACCESS_REQUEST, identifier, [MaSlot(ZERO_DIGEST)] + all, random, secret));
    assert [slot] + all == ([slot] + attrs) + [hidden] + [];
    FirstOfTypeAt([slot] + attrs, hidden, []);
  }

  /** End to end: the server decrypts from a sealed Access-Request the password without trailing
      NULs, and verification by re-encryption matches exactly the passwords with the same padding. */
  lemma PasswordSurvivesTheWire(c: Crypto, identifier: byte, attrs: seq<Attr>, password: seq<byte>, random: Digest,
                                secret: seq<byte>, expected: seq<byte>)
    requires |password| <= 128 && |expected| <= 128
    requires NoneOfType(attrs, TYPE) && NoneOfType(attrs, Pap.USER_PASSWORD)
    requires Replies.Fits(true, WithPassword(c, attrs, Some(password), random, secret))
    ensures var all := WithPassword(c, attrs, Some(password), random, secret);
            var packet := Sealed(c, ACCESS_REQUEST, identifier, all, random, secret);
            |packet| >= 20
            && Pap.DecryptUserPassword(c, packet[20..], secret, packet[4..20]) == Ok(Some(Passwords.TrimNuls(password)))
            && (Pap.Verify(c, packet[20..], secret, packet[4..20], expected) == Ok(Pap.Match)
                <==> Passwords.PadUser(expected) == Passwords.PadUser(password))
  {
    var hidden: Attr := RawAttribute(Pap.USER_PASSWORD, Passwords.UserCipher(c, password, secret, random));
    HiddenPasswordIsFirst(c, identifier, attrs, hidden, random, secret);
    hide Sealed;
    var packet := Sealed(c, ACCESS_REQUEST, identifier, attrs + [hidden], random, secret);
    Passwords.UserRoundTrip(c, password, secret, random);
    Passwords.ChainIsBijection(c, secret, random, Passwords.PadUser(password), hidden.value);
    Pap.MatchIffDeciphered(c, packet[20..], secret, random, expected);
  }
}
