/** PAP verification by re-encryption (section 5.2 of RFC 2865). */
module Pap {
  import opened Bytes
  import opened Attributes
  import opened Passwords

  const USER_PASSWORD: byte := 2
  const MAX_EXPECTED_LEN := 128

  datatype VerifyOutcome = Match | Mismatch | Missing | Malformed

  datatype PapError = Attribute(error: AttributeError) | MalformedPassword

  function Verify(c: Crypto, region: seq<byte>, secret: seq<byte>, auth: Digest, expected: seq<byte>)
    : (r: Result<VerifyOutcome, AttributeError>)
  {
    if |expected| > MAX_EXPECTED_LEN then Ok(Malformed)
    else
      match FirstRaw(region, USER_PASSWORD)
      case Err(e) => Err(e)
      case Ok(None) => Ok(Missing)
      case Ok(Some(raw)) =>
        if !UserLength(|raw.value|) then Ok(Malformed)
        else
          var expectedCt := UserCipher(c, expected, secret, auth);
          if |expectedCt| != |raw.value| then Ok(Mismatch)
          else if expectedCt == raw.value then Ok(Match)
          else Ok(Mismatch)
  }

  function DecryptUserPassword(c: Crypto, region: seq<byte>, secret: seq<byte>, auth: Digest)
    : (r: Result<Option<seq<byte>>, PapError>)
  {
    match FirstRaw(region, USER_PASSWORD)
    case Err(e) => Err(Attribute(e))
    case Ok(None) => Ok(None)
    case Ok(Some(raw)) =>
      match UserPlain(c, raw.value, secret, auth)
      case Err(_) => Err(MalformedPassword)
      case Ok(plain) => Ok(Some(plain))
  }

  /** Re-encryption matches exactly when full decryption would give the zero-padded expected
      password. */
  lemma MatchIffDeciphered(c: Crypto, region: seq<byte>, secret: seq<byte>, auth: Digest, expected: seq<byte>)
    ensures Verify(c, region, secret, auth, expected) == Ok(Match) <==>
            |expected| <= MAX_EXPECTED_LEN
            && FirstRaw(region, USER_PASSWORD).Ok? && FirstRaw(region, USER_PASSWORD).value.Some?
            && var ct := FirstRaw(region, USER_PASSWORD).value.value.value;
               UserLength(|ct|) && Decipher(c, secret, auth, ct) == PadUser(expected)
  {
    match FirstRaw(region, USER_PASSWORD)
    case Ok(Some(raw)) =>
      if UserLength(|raw.value|) {
        ChainIsBijection(c, secret, auth, PadUser(expected), raw.value);
      }
    case _ =>
  }

  /** Comparing with the decrypted password is weaker: it agrees with `Verify` exactly when the
      credential has the block count of the expected password. */
  lemma MatchIffDecryptsAndSameLength(c: Crypto, region: seq<byte>, secret: seq<byte>, auth: Digest,
                                      expected: seq<byte>)
    requires |expected| <= MAX_EXPECTED_LEN
    ensures Verify(c, region, secret, auth, expected) == Ok(Match) <==>
            DecryptUserPassword(c, region, secret, auth) == Ok(Some(TrimNuls(expected)))
            && |FirstRaw(region, USER_PASSWORD).value.value.value| == |PadUser(expected)|
  {
    MatchIffDeciphered(c, region, secret, auth, expected);
    match FirstRaw(region, USER_PASSWORD)
    case Ok(Some(raw)) =>
      if UserLength(|raw.value|) && |raw.value| == |PadUser(expected)| {
        var plain := Decipher(c, secret, auth, raw.value);
        TrimPadUser(expected);
        SameTrimSameLength(plain, PadUser(expected));
      }
    case _ =>
  }

  /** The other outcomes: an expected password over 128 octets is malformed before anything is looked
      at; a walk error comes through; without a credential it is missing; a credential of illegal
      length is malformed; everything else that does not match is a mismatch. */
  lemma VerifyOutcomes(c: Crypto, region: seq<byte>, secret: seq<byte>, auth: Digest, expected: seq<byte>)
    ensures var r, first := Verify(c, region, secret, auth, expected), FirstRaw(region, 2);
            (|expected| > 128 ==> r == Ok(Malformed))
            && (|expected| <= 128 ==>
                  (r.Err? <==> first.Err?) && (r.Err? ==> r.error == first.error)
                  && (r == Ok(Missing) <==> first == Ok(None))
                  && (r == Ok(Malformed) <==>
                        first.Ok? && first.value.Some?
                        && var n := |first.value.value.value|; n == 0 || n % 16 != 0 || n > 128))
  {
  }

  /** Decryption: the same cases, with the malformed credential as an error. */
  lemma DecryptOutcomes(c: Crypto, region: seq<byte>, secret: seq<byte>, auth: Digest)
    ensures var r, first := DecryptUserPassword(c, region, secret, auth), FirstRaw(region, 2);
            (first.Err? ==> r == Err(Attribute(first.error)))
            && (r == Ok(None) <==> first == Ok(None))
            && (r == Err(MalformedPassword) <==>
                  first.Ok? && first.value.Some?
                  && var n := |first.value.value.value|; n == 0 || n % 16 != 0 || n > 128)
  {
  }

  lemma SameTrimSameLength(s: seq<byte>, t: seq<byte>)
    requires |s| == |t|
    ensures TrimNuls(s) == TrimNuls(t) <==> s == t
  {
  }
}
