/**
 * Decryption and validation of the delivered seed (`decrypt_seed`).
 *
 * The three decoding steps are primitives of libraries outside this model,
 * so they are parameters: base64 decoding (RFC 4648 section 4), RSAES-OAEP
 * decryption under the loaded private key (RFC 8017 section 7.1.2, SHA-256,
 * MGF1 with SHA-256, empty label) and UTF-8 decoding. Each answers None
 * where the library raises.
 */
module SeedChannel {
  import opened Wrappers
  import opened Numerals
  import opened Hex

  datatype SeedDecryptor = SeedDecryptor(
    base64Decode: string -> Option<seq<byte>>,
    oaepDecrypt: seq<byte> -> Option<seq<byte>>,
    utf8Decode: seq<byte> -> Option<string>)

  /** Why a seed was refused: one tag per exception `decrypt_seed` lets escape. */
  datatype SeedError =
    | Base64Error       // `binascii.Error` from `b64decode`
    | DecryptionError   // `ValueError` from the OAEP decryption
    | Utf8Error         // `UnicodeDecodeError`
    | WrongLength       // "Decrypted seed must be 64 characters long"
    | NotHex            // "Decrypted seed must contain only hex characters"

  const SeedLength: nat := 64

  /** A seed as stored and used: exactly 64 characters, each in `0-9a-fA-F`. */
  predicate IsValidSeed(s: string) {
    |s| == SeedLength && IsHexString(s)
  }

  /** The text the three decoding steps produce, when none of them fails. */
  function Plaintext(d: SeedDecryptor, encryptedSeedB64: string): Option<string>
  {
    var ciphertext :- d.base64Decode(encryptedSeedB64);
    var plaintextBytes :- d.oaepDecrypt(ciphertext);
    d.utf8Decode(plaintextBytes)
  }

  /**
   * `decrypt_seed`: decode, decrypt, decode, then check the length and
   * then the characters.
   */
  function DecryptSeed(d: SeedDecryptor, encryptedSeedB64: string): (r: Result<string, SeedError>)
    // a returned seed is always well-formed, and it is the plaintext exactly (no trimming, no case change)
    ensures r.Success? ==> IsValidSeed(r.value) && Plaintext(d, encryptedSeedB64) == Some(r.value)
    // success if and only if every step succeeds and the plaintext is a valid seed
    ensures var pt := Plaintext(d, encryptedSeedB64);
            r.Success? <==> pt.Some? && IsValidSeed(pt.value)
    // a failing decoding step is reported as that step's own error
    ensures d.base64Decode(encryptedSeedB64).None? ==> r == Failure(Base64Error)
    ensures var ct := d.base64Decode(encryptedSeedB64);
            ct.Some? && d.oaepDecrypt(ct.value).None? ==> r == Failure(DecryptionError)
    ensures var ct := d.base64Decode(encryptedSeedB64);
            && ct.Some? && d.oaepDecrypt(ct.value).Some?
            && d.utf8Decode(d.oaepDecrypt(ct.value).value).None?
            ==> r == Failure(Utf8Error)
    // the length is checked before the characters
    ensures var pt := Plaintext(d, encryptedSeedB64);
            pt.Some? && |pt.value| != SeedLength ==> r == Failure(WrongLength)
    ensures var pt := Plaintext(d, encryptedSeedB64);
            pt.Some? && |pt.value| == SeedLength && !IsHexString(pt.value) ==> r == Failure(NotHex)
  {
    match d.base64Decode(encryptedSeedB64)
    case None => Failure(Base64Error)
    case Some(ciphertext) =>
      match d.oaepDecrypt(ciphertext)
      case None => Failure(DecryptionError)
      case Some(plaintextBytes) =>
        match d.utf8Decode(plaintextBytes)
        case None => Failure(Utf8Error)
        case Some(hexSeed) =>
          if |hexSeed| != SeedLength then Failure(WrongLength)
          else if !IsHexString(hexSeed) then Failure(NotHex)
          else Success(hexSeed)
  }

  /**
   * Round trip: when the decoders invert their encoders (base64, UTF-8, and
   * OAEP encryption of this seed's bytes under the matching public key for
   * every choice of its random padding), decrypting the transport form of an encrypted valid
   * seed gives that seed back.
   */
  lemma DecryptEncrypted(
    d: SeedDecryptor,
    base64Encode: seq<byte> -> string,
    oaepEncrypt: (nat, seq<byte>) -> seq<byte>,
    utf8Encode: string -> seq<byte>,
    randomness: nat,
    seed: string)
    requires forall c :: d.base64Decode(base64Encode(c)) == Some(c)
    requires forall r :: d.oaepDecrypt(oaepEncrypt(r, utf8Encode(seed))) == Some(utf8Encode(seed))
    requires forall s :: d.utf8Decode(utf8Encode(s)) == Some(s)
    requires IsValidSeed(seed)
    ensures DecryptSeed(d, base64Encode(oaepEncrypt(randomness, utf8Encode(seed)))) == Success(seed)
  {
  }

  /** All-hex plaintexts of 63 and 65 characters are refused for their length. */
  lemma OffByOneRejected(d: SeedDecryptor, envelope: string, plaintext: string)
    requires Plaintext(d, envelope) == Some(plaintext)
    requires IsHexString(plaintext) && (|plaintext| == 63 || |plaintext| == 65)
    ensures DecryptSeed(d, envelope) == Failure(WrongLength)
  {
  }

  /** A 64-character plaintext with a 'g' in it is refused as non-hex. */
  lemma NonHexRejected(d: SeedDecryptor, envelope: string, plaintext: string, i: nat)
    requires |plaintext| == SeedLength && i < SeedLength && plaintext[i] == 'g'
    requires Plaintext(d, envelope) == Some(plaintext)
    ensures DecryptSeed(d, envelope) == Failure(NotHex)
  {
  }
}
