/**
 * The HTTP endpoints (`main`): one seed slot (the file /data/seed.txt,
 * absent or holding a string) written by POST /decrypt-seed and read by
 * GET /generate-2fa and POST /verify-2fa. Responses are a status and a
 * JSON-like body; the clock reading `now` (whole seconds since the epoch)
 * and HMAC-SHA-1 are parameters.
 */
module Api {
  import opened Wrappers
  import opened Text
  import opened Hex
  import opened SeedChannel
  import opened Totp

  datatype Body =
    | StatusOk                               // {"status": "ok"}
    | CodeBody(code: string, validFor: int)  // {"code": ..., "valid_for": ...}
    | ValidBody(valid: bool)                 // {"valid": ...}
    | ErrorBody(error: string)               // {"error": ...}
    | InternalServerError                    // an exception no handler catches: the framework's plain 500

  datatype Response = Response(status: nat, body: Body)

  const DecryptionFailed := "Decryption failed"
  const SeedNotDecrypted := "Seed not decrypted yet"
  const MissingCode := "Missing code"

  /** Absent, or a valid seed: what the slot holds when only this service writes it. */
  predicate ValidSlot(seedFile: Option<string>) {
    seedFile.None? || IsValidSeed(seedFile.value)
  }

  /** `read_hex_seed`: None when the file does not exist, else its text with surrounding whitespace stripped. */
  function ReadHexSeed(seedFile: Option<string>): (r: Option<string>)
    ensures r.None? <==> seedFile.None?
    ensures r.Some? && r.value != [] ==> !IsWhitespace(r.value[0]) && !IsWhitespace(r.value[|r.value| - 1])
    ensures r.Some? ==> |r.value| <= |seedFile.value|
    // the file's text with surrounding whitespace removed
    ensures r.Some? ==> r.value == Strip(seedFile.value)
  {
    match seedFile
    case None => None
    case Some(text) => Some(Strip(text))
  }

  /** A stored seed reads back exactly as it was written. */
  lemma ReadBackStoredSeed(seed: string)
    requires IsValidSeed(seed)
    ensures ReadHexSeed(Some(seed)) == Some(seed)
  {
    StripKeepsTrimmed(seed);
  }

  /** `valid_for`: the seconds left in the current 30-second period. */
  function ValidFor(now: nat): (v: nat)
    ensures 1 <= v <= Period
    ensures (now + v) % Period == 0
    ensures TimeStep(now + v - 1) == TimeStep(now) && TimeStep(now + v) == TimeStep(now) + 1
  {
    Period - now % Period
  }

  /** GET /generate-2fa. */
  function Generate2fa(hmac: HmacSha1, seedFile: Option<string>, now: nat): (resp: Response)
    ensures seedFile.None? ==> resp == Response(500, ErrorBody(SeedNotDecrypted))
    ensures resp.status == 200 <==> resp.body.CodeBody?
    ensures resp.body.CodeBody? ==> IsCode(resp.body.code) && 1 <= resp.body.validFor <= Period
    // a code is returned exactly when the stored text hex-decodes, and it is the current TOTP code of that text
    ensures seedFile.Some? ==>
              var g := GenerateTotpCode(hmac, Strip(seedFile.value), now);
              && (resp.status == 200 <==> g.Success?)
              && (g.Success? ==> resp == Response(200, CodeBody(g.value, ValidFor(now))))
              // `bytes.fromhex` raises and the handler lets it escape
              && (g.Failure? ==> resp == Response(500, InternalServerError))
  {
    match ReadHexSeed(seedFile)
    case None => Response(500, ErrorBody(SeedNotDecrypted))
    case Some(hexSeed) =>
      match GenerateTotpCode(hmac, hexSeed, now)
      // `bytes.fromhex` raises and the handler lets it escape
      case Failure(_) => Response(500, InternalServerError)
      case Success(code) => Response(200, CodeBody(code, ValidFor(now)))
  }

  /** POST /verify-2fa; `body` is None when the request has no body, else the "code" field. */
  function Verify2fa(hmac: HmacSha1, seedFile: Option<string>, body: Option<string>, now: nat): (resp: Response)
    // a missing or empty code is refused before the seed is looked at
    ensures body.None? || body.value == [] ==> resp == Response(400, ErrorBody(MissingCode))
    // with a code but no seed, the answer is "not decrypted yet", never {"valid": false}
    ensures body.Some? && body.value != [] && seedFile.None? ==> resp == Response(500, ErrorBody(SeedNotDecrypted))
    ensures resp.status == 200 <==> resp.body.ValidBody?
    ensures resp.body.ValidBody? ==>
              && body.Some? && seedFile.Some?
              && VerifyTotpCode(hmac, Strip(seedFile.value), body.value, now, 1) == Success(resp.body.valid)
    // with a code and a seed file, the answer is whatever `verify_totp_code` returns, or the escaped hex error
    ensures body.Some? && body.value != [] && seedFile.Some? ==>
              var v := VerifyTotpCode(hmac, Strip(seedFile.value), body.value, now, 1);
              && (v.Success? ==> resp == Response(200, ValidBody(v.value)))
              && (v.Failure? ==> resp == Response(500, InternalServerError))
  {
    if body.None? || body.value == [] then Response(400, ErrorBody(MissingCode))
    else
      match ReadHexSeed(seedFile)
      case None => Response(500, ErrorBody(SeedNotDecrypted))
      case Some(hexSeed) =>
        match VerifyTotpCode(hmac, hexSeed, body.value, now, 1)
        case Failure(_) => Response(500, InternalServerError)
        case Success(isValid) => Response(200, ValidBody(isValid))
  }

  /** With a valid seed stored, generate-2fa answers 200 with the seed's current HOTP code and the seconds left. */
  lemma GenerateWithStoredSeed(hmac: HmacSha1, seed: string, now: nat)
    requires IsValidSeed(seed)
    ensures FromHex(seed).Success?
    ensures Generate2fa(hmac, Some(seed), now)
            == Response(200, CodeBody(Hotp(hmac, FromHex(seed).value, TimeStep(now)), Period - now % Period))
  {
    ReadBackStoredSeed(seed);
    ValidSeedDecodes(seed);
  }

  /**
   * With a valid seed stored, verify-2fa answers 200 with whether the code
   * is the seed's code for the previous, current or next period.
   */
  lemma VerifyWithStoredSeed(hmac: HmacSha1, seed: string, code: string, now: nat)
    requires IsValidSeed(seed) && code != []
    ensures FromHex(seed).Success?
    ensures Verify2fa(hmac, Some(seed), Some(code), now)
            == Response(200, ValidBody(InWindow(hmac, FromHex(seed).value, TimeStep(now), code, 1)))
  {
    ReadBackStoredSeed(seed);
    ValidSeedDecodes(seed);
  }

  /**
   * Provisioning then use: once an envelope decrypts to a seed and the seed
   * is stored, generate-2fa returns a 6-digit code with 1 to 30 seconds of
   * validity, and verify-2fa accepts that code at the same instant.
   */
  lemma ProvisionGenerateVerify(d: SeedDecryptor, envelope: string, hmac: HmacSha1, now: nat)
    requires DecryptSeed(d, envelope).Success?
    ensures var slot := Some(DecryptSeed(d, envelope).value);
            var gen := Generate2fa(hmac, slot, now);
            && gen.status == 200 && IsCode(gen.body.code) && 1 <= gen.body.validFor <= Period
            && Verify2fa(hmac, slot, Some(gen.body.code), now) == Response(200, ValidBody(true))
  {
    var seed := DecryptSeed(d, envelope).value;
    GenerateWithStoredSeed(hmac, seed, now);
    var key, step := FromHex(seed).value, TimeStep(now);
    var code := Hotp(hmac, key, step);
    VerifyWithStoredSeed(hmac, seed, code, now);
    assert MatchesAt(hmac, key, step, 0, code);
  }

  /** The seed slot, i.e. the file /data/seed.txt. */
  class SeedStore {
    var seedFile: Option<string>

    /** The slot as the service finds it at start-up. */
    constructor(existing: Option<string>)
      ensures seedFile == existing
    {
      seedFile := existing;
    }

    /**
     * POST /decrypt-seed. `key` is the loaded private key with the decoders
     * around it, None when loading it raised. Every failure gives the same
     * response and leaves the slot as it was; success replaces the slot.
     */
    method DecryptSeedEndpoint(key: Option<SeedDecryptor>, encryptedSeed: string) returns (resp: Response)
      modifies this
      ensures key.Some? && DecryptSeed(key.value, encryptedSeed).Success? ==>
                && seedFile == Some(DecryptSeed(key.value, encryptedSeed).value)
                && resp == Response(200, StatusOk)
      ensures key.None? || DecryptSeed(key.value, encryptedSeed).Failure? ==>
                && seedFile == old(seedFile)
                && resp == Response(500, ErrorBody(DecryptionFailed))
      ensures ValidSlot(old(seedFile)) ==> ValidSlot(seedFile)
    {
      if key.None? {
        return Response(500, ErrorBody(DecryptionFailed));
      }
      var decrypted := DecryptSeed(key.value, encryptedSeed);
      if decrypted.Failure? {
        return Response(500, ErrorBody(DecryptionFailed));
      }
      seedFile := Some(decrypted.value);
      resp := Response(200, StatusOk);
    }
  }

  /**
   * The service's life cycle on one seed file: POST /decrypt-seed with an
   * envelope that decrypts, then GET /generate-2fa, then POST /verify-2fa
   * with the code just generated, all at the same instant.
   */
  method ProvisionThenUse(store: SeedStore, d: SeedDecryptor, envelope: string, hmac: HmacSha1, now: nat)
    returns (stored: Response, gen: Response, ver: Response)
    requires DecryptSeed(d, envelope).Success?
    modifies store
    ensures store.seedFile == Some(DecryptSeed(d, envelope).value)
    ensures stored == Response(200, StatusOk)
    ensures gen.status == 200 && gen.body.CodeBody? && IsCode(gen.body.code) && 1 <= gen.body.validFor <= Period
    ensures ver == Response(200, ValidBody(true))
  {
    stored := store.DecryptSeedEndpoint(Some(d), envelope);
    gen := Generate2fa(hmac, store.seedFile, now);
    ProvisionGenerateVerify(d, envelope, hmac, now);
    ver := Verify2fa(hmac, store.seedFile, Some(gen.body.code), now);
  }
}
