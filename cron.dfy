/**
 * The periodic logger (`scripts/log_2fa_cron.py`): reads the seed slot,
 * and prints one line: the timestamp and the current code, or an error.
 * The clock reading `now` and the already formatted UTC timestamp are
 * parameters; the printed line is the result.
 */
module Cron {
  import opened Wrappers
  import opened Text
  import opened Hex
  import Base32
  import opened SeedChannel
  import opened Totp
  import Api

  const SeedFileNotFound := "Error: /data/seed.txt not found"
  const SeedFileEmpty := "Error: seed file is empty"
  const CodeSeparator := " - 2FA Code: "

  /** The script's own copy of the hex-to-base32 conversion; it agrees with the API's for every input. */
  function HexToBase32(hexSeed: string): (r: Result<string, HexError>)
    ensures r == Totp.HexToBase32(hexSeed)
  {
    var seedBytes :- FromHex(hexSeed);
    Success(Base32.Encode(seedBytes))
  }

  /** `main`: the guards in order, then the code line; an exception is printed as "Error: " and its message. */
  function CronLine(hmac: HmacSha1, seedFile: Option<string>, now: nat, timestamp: string): (line: string)
    ensures seedFile.None? ==> line == SeedFileNotFound
    ensures seedFile.Some? && Strip(seedFile.value) == [] ==> line == SeedFileEmpty
    // otherwise the line carries the code the API would generate, or the hex decoding error
    ensures seedFile.Some? && Strip(seedFile.value) != [] ==>
              var g := GenerateTotpCode(hmac, Strip(seedFile.value), now);
              && (g.Success? ==> line == timestamp + CodeSeparator + g.value)
              && (g.Failure? ==> line == "Error: " + g.error.Message())
  {
    match seedFile
    case None => SeedFileNotFound
    case Some(text) =>
      var hexSeed := Strip(text);
      if hexSeed == [] then SeedFileEmpty
      else
        match HexToBase32(hexSeed)
        case Failure(e) => "Error: " + e.Message()
        case Success(base32Seed) => timestamp + CodeSeparator + TotpNow(hmac, base32Seed, now).value
  }

  /** With a valid seed stored, the logged code is a 6-digit code and the one generate-2fa returns at that instant. */
  lemma CronLogsApiCode(hmac: HmacSha1, seed: string, now: nat, timestamp: string)
    requires IsValidSeed(seed)
    ensures var gen := Api.Generate2fa(hmac, Some(seed), now);
            && gen.status == 200 && IsCode(gen.body.code)
            && CronLine(hmac, Some(seed), now, timestamp) == timestamp + CodeSeparator + gen.body.code
  {
    Api.ReadBackStoredSeed(seed);
    ValidSeedDecodes(seed);
  }

  /**
   * A seed file holding only whitespace: the script reports it empty, while
   * generate-2fa derives a code from the empty key.
   */
  lemma WhitespaceOnlySeedFile(hmac: HmacSha1, text: string, now: nat, timestamp: string)
    requires forall i :: 0 <= i < |text| ==> IsWhitespace(text[i])
    ensures CronLine(hmac, Some(text), now, timestamp) == SeedFileEmpty
    ensures Api.Generate2fa(hmac, Some(text), now).status == 200
  {
    assert Strip(text) == [];
    FromHexPlain([]);
  }
}
