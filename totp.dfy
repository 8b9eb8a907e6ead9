/**
 * TOTP codes from a hex seed (`totp_utils`): the seed goes hex -> bytes ->
 * base32, and the base32 secret is handed to a TOTP generator configured
 * with SHA-1, a 30-second period and 6 digits. The generator is the one of
 * RFC 6238 section 4: HOTP (RFC 4226 section 5.3) over the counter
 * floor(now / 30). HMAC-SHA-1 itself is a parameter.
 */
module Totp {
  import opened Wrappers
  import opened Numerals
  import opened Hex
  import Base32
  import opened SeedChannel

  /** An HMAC-SHA-1 output: 20 bytes. */
  type Digest = d: seq<byte> | |d| == 20 witness seq(20, _ => 0)

  /** HMAC-SHA-1 (key, message). */
  type HmacSha1 = (seq<byte>, seq<byte>) -> Digest

  const Period: nat := 30
  const CodeDigits: nat := 6
  const CodeModulus: nat := 1_000_000

  /** A code as the generator renders it: exactly 6 decimal digits. */
  predicate IsCode(s: string) {
    |s| == CodeDigits && forall i :: 0 <= i < |s| ==> IsDecimalDigit(s[i])
  }

  /** The TOTP counter: whole periods since the Unix epoch. */
  function TimeStep(now: nat): nat {
    now / Period
  }

  /** The counter as the HMAC message: 8 bytes, big-endian. */
  function CounterBytes(counter: nat): (b: seq<byte>)
    ensures |b| == 8
  {
    Digits(counter, 256, 8)
  }

  /** The 8 counter bytes read back big-endian give the counter, for every counter below 2^64. */
  lemma CounterBytesValue(counter: nat)
    requires counter < Pow(256, 8)
    ensures Value(CounterBytes(counter), 256) == counter
  {
    ValueOfDigits(counter, 256, 8);
  }

  /**
   * Dynamic truncation (RFC 4226 section 5.3): the low nibble of the last
   * digest byte selects four bytes, read big-endian with the top bit cleared.
   */
  function DynamicTruncation(d: Digest): (p: nat)
    ensures p < 0x8000_0000
    ensures var offset := d[19] % 16;
            p == Value([d[offset] % 128, d[offset + 1], d[offset + 2], d[offset + 3]], 256)
  {
    var offset := d[19] % 16;  // digest[19] & 0x0F
    var b0: nat, b1: nat, b2: nat, b3: nat := d[offset] % 128, d[offset + 1], d[offset + 2], d[offset + 3];
    assert Value([b0, b1, b2, b3], 256) == ((b0 * 256 + b1) * 256 + b2) * 256 + b3 by {
      assert [b0, b1, b2, b3][..3] == [b0, b1, b2];
      assert [b0, b1, b2][..2] == [b0, b1];
      assert [b0, b1][..1] == [b0];
      assert [b0][..0] == [];
      assert Value([b0], 256) == b0;
      assert Value([b0, b1], 256) == b0 * 256 + b1;
      assert Value([b0, b1, b2], 256) == (b0 * 256 + b1) * 256 + b2;
    }
    0x100_0000 * b0 + 0x1_0000 * b1 + 0x100 * b2 + b3
  }

  /** HOTP value of a key and counter, as a 6-digit zero-padded string. */
  function Hotp(hmac: HmacSha1, key: seq<byte>, counter: nat): (code: string)
    ensures IsCode(code)
  {
    FixedDecimal(DynamicTruncation(hmac(key, CounterBytes(counter))) % CodeModulus, CodeDigits)
  }

  /** Read as a decimal number, the code is the truncated digest modulo 10^6: zero padding loses nothing. */
  lemma HotpDecimalValue(hmac: HmacSha1, key: seq<byte>, counter: nat)
    ensures DecimalValue(Hotp(hmac, key, counter))
            == DynamicTruncation(hmac(key, CounterBytes(counter))) % CodeModulus
  {
    assert Pow(10, 6) == CodeModulus;
    FixedDecimalValue(DynamicTruncation(hmac(key, CounterBytes(counter))) % CodeModulus, CodeDigits);
  }

  /** `_hex_to_base32`: `bytes.fromhex`, then `base64.b32encode`. */
  function HexToBase32(hexSeed: string): (r: Result<string, HexError>)
    ensures r.Success? <==> FromHex(hexSeed).Success?
    ensures r.Failure? ==> r.error == FromHex(hexSeed).error
    // base32-decoding the result gives back exactly the hex-decoded bytes
    ensures r.Success? ==> Base32.Decode(r.value) == Some(FromHex(hexSeed).value)
    ensures r.Success? ==> |r.value| % 8 == 0
                           && forall i :: 0 <= i < |r.value| ==> Base32.IsSymbol(r.value[i]) || r.value[i] == '='
  {
    var seedBytes :- FromHex(hexSeed);
    Base32.DecodeEncode(seedBytes);
    Success(Base32.Encode(seedBytes))
  }

  /** A valid seed (64 hex digits) gives 32 key bytes and a 56-character secret ending in "====". */
  lemma HexToBase32OfSeed(seed: string)
    requires IsValidSeed(seed)
    ensures FromHex(seed).Success? && |FromHex(seed).value| == 32
    ensures var r := HexToBase32(seed);
            r.Success? && |r.value| == 56 && r.value[52..] == "===="
  {
    ValidSeedDecodes(seed);
    Base32.EncodeSeedBytes(FromHex(seed).value);
  }

  /** A valid seed hex-decodes to 32 bytes. */
  lemma ValidSeedDecodes(seed: string)
    requires IsValidSeed(seed)
    ensures FromHex(seed).Success? && |FromHex(seed).value| == 32
  {
    FromHexPlain(seed);
  }

  /** Upper- and lower-case spellings of a seed give the same base32 secret. */
  lemma HexToBase32CaseInsensitive(s: string, t: string)
    requires SameUpToCase(s, t)
    ensures HexToBase32(s) == HexToBase32(t)
  {
    FromHexCaseInsensitive(s, t);
  }

  /** The current code of a TOTP generator built on a base32 secret (6 digits, 30 s, SHA-1); None if the secret does not decode. */
  function TotpNow(hmac: HmacSha1, base32Secret: string, now: nat): (r: Option<string>)
    ensures r.Some? <==> Base32.Decode(base32Secret).Some?
    ensures r.Some? ==> IsCode(r.value)
  {
    var key :- Base32.Decode(base32Secret);
    Some(Hotp(hmac, key, TimeStep(now)))
  }

  /** `generate_totp_code`: the code of the current period. */
  function GenerateTotpCode(hmac: HmacSha1, hexSeed: string, now: nat): (r: Result<string, HexError>)
    ensures r.Success? <==> FromHex(hexSeed).Success?
    ensures r.Failure? ==> r.error == FromHex(hexSeed).error
    // the HOTP value of the hex-decoded seed at the current counter, as 6 digits
    ensures r.Success? ==> IsCode(r.value) && r.value == Hotp(hmac, FromHex(hexSeed).value, TimeStep(now))
  {
    var base32Seed :- HexToBase32(hexSeed);
    Success(TotpNow(hmac, base32Seed, now).value)
  }

  /** The code for period `counter + offset` equals `code` (there is no period before the epoch). */
  predicate MatchesAt(hmac: HmacSha1, key: seq<byte>, counter: nat, offset: int, code: string) {
    counter + offset >= 0 && Hotp(hmac, key, counter + offset) == code
  }

  /** Tries the offsets `lo`, `lo + 1`, ..., `hi` in turn; true at the first one that passes `test`. */
  function ScanWindow(test: int -> bool, lo: int, hi: int): (found: bool)
    ensures found <==> exists k :: lo <= k <= hi && test(k)
    decreases if lo > hi then 0 else hi - lo + 1
  {
    if lo > hi then false
    else test(lo) || ScanWindow(test, lo + 1, hi)
  }

  /** The test `verify` applies to each offset of the window. */
  function OffsetTest(hmac: HmacSha1, key: seq<byte>, counter: nat, code: string): int -> bool {
    k => MatchesAt(hmac, key, counter, k, code)
  }

  /** Some period within `window` periods of `counter` has `code` as its code. */
  predicate InWindow(hmac: HmacSha1, key: seq<byte>, counter: nat, code: string, window: int) {
    exists k :: -window <= k <= window && MatchesAt(hmac, key, counter, k, code)
  }

  lemma ScanIsInWindow(hmac: HmacSha1, key: seq<byte>, counter: nat, code: string, window: int)
    ensures ScanWindow(OffsetTest(hmac, key, counter, code), -window, window)
            == InWindow(hmac, key, counter, code, window)
  {
    var test := OffsetTest(hmac, key, counter, code);
    if ScanWindow(test, -window, window) {
      var k :| -window <= k <= window && test(k);
      assert MatchesAt(hmac, key, counter, k, code);
    } else {
      forall k | -window <= k <= window
        ensures !MatchesAt(hmac, key, counter, k, code)
      {
        assert !test(k);
      }
    }
  }

  /**
   * `verify_totp_code`: true when the candidate equals the code of one of
   * the periods current - validWindow .. current + validWindow.
   */
  function VerifyTotpCode(hmac: HmacSha1, hexSeed: string, code: string, now: nat, validWindow: int)
    : (r: Result<bool, HexError>)
    ensures r.Success? <==> FromHex(hexSeed).Success?
    ensures r.Failure? ==> r.error == FromHex(hexSeed).error
    ensures r.Success? ==> r.value == InWindow(hmac, FromHex(hexSeed).value, TimeStep(now), code, validWindow)
  {
    var base32Seed :- HexToBase32(hexSeed);
    var key := Base32.Decode(base32Seed).value;
    ScanIsInWindow(hmac, key, TimeStep(now), code, validWindow);
    Success(ScanWindow(OffsetTest(hmac, key, TimeStep(now), code), -validWindow, validWindow))
  }

  /** Two instants in the same 30-second period give the same code. */
  lemma SamePeriodSameCode(hmac: HmacSha1, hexSeed: string, t1: nat, t2: nat)
    requires t1 / Period == t2 / Period
    ensures GenerateTotpCode(hmac, hexSeed, t1) == GenerateTotpCode(hmac, hexSeed, t2)
  {
  }

  /** A code generated at some instant verifies at an instant less than one period away, with the default window of 1. */
  lemma {:induction false} VerifyWithinDrift(hmac: HmacSha1, hexSeed: string, code: string, generatedAt: nat, checkedAt: nat)
    requires GenerateTotpCode(hmac, hexSeed, generatedAt) == Success(code)
    requires checkedAt < generatedAt + Period && generatedAt < checkedAt + Period
    ensures VerifyTotpCode(hmac, hexSeed, code, checkedAt, 1) == Success(true)
  {
    KeyWithinDrift(hmac, FromHex(hexSeed).value, generatedAt, checkedAt);
  }

  /** The code of one instant is in the window of 1 around any instant less than one period away. */
  lemma KeyWithinDrift(hmac: HmacSha1, key: seq<byte>, generatedAt: nat, checkedAt: nat)
    requires checkedAt < generatedAt + Period && generatedAt < checkedAt + Period
    ensures InWindow(hmac, key, TimeStep(checkedAt), Hotp(hmac, key, TimeStep(generatedAt)), 1)
  {
    var step, other := TimeStep(checkedAt), TimeStep(generatedAt);
    StepsWithinOne(generatedAt, checkedAt);
    assert MatchesAt(hmac, key, step, other as int - step, Hotp(hmac, key, other));
  }

  lemma StepsWithinOne(t1: nat, t2: nat)
    requires t2 < t1 + Period && t1 < t2 + Period
    ensures -1 <= TimeStep(t1) - TimeStep(t2) <= 1
  {
  }

  /** Verifying the code generated at the same instant succeeds for every window of 0 or more. */
  lemma {:induction false} VerifyOwnCode(hmac: HmacSha1, hexSeed: string, now: nat, validWindow: int)
    requires GenerateTotpCode(hmac, hexSeed, now).Success?
    requires validWindow >= 0
    ensures VerifyTotpCode(hmac, hexSeed, GenerateTotpCode(hmac, hexSeed, now).value, now, validWindow) == Success(true)
  {
    var code := GenerateTotpCode(hmac, hexSeed, now).value;
    assert MatchesAt(hmac, FromHex(hexSeed).value, TimeStep(now), 0, code);
  }

  /** With window 0 only the current period's code is accepted. */
  lemma WindowZeroIsExact(hmac: HmacSha1, hexSeed: string, code: string, now: nat)
    requires FromHex(hexSeed).Success?
    ensures VerifyTotpCode(hmac, hexSeed, code, now, 0)
            == Success(code == GenerateTotpCode(hmac, hexSeed, now).value)
  {
    var key := FromHex(hexSeed).value;
    if VerifyTotpCode(hmac, hexSeed, code, now, 0).value {
      var k :| -0 <= k <= 0 && MatchesAt(hmac, key, TimeStep(now), k, code);
      assert k == 0;
    } else {
      assert !MatchesAt(hmac, key, TimeStep(now), 0, code);
    }
  }

  /** A negative window is an empty range of offsets: nothing verifies. */
  lemma NegativeWindowRejects(hmac: HmacSha1, hexSeed: string, code: string, now: nat, validWindow: int)
    requires FromHex(hexSeed).Success? && validWindow < 0
    ensures VerifyTotpCode(hmac, hexSeed, code, now, validWindow) == Success(false)
  {
  }
}
