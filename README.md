# pki-2fa in Dafny

A model of the core of pki-2fa, a small two-factor service. A 64-character
hex seed reaches the service encrypted. It is base64 text around an
RSA/OAEP ciphertext. `decrypt_seed` decrypts and validates it.
`POST /decrypt-seed` stores the seed in the seed file `/data/seed.txt`.

Two endpoints read the seed file:

- `GET /generate-2fa` returns the current 6-digit TOTP code and the seconds
  it stays valid.
- `POST /verify-2fa` says whether a submitted code belongs to the current
  30-second period or one next to it.

A cron script logs the current code once a minute.

## How it is modelled

- The three decoding steps of decryption are parameters, gathered in a
  `SeedDecryptor`: base64 decoding, OAEP decryption under the private key,
  and UTF-8 decoding. Each answers `None` where the library raises.
- HMAC-SHA-1 is a parameter as well: a total function from a key and a
  message to a 20-byte digest.
- The clock is a parameter `now`, in whole seconds since the epoch.
- The seed file is `Option<string>`: absent, or the file's text.
- The `/decrypt-seed` endpoint writes the seed file. It is a method of the
  class `Api.SeedStore`, which holds that slot as a field.
- The other endpoints only read the seed file, so they are functions of its
  contents and of `now`. A response is a status and a body datatype.

The operations themselves are modelled exactly, apart from the differences listed under "## Left out":

- **`bytes.fromhex`** (`Hex.FromHex`) follows CPython:
  - a string with a non-ASCII character is rejected at the first such
    character;
  - ASCII whitespace is skipped before each digit pair;
  - the error carries the offending index.
- **`base64.b32encode`** (`Base32.Encode`) is RFC 4648 section 6, defined bit
  by bit. A decoder (`Base32.Decode`) stands for the secret decoding the
  TOTP library does, and the round trip is proved.
- **The TOTP generator** is RFC 6238 section 4 over RFC 4226 section 5.3:
  - the counter is `now / 30`, written as 8 big-endian bytes;
  - the digest goes through dynamic truncation, modulo 10^6;
  - the result is zero-padded to 6 digits.
- **Verification with window `w`** tries the offsets `-w .. w` in turn
  (`Totp.ScanWindow`). A lemma (`Totp.ScanIsInWindow`) proves the scan equal
  to "some period within `w` of the current one has this code"
  (`Totp.InWindow`).

The module layout follows the program:

| module | file |
|---|---|
| `SeedChannel` | `decrypt_seed.py` |
| `Totp` | `totp_utils.py` |
| `Api` | `main.py` |
| `Cron` | `scripts/log_2fa_cron.py` |

`Numerals`, `Text`, `Hex` and `Base32` hold the library behaviour these
modules rely on.

## Model

| member | source | states |
|---|---|---|
| SeedChannel.DecryptSeed | decrypt_seed.py:23-74 | A returned seed is exactly the decrypted plaintext, 64 hex characters long. Success holds if and only if every decoding step succeeds and the plaintext is a valid seed. A failing step reports its own error. A wrong length is reported before non-hex characters. |
| SeedChannel.DecryptEncrypted | decrypt_seed.py:50-63 | Suppose base64 and UTF-8 decoding invert their encoders, and OAEP decryption recovers the seed's UTF-8 bytes whatever randomness OAEP padding used. Then decrypting the transport form of a valid seed returns that seed. |
| SeedChannel.OffByOneRejected | decrypt_seed.py:66-67 | All-hex plaintexts of 63 or 65 characters fail with the length error. |
| SeedChannel.NonHexRejected | decrypt_seed.py:70-71 | A 64-character plaintext that contains 'g' fails with the non-hex error. |
| Hex.FromHex | totp_utils.py:18 | `bytes.fromhex`: on success each byte takes two characters. On failure the error position is at most the length of the text. Below that length, the position points at a character that is not a hex digit; at the length, it reports an unpaired last digit. |
| Hex.FromHexToHex | totp_utils.py:18 | `bytes.fromhex` inverts `bytes.hex`: decoding the hex text of any byte string returns those bytes. |
| Hex.FromHexPlain | totp_utils.py:18 | On text without ASCII whitespace, `fromhex` succeeds if and only if the text is all hex digits and of even length. Byte i is then 16·digit(2i) + digit(2i+1). |
| Hex.FromHexCaseInsensitive | totp_utils.py:18 | Two texts that differ only in the case of ASCII letters decode identically, to the same bytes or the same error. |
| Base32.Encode | totp_utils.py:19-20 | The encoding is a multiple of 8 characters long, each character an alphabet symbol or '='. |
| Base32.DecodeEncode | totp_utils.py:19-20 | Base32-decoding the encoding of any byte string gives back exactly those bytes. |
| Base32.EncodeLength | totp_utils.py:19 | The encoding has 8 characters for each started group of 5 bytes. |
| Base32.EncodeSeedBytes | totp_utils.py:19-20 | 32 bytes encode to 56 characters: 52 symbols followed by "====". |
| Totp.HexToBase32 | totp_utils.py:9-20 | Succeeds exactly when `fromhex` does, with the same error otherwise. On success the result is well-formed base32 that decodes back to the hex-decoded bytes. |
| Totp.HexToBase32OfSeed | totp_utils.py:9-20 | A valid seed decodes to 32 key bytes and converts to a 56-character secret that ends in "====". |
| Totp.ValidSeedDecodes | totp_utils.py:18 | A valid 64-digit seed hex-decodes to exactly 32 bytes. |
| Totp.HexToBase32CaseInsensitive | totp_utils.py:18-20 | Upper- and lower-case spellings of a seed give the same secret. |
| Totp.CounterBytesValue | totp_utils.py:47 | The 8-byte big-endian counter message reads back as the counter, for every counter below 2^64. |
| Totp.DynamicTruncation | totp_utils.py:46-47 | The truncated value is below 2^31. It is the four digest bytes selected by the low nibble of byte 19, read big-endian with the top bit cleared. |
| Totp.Hotp | totp_utils.py:49-50 | A code is always exactly 6 decimal digits. |
| Totp.HotpDecimalValue | totp_utils.py:49-50 | Read as a number, the code equals the truncated digest modulo 10^6, so zero padding loses nothing. |
| Totp.TotpNow | totp_utils.py:47-50 | A TOTP generator on a base32 secret yields a code if and only if the secret decodes, and the code has 6 digits. |
| Totp.GenerateTotpCode | totp_utils.py:23-51 | Succeeds exactly when the seed hex-decodes, with the same error otherwise. The code is the HOTP value of the decoded key at counter `now / 30`, as 6 digits. |
| Totp.ScanWindow | totp_utils.py:79-80 | Scanning the offsets `lo..hi` finds a match if and only if some offset in the range passes the test. |
| Totp.ScanIsInWindow | totp_utils.py:79-80 | The window scan over `-w..w` equals the existence of a period within `w` of the counter whose code matches. |
| Totp.VerifyTotpCode | totp_utils.py:54-81 | Succeeds exactly when the seed hex-decodes, with the same error otherwise. On success the result is true if and only if some period within `valid_window` of the current one has the given code. |
| Totp.SamePeriodSameCode | totp_utils.py:47-50 | Two instants in the same 30-second period produce the same code. |
| Totp.VerifyWithinDrift | totp_utils.py:61-62 | A code generated at one instant verifies, with the default window of 1, at any instant less than 30 seconds away. |
| Totp.KeyWithinDrift | totp_utils.py:61-62 | The code of one instant lies in the window of 1 around any instant less than one period away. |
| Totp.VerifyOwnCode | totp_utils.py:107-109 | The code generated at an instant verifies at that instant, for every window of 0 or more. |
| Totp.WindowZeroIsExact | totp_utils.py:79-80 | With window 0, verification is true exactly when the code equals the current period's code. |
| Totp.NegativeWindowRejects | totp_utils.py:79-80 | A negative window is an empty range of offsets, so nothing verifies. |
| Numerals.FixedDecimalValue | totp_utils.py:49-50 | A number below 10^width, zero-padded to `width` digits, reads back as that number. |
| Text.Strip | main.py:39 | `str.strip`: the result is a contiguous slice of the input with no whitespace at either end. It is empty if and only if the input is all whitespace. |
| Text.StripKeepsTrimmed | main.py:39 | Stripping text that has no whitespace at either end changes nothing. |
| Api.ReadHexSeed | main.py:30-39 | `read_hex_seed` gives None exactly when the seed file is absent. Otherwise it gives the file's text with surrounding whitespace stripped: `Text.Strip` of the text, which has no whitespace at either end and is no longer than the file. |
| Api.ReadBackStoredSeed | main.py:30-39 | A stored valid seed reads back exactly as written. |
| Api.ValidFor | main.py:103 | `valid_for` is between 1 and 30. The current period ends exactly after it: `now + valid_for - 1` is still in the period and `now + valid_for` is in the next. |
| Api.Generate2fa | main.py:83-105 | With no seed file: 500, "Seed not decrypted yet". Otherwise 200 holds if and only if the stripped text hex-decodes. The body is then that text's current TOTP code, 6 digits, with `valid_for` equal to `ValidFor(now)` (1 to 30 seconds). A hex error escapes as a plain 500. |
| Api.Verify2fa | main.py:110-145 | A missing or empty code gets 400 before the seed file is read. A code without a seed file gets 500 "Seed not decrypted yet". Once a code and a seed file exist, the answer is 200 carrying exactly the result of `verify_totp_code` with window 1 on the stripped seed text. If that call raises a hex error, the answer is a plain 500. |
| Api.GenerateWithStoredSeed | main.py:92-105 | With a valid seed stored, generate-2fa answers 200 with the seed's HOTP code at `now / 30` and `30 - now % 30` seconds. |
| Api.VerifyWithStoredSeed | main.py:134-145 | With a valid seed stored, verify-2fa answers 200 with whether the code belongs to the previous, current or next period. |
| Api.ProvisionGenerateVerify | main.py:56-145 | Once a decrypted seed is stored, generate-2fa returns a 6-digit code with 1 to 30 seconds left, and verify-2fa accepts that code at the same instant. |
| Api.ProvisionThenUse | main.py:44-145 | On one seed file: /decrypt-seed with an envelope that decrypts stores the seed and answers 200. /generate-2fa then answers 200 with a 6-digit code and 1 to 30 seconds left. /verify-2fa then accepts that code at the same instant. |
| Api.SeedStore.constructor | main.py:15 | The seed file starts as found. |
| Api.SeedStore.DecryptSeedEndpoint | main.py:44-78 | If the key loads and decryption succeeds, the seed file holds the seed and the answer is 200 `{"status": "ok"}`. Any failure leaves the file unchanged and answers 500 "Decryption failed". A seed file that is absent or holds a valid seed stays that way. |
| Cron.HexToBase32 | scripts/log_2fa_cron.py:14-17 | The script's own conversion agrees with the API's on every input. |
| Cron.CronLine | scripts/log_2fa_cron.py:20-48 | The guards run in order: a missing file, then empty stripped text. Otherwise the line is the timestamp, " - 2FA Code: " and the code the API would generate, or "Error: " and the `fromhex` message. |
| Cron.CronLogsApiCode | scripts/log_2fa_cron.py:34-44 | With a valid seed stored, the logged code is the 6-digit code that generate-2fa returns at the same instant. |
| Cron.WhitespaceOnlySeedFile | scripts/log_2fa_cron.py:27-32 | A seed file of only whitespace: the script reports "seed file is empty", while generate-2fa answers 200 with a code derived from the empty key. |

## Left out

- The private key is loaded from PEM by `load_student_private_key`. That loading and the RSA/OAEP, base64 and UTF-8 primitives are parameters: the model cannot look inside them.
- HMAC-SHA-1 is a parameter. So no concrete RFC 6238 test vector can be proved, and neither can the fact that a code is rejected one period after it is generated with window 0.
- Reading the clock, file I/O and printing are not modelled. One clock reading `now` serves both the code and `valid_for`; the service reads the clock twice. Creating the data directory, newline translation and the formatting of the UTC timestamp are not modelled either; the cron line takes the formatted timestamp as a parameter.
- Failed writes of the seed file are not modelled. `open(DATA_PATH, "w")` (main.py:67) truncates the file before writing, so a write that fails part-way leaves the file empty or partial. It does not leave the file as it was, and no input of the model stands for that case.
- Request bodies are not validated by the model. That happens in the web framework, which answers 422 to a malformed body before any handler runs. `Verify2fa` receives the "code" field, or None when there is no body.
- `Api.SeedStore.DecryptSeedEndpoint`: a key that cannot be loaded (`key` is None) and a failing decryption are the failures modelled; both answer as the handler's catch-all does. A failed write is not among them (see above).
- `Totp.VerifyTotpCode`: a period before the epoch (counter below zero), reachable whenever `now < 30 * valid_window` (for example window 2 at `now = 45` reaches period -1), counts as no match. The TOTP library raises there.
- `Totp.Hotp`: the model writes the counter in exactly 8 bytes, so in the model counters of 2^64 and above wrap. The TOTP library pads the counter to at least 8 bytes and never truncates it. No clock reaches such counters, and `Totp.CounterBytesValue` is stated below that bound.
- `Totp.VerifyTotpCode`: the library compares the codes after Unicode normalisation and in constant time. The model compares strings directly, so timing is not modelled.
- `Base32.Decode` models only the decoding of well-formed padded base32, the only kind `Encode` produces. The library's case folding and its handling of malformed secrets are not modelled.
- `Hex.HexError.Message` is the wording of Python 3.11. Some other Python versions word the odd-length error differently.
- Concurrent requests and atomicity of the seed-file write are not modelled.
- The `__main__` runners of `decrypt_seed.py` and `totp_utils.py` are not modelled. Their checks appear as `Totp.VerifyOwnCode`.
- `request_seed.py`, `commit_proof.py` and `sign_commit.py` are not part of this model. They cover seed request and commit attestation, which sit outside the 2FA service.
