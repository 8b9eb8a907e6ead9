/**
 * Hexadecimal text and bytes: Python's `bytes.fromhex` (base16 of
 * RFC 4648 section 8, with ASCII whitespace allowed between byte pairs)
 * and its inverse `bytes.hex`.
 */
module Hex {
  import opened Wrappers
  import opened Numerals
  import opened Text

  /** Membership in Python's `string.hexdigits`, "0123456789abcdefABCDEF". */
  predicate IsHexDigit(c: char) {
    ('0' <= c <= '9') || ('a' <= c <= 'f') || ('A' <= c <= 'F')
  }

  predicate IsHexString(s: string) {
    forall i :: 0 <= i < |s| ==> IsHexDigit(s[i])
  }

  function HexValue(c: char): (v: nat)
    requires IsHexDigit(c)
    ensures v < 16
  {
    if c <= '9' then c as int - '0' as int
    else if c <= 'F' then c as int - 'A' as int + 10
    else c as int - 'a' as int + 10
  }

  /** Lower-case hexadecimal digit for a nibble. */
  function HexChar(v: nat): (c: char)
    requires v < 16
    ensures IsHexDigit(c) && HexValue(c) == v
  {
    if v < 10 then ('0' as int + v) as char else ('a' as int + v - 10) as char
  }

  /** ASCII lower-casing, the only case mapping that matters to hex digits. */
  function AsciiLower(c: char): (d: char)
    ensures (c as int < 128) <==> (d as int < 128)
  {
    if 'A' <= c <= 'Z' then (c as int + 32) as char else c
  }

  /** The `ValueError` `bytes.fromhex` raises, with the index of the offending character. */
  datatype HexError = NonHexadecimal(position: nat) {
    function Message(): string {
      "non-hexadecimal number found in fromhex() arg at position " + DecimalString(position)
    }
  }

  /** Index of the first non-ASCII character at or after `i`, or `|s|`. */
  function FirstNonAscii(s: string, i: nat): (k: nat)
    requires i <= |s|
    ensures i <= k <= |s|
    ensures forall m :: i <= m < k ==> s[m] as int < 128
    ensures k < |s| ==> s[k] as int >= 128
    decreases |s| - i
  {
    if i == |s| || s[i] as int >= 128 then i else FirstNonAscii(s, i + 1)
  }

  /**
   * Python's `bytes.fromhex(s)`: a string holding a non-ASCII character is
   * rejected at the first one; otherwise pairs of hex digits are read left
   * to right, skipping ASCII whitespace before each pair.
   */
  function FromHex(s: string): (r: Result<seq<byte>, HexError>)
    // every byte takes two characters
    ensures r.Success? ==> 2 * |r.value| <= |s|
    // the error points at a character that is not a hex digit, or just past the end (an unpaired digit)
    ensures r.Failure? ==> r.error.position <= |s|
    ensures r.Failure? && r.error.position < |s| ==> !IsHexDigit(s[r.error.position])
    ensures r.Failure? && r.error.position == |s| ==> |s| > 0 && IsHexDigit(s[|s| - 1])
  {
    var k := FirstNonAscii(s, 0);
    if k < |s| then Failure(NonHexadecimal(k)) else FromHexFrom(s, 0)
  }

  function FromHexFrom(s: string, i: nat): (r: Result<seq<byte>, HexError>)
    requires i <= |s|
    ensures r.Success? ==> 2 * |r.value| <= |s| - i
    ensures r.Failure? ==> i <= r.error.position <= |s|
    ensures r.Failure? && r.error.position < |s| ==> !IsHexDigit(s[r.error.position])
    ensures r.Failure? && r.error.position == |s| ==> |s| > 0 && IsHexDigit(s[|s| - 1])
    decreases |s| - i
  {
    if i == |s| then Success([])
    else if IsAsciiSpace(s[i]) then FromHexFrom(s, i + 1)
    else if !IsHexDigit(s[i]) then Failure(NonHexadecimal(i))
    // the second digit of a pair is missing (end of string) or not a hex digit
    else if i + 1 == |s| || !IsHexDigit(s[i + 1]) then Failure(NonHexadecimal(i + 1))
    else
      var rest :- FromHexFrom(s, i + 2);
      Success([16 * HexValue(s[i]) + HexValue(s[i + 1])] + rest)
  }

  /** Python's `bytes.hex()`: two lower-case hex digits per byte. */
  function ToHex(bytes: seq<byte>): (s: string)
    ensures |s| == 2 * |bytes| && IsHexString(s)
  {
    if bytes == [] then []
    else [HexChar(bytes[0] / 16), HexChar(bytes[0] % 16)] + ToHex(bytes[1..])
  }

  lemma {:induction false} FromHexFromToHex(bytes: seq<byte>, i: nat)
    requires i <= |bytes|
    ensures FromHexFrom(ToHex(bytes), 2 * i) == Success(bytes[i..])
    decreases |bytes| - i
  {
    var s := ToHex(bytes);
    if i < |bytes| {
      ToHexAt(bytes, i);
      FromHexFromToHex(bytes, i + 1);
      var hi, lo := s[2 * i], s[2 * i + 1];
      assert !IsAsciiSpace(hi) && IsHexDigit(hi) && IsHexDigit(lo);
      assert 16 * HexValue(hi) + HexValue(lo) == bytes[i];
      assert 2 * (i + 1) == 2 * i + 2;
      assert FromHexFrom(s, 2 * i) == Success([bytes[i]] + bytes[i + 1..]);
      assert bytes[i..] == [bytes[i]] + bytes[i + 1..];
    } else {
      assert 2 * i == |s| && bytes[i..] == [];
    }
  }

  lemma {:induction false} ToHexAt(bytes: seq<byte>, i: nat)
    requires i < |bytes|
    ensures ToHex(bytes)[2 * i] == HexChar(bytes[i] / 16)
    ensures ToHex(bytes)[2 * i + 1] == HexChar(bytes[i] % 16)
  {
    if i > 0 {
      ToHexAt(bytes[1..], i - 1);
    }
  }

  /** Decoding the hex text of any byte string gives the byte string back. */
  lemma FromHexToHex(bytes: seq<byte>)
    ensures FromHex(ToHex(bytes)) == Success(bytes)
  {
    FromHexFromToHex(bytes, 0);
  }

  /**
   * Without whitespace, `fromhex` succeeds exactly on an even number of hex
   * digits, and then byte `i` is the value of digits `2i` and `2i + 1`.
   */
  lemma {:induction false} FromHexFromPlain(s: string, i: nat)
    requires i <= |s| && (|s| - i) % 2 == 0
    requires forall m :: i <= m < |s| ==> !IsAsciiSpace(s[m])
    ensures FromHexFrom(s, i).Success? <==> forall m :: i <= m < |s| ==> IsHexDigit(s[m])
    ensures FromHexFrom(s, i).Success? ==>
              var b := FromHexFrom(s, i).value;
              && |b| == (|s| - i) / 2
              && forall k :: 0 <= k < |b| ==> b[k] == 16 * HexValue(s[i + 2 * k]) + HexValue(s[i + 2 * k + 1])
    decreases |s| - i
  {
    if i < |s| {
      FromHexFromPlain(s, i + 2);
    }
  }

  lemma {:induction false} FromHexFromOdd(s: string, i: nat)
    requires i <= |s| && (|s| - i) % 2 == 1
    requires forall m :: i <= m < |s| ==> !IsAsciiSpace(s[m])
    ensures FromHexFrom(s, i).Failure?
    decreases |s| - i
  {
    if i + 1 < |s| {
      FromHexFromOdd(s, i + 2);
    }
  }

  predicate NoAsciiSpace(s: string) {
    forall m :: 0 <= m < |s| ==> !IsAsciiSpace(s[m])
  }

  /**
   * On text without whitespace, `fromhex` succeeds if and only if the text
   * is an even number of hex digits; the bytes are then the digit pairs.
   */
  lemma FromHexPlain(s: string)
    requires NoAsciiSpace(s)
    ensures FromHex(s).Success? <==> IsHexString(s) && |s| % 2 == 0
    ensures FromHex(s).Success? ==>
              && |FromHex(s).value| == |s| / 2
              && forall k :: 0 <= k < |s| / 2 ==>
                   FromHex(s).value[k] == 16 * HexValue(s[2 * k]) + HexValue(s[2 * k + 1])
  {
    var k := FirstNonAscii(s, 0);
    if k == |s| {
      if |s| % 2 == 0 {
        FromHexFromPlain(s, 0);
      } else {
        FromHexFromOdd(s, 0);
      }
    }
  }

  /** Two spellings that differ only in the case of ASCII letters decode alike. */
  predicate SameUpToCase(s: string, t: string) {
    |s| == |t| && forall m :: 0 <= m < |s| ==> AsciiLower(s[m]) == AsciiLower(t[m])
  }

  lemma {:induction false} FromHexFromCase(s: string, t: string, i: nat)
    requires SameUpToCase(s, t) && i <= |s|
    ensures FromHexFrom(s, i) == FromHexFrom(t, i)
    decreases |s| - i
  {
    if i < |s| {
      CharUpToCase(s[i], t[i]);
      if i + 1 < |s| {
        CharUpToCase(s[i + 1], t[i + 1]);
      }
      FromHexFromCase(s, t, i + 1);
      if i + 2 <= |s| {
        FromHexFromCase(s, t, i + 2);
      }
    }
  }

  lemma CharUpToCase(c: char, d: char)
    requires AsciiLower(c) == AsciiLower(d)
    ensures IsAsciiSpace(c) <==> IsAsciiSpace(d)
    ensures IsHexDigit(c) <==> IsHexDigit(d)
    ensures IsHexDigit(c) ==> HexValue(c) == HexValue(d)
    ensures (c as int < 128) <==> (d as int < 128)
  {
  }

  lemma {:induction false} FirstNonAsciiCase(s: string, t: string, i: nat)
    requires SameUpToCase(s, t) && i <= |s|
    ensures FirstNonAscii(s, i) == FirstNonAscii(t, i)
    decreases |s| - i
  {
    if i < |s| {
      CharUpToCase(s[i], t[i]);
      FirstNonAsciiCase(s, t, i + 1);
    }
  }

  /** Upper- and lower-case spellings of the same hex text decode to the same result. */
  lemma FromHexCaseInsensitive(s: string, t: string)
    requires SameUpToCase(s, t)
    ensures FromHex(s) == FromHex(t)
  {
    FirstNonAsciiCase(s, t, 0);
    FromHexFromCase(s, t, 0);
  }
}
