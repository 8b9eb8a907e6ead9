/**
 * Base32 with padding (RFC 4648 section 6), as Python's `base64.b32encode`
 * produces it: the input bits, most significant first, are cut into 5-bit
 * groups (the last one filled with zero bits), each group becomes one
 * symbol of "A".."Z", "2".."7", and '=' pads the text to a multiple of 8.
 */
module Base32 {
  import opened Wrappers
  import opened Numerals

  /** A symbol of the base32 alphabet "ABCDEFGHIJKLMNOPQRSTUVWXYZ234567". */
  predicate IsSymbol(c: char) {
    ('A' <= c <= 'Z') || ('2' <= c <= '7')
  }

  function SymbolChar(v: nat): (c: char)
    requires v < 32
    ensures IsSymbol(c)
  {
    if v < 26 then ('A' as int + v) as char else ('2' as int + v - 26) as char
  }

  function SymbolIndex(c: char): (v: nat)
    requires IsSymbol(c)
    ensures v < 32 && SymbolChar(v) == c
  {
    if c <= '7' then c as int - '2' as int + 26 else c as int - 'A' as int
  }

  lemma SymbolIndexOfChar(v: nat)
    requires v < 32
    ensures SymbolIndex(SymbolChar(v)) == v
  {
  }

  predicate IsBits(bits: seq<nat>) {
    AllBelow(bits, 2)
  }

  /** The bits of a byte string, eight per byte, most significant first. */
  function BytesToBits(b: seq<byte>): (bits: seq<nat>)
    ensures |bits| == 8 * |b| && |bits| % 8 == 0 && IsBits(bits)
  {
    DivModOf(8 * |b|, 8, |b|, 0);
    if b == [] then [] else Digits(b[0], 2, 8) + BytesToBits(b[1..])
  }

  /** Reassembles bytes from bits, eight per byte. */
  function BitsToBytes(bits: seq<nat>): (b: seq<byte>)
    requires |bits| % 8 == 0 && IsBits(bits)
    ensures |b| == |bits| / 8
  {
    if bits == [] then []
    else
      ValueBound(bits[..8], 2);
      PowFacts();
      [Value(bits[..8], 2)] + BitsToBytes(bits[8..])
  }

  /** One base32 symbol per 5-bit group. */
  function Symbols(bits: seq<nat>): (s: string)
    requires |bits| % 5 == 0 && IsBits(bits)
    ensures |s| == |bits| / 5 && AllSymbols(s)
  {
    if bits == [] then []
    else
      ValueBound(bits[..5], 2);
      PowFacts();
      [SymbolChar(Value(bits[..5], 2))] + Symbols(bits[5..])
  }

  /** The 5-bit groups of a run of base32 symbols. */
  function SymbolsToBits(s: string): (bits: seq<nat>)
    requires AllSymbols(s)
    ensures |bits| == 5 * |s| && IsBits(bits)
  {
    if s == [] then [] else Digits(SymbolIndex(s[0]), 2, 5) + SymbolsToBits(s[1..])
  }

  function ZeroBits(n: nat): (z: seq<nat>)
    ensures |z| == n && IsBits(z)
  {
    if n == 0 then [] else [0] + ZeroBits(n - 1)
  }

  function Padding(n: nat): (p: string)
    ensures |p| == n && forall i :: 0 <= i < n ==> p[i] == '='
  {
    if n == 0 then [] else Padding(n - 1) + "="
  }

  /** Python's `base64.b32encode(b).decode()`. */
  function Encode(b: seq<byte>): (s: string)
    ensures |s| % 8 == 0
    ensures forall i :: 0 <= i < |s| ==> IsSymbol(s[i]) || s[i] == '='
  {
    var syms := Symbols(PaddedBits(b));
    syms + Padding(PadLength(|syms|))
  }

  /** The bits of `b` followed by the zero bits that complete the last 5-bit group. */
  function PaddedBits(b: seq<byte>): (bits: seq<nat>)
    ensures |bits| % 5 == 0 && IsBits(bits)
    ensures |bits| == 8 * |b| + FillBits(8 * |b|)
  {
    BytesToBits(b) + ZeroBits(FillBits(8 * |b|))
  }

  /** Zero bits that complete the last 5-bit group. */
  function FillBits(n: nat): (z: nat)
    ensures z < 5 && (n + z) % 5 == 0
  {
    (5 - n % 5) % 5
  }

  /** '=' characters that complete the last 8-character block. */
  function PadLength(n: nat): (k: nat)
    ensures k < 8 && (n + k) % 8 == 0
  {
    (8 - n % 8) % 8
  }

  predicate AllSymbols(s: string) {
    forall i :: 0 <= i < |s| ==> IsSymbol(s[i])
  }

  /** The bits that make up whole bytes: a trailing group of fewer than 8 is dropped. */
  function WholeBytes(bits: seq<nat>): (w: seq<nat>)
    requires IsBits(bits)
    ensures |w| % 8 == 0 && IsBits(w) && |w| <= |bits| < |w| + 8 && w == bits[..|w|]
  {
    bits[..|bits| - |bits| % 8]
  }

  /** Number of '=' characters that end `s`. */
  function TrailingPadding(s: string): (n: nat)
    ensures n <= |s|
  {
    if s == [] || s[|s| - 1] != '=' then 0 else 1 + TrailingPadding(s[..|s| - 1])
  }

  /**
   * Base32 decoding (RFC 4648 section 6): the text is whole 8-character
   * blocks, ends in 0, 1, 3, 4 or 6 '=' characters and is otherwise made of
   * alphabet symbols; the bits of the symbols are regrouped into bytes and
   * the incomplete trailing group (the encoder's fill bits) is dropped.
   */
  function Decode(s: string): (r: Option<seq<byte>>)
  {
    if |s| % 8 != 0 then None
    else
      var n := TrailingPadding(s);
      var body := s[..|s| - n];
      if !IsPaddingLength(n) || !AllSymbols(body) then None
      else Some(SymbolsToBytes(body))
  }

  /** The padding lengths an encoder can produce: a last block of 8, 7, 5, 4 or 2 symbols. */
  predicate IsPaddingLength(n: nat) {
    n == 0 || n == 1 || n == 3 || n == 4 || n == 6
  }

  /** The bytes that the symbols of an unpadded base32 text spell. */
  function SymbolsToBytes(syms: string): seq<byte>
    requires AllSymbols(syms)
  {
    BitsToBytes(WholeBytes(SymbolsToBits(syms)))
  }

  // ---------------------------------------------------------------- proofs

  lemma {:induction false} BitsOfBytes(b: seq<byte>)
    ensures BitsToBytes(BytesToBits(b)) == b
  {
    if b != [] {
      BitsToBytesCons(b);
      BitsOfByte(b[0]);
      BitsOfBytes(b[1..]);
      assert [b[0]] + b[1..] == b;
    }
  }

  /** The first 8 bits are the first byte's, the rest are the rest's. */
  lemma BitsToBytesCons(b: seq<byte>)
    requires b != []
    ensures BitsToBytes(BytesToBits(b)) == [Value(Digits(b[0], 2, 8), 2)] + BitsToBytes(BytesToBits(b[1..]))
  {
    var first, rest := Digits(b[0], 2, 8), BytesToBits(b[1..]);
    var bits := first + rest;
    assert BytesToBits(b) == bits;
    assert bits[..8] == first && bits[8..] == rest;
  }

  lemma BitsOfByte(x: byte)
    ensures Value(Digits(x, 2, 8), 2) == x
  {
    PowFacts();
    ValueOfDigits(x, 2, 8);
  }

  lemma {:induction false} SymbolsOfBits(bits: seq<nat>)
    requires |bits| % 5 == 0 && IsBits(bits)
    ensures SymbolsToBits(Symbols(bits)) == bits
  {
    if bits != [] {
      var s := Symbols(bits);
      ValueBound(bits[..5], 2);
      PowFacts();
      var v := Value(bits[..5], 2);
      assert s[0] == SymbolChar(v) && s[1..] == Symbols(bits[5..]);
      SymbolIndexOfChar(v);
      DigitsOfValue(bits[..5], 2);
      SymbolsOfBits(bits[5..]);
      assert bits == bits[..5] + bits[5..];
    }
  }

  lemma {:induction false} TrailingPaddingAfterSymbols(syms: string, k: nat)
    requires syms == [] || syms[|syms| - 1] != '='
    ensures TrailingPadding(syms + Padding(k)) == k
  {
    if k > 0 {
      assert (syms + Padding(k))[..|syms| + k - 1] == syms + Padding(k - 1);
      TrailingPaddingAfterSymbols(syms, k - 1);
    } else {
      assert syms + Padding(k) == syms;
    }
  }

  /** For `n` input bytes: the symbol count, the padding and the admissible padding lengths. */
  lemma PaddingArithmetic(n: nat)
    ensures var z := FillBits(8 * n);
            var syms := (8 * n + z) / 5;
            var pad := PadLength(syms);
            && (8 * n + z) % 8 == z
            && IsPaddingLength(pad)
            && syms + pad == 8 * ((n + 4) / 5)
  {
    // 5 bytes are 40 bits, exactly 8 symbols; the n % 5 leftover bytes
    // take z fill bits, g more symbols and pad '=' characters
    var q, r := n / 5, n % 5;
    if r == 0 {
      PaddingCase(n, q, 0, 0, 0, 0);
    } else if r == 1 {
      PaddingCase(n, q, 1, 2, 2, 6);
    } else if r == 2 {
      PaddingCase(n, q, 2, 4, 4, 4);
    } else if r == 3 {
      PaddingCase(n, q, 3, 1, 5, 3);
    } else {
      PaddingCase(n, q, 4, 3, 7, 1);
    }
  }

  lemma PaddingCase(n: nat, q: nat, r: nat, z: nat, g: nat, pad: nat)
    requires n == 5 * q + r && r < 5
    requires 8 * r + z == 5 * g && z < 5 && g < 8 && g + pad == (if r == 0 then 0 else 8)
    ensures var syms := (8 * n + FillBits(8 * n)) / 5;
            && FillBits(8 * n) == z
            && (8 * n + z) % 8 == z
            && PadLength(syms) == pad
            && syms + pad == 8 * ((n + 4) / 5)
  {
    FillCase(n, q, z, g);
    DivModOf(8 * q + g, 8, q, g);
    DivModOf(8 - g, 8, if g == 0 then 1 else 0, if g == 0 then 0 else 8 - g);
    DivModOf(n + 4, 5, q + (if r == 0 then 0 else 1), if r == 0 then 4 else r - 1);
  }

  /** `z` fill bits complete the `8 * n` bits to `8 * q + g` symbols. */
  lemma FillCase(n: nat, q: nat, z: nat, g: nat)
    requires 8 * n + z == 5 * (8 * q + g) && z < 5 && (z == 0 || g >= 1)
    ensures FillBits(8 * n) == z && (8 * n + z) % 8 == z && (8 * n + z) / 5 == 8 * q + g
  {
    DivModOf(8 * n, 5, 8 * q + g - (if z == 0 then 0 else 1), if z == 0 then 0 else 5 - z);
    DivModOf(8 * n + z, 5, 8 * q + g, 0);
    DivModOf(8 * n + z, 8, n, z);
  }

  /** Decoding symbols followed by an admissible amount of padding. */
  lemma DecodeSymbolsAndPadding(syms: string, k: nat)
    requires AllSymbols(syms) && IsPaddingLength(k) && (|syms| + k) % 8 == 0
    ensures Decode(syms + Padding(k)) == Some(SymbolsToBytes(syms))
  {
    var s := syms + Padding(k);
    SplitPadding(syms, k);
    assert s[..|s| - TrailingPadding(s)] == syms;
  }

  /** The padding after a run of symbols is counted exactly and cut off exactly. */
  lemma SplitPadding(syms: string, k: nat)
    requires AllSymbols(syms)
    ensures TrailingPadding(syms + Padding(k)) == k
    ensures (syms + Padding(k))[..|syms|] == syms
  {
    assert syms == [] || IsSymbol(syms[|syms| - 1]);
    TrailingPaddingAfterSymbols(syms, k);
    TakeAppend(syms, Padding(k));
  }

  lemma TakeAppend<T>(a: seq<T>, b: seq<T>)
    ensures (a + b)[..|a|] == a
  {
  }

  /** Base32-decoding what `Encode` produced gives back exactly the input bytes. */
  lemma DecodeEncode(b: seq<byte>)
    ensures Decode(Encode(b)) == Some(b)
  {
    var padded := PaddedBits(b);
    var syms := Symbols(padded);
    EncodeParts(b);
    DecodeSymbolsAndPadding(syms, PadLength(|syms|));
    SymbolsOfBits(padded);
    WholeBytesOfPadded(b);
    BitsOfBytes(b);
  }

  /** An encoding is symbols followed by an admissible amount of padding. */
  lemma EncodeParts(b: seq<byte>)
    ensures var syms := Symbols(PaddedBits(b));
            && Encode(b) == syms + Padding(PadLength(|syms|))
            && IsPaddingLength(PadLength(|syms|))
            && (|syms| + PadLength(|syms|)) % 8 == 0
  {
    var n := |b|;
    var syms := Symbols(PaddedBits(b));
    PaddingArithmetic(n);
    assert |syms| == (8 * n + FillBits(8 * n)) / 5;
  }

  /** The fill bits never make up a whole byte, so dropping the trailing group removes exactly them. */
  lemma WholeBytesOfPadded(b: seq<byte>)
    ensures WholeBytes(PaddedBits(b)) == BytesToBits(b)
  {
    var n := |b|;
    PaddingArithmetic(n);
    assert |PaddedBits(b)| % 8 == FillBits(8 * n);
    TakeAppend(BytesToBits(b), ZeroBits(FillBits(8 * n)));
  }

  /** The encoded length is 8 characters per started group of 5 bytes. */
  lemma EncodeLength(b: seq<byte>)
    ensures |Encode(b)| == 8 * ((|b| + 4) / 5)
  {
    var n := |b|;
    var syms := Symbols(PaddedBits(b));
    PaddingArithmetic(n);
    assert |syms| == (8 * n + FillBits(8 * n)) / 5;
    assert |Encode(b)| == |syms| + PadLength(|syms|);
  }

  /**
   * A 32-byte secret (a 64-digit hex seed) encodes to 56 characters: 52
   * symbols and then "====".
   */
  lemma EncodeSeedBytes(b: seq<byte>)
    requires |b| == 32
    ensures var s := Encode(b);
            && |s| == 56 && s[52..] == "===="
            && forall i :: 0 <= i < 52 ==> IsSymbol(s[i])
  {
    var syms := Symbols(PaddedBits(b));
    SeedSymbolCount(b);
    PaddingFour();
    var s := Encode(b);
    assert s[52..] == Padding(4);
    assert forall i :: 0 <= i < 52 ==> s[i] == syms[i];
  }

  lemma SeedSymbolCount(b: seq<byte>)
    requires |b| == 32
    ensures |Symbols(PaddedBits(b))| == 52 && PadLength(52) == 4
  {
    var bits := PaddedBits(b);
    PaddingCase(32, 6, 2, 4, 4, 4);
    assert |Symbols(bits)| == (8 * 32 + FillBits(8 * 32)) / 5;
  }

  lemma PaddingFour()
    ensures Padding(4) == "===="
  {
  }
}
