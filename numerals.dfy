/**
 * Positional numerals: fixed-width digit sequences (most significant digit
 * first) in an arbitrary base, and their value. Bits (base 2), bytes
 * (base 256) and decimal digits (base 10) are all instances.
 */
module Numerals {

  type byte = x: int | 0 <= x < 256

  function Pow(base: nat, n: nat): (r: nat)
    ensures base >= 1 ==> r >= 1
  {
    if n == 0 then 1 else base * Pow(base, n - 1)
  }

  lemma PowFacts()
    ensures Pow(2, 5) == 32 && Pow(2, 8) == 256 && Pow(10, 6) == 1_000_000
  {
    assert Pow(2, 4) == 16;
    assert Pow(10, 3) == 1000;
  }

  /** Every element of `ds` is a digit of `base`. */
  predicate AllBelow(ds: seq<nat>, base: nat) {
    forall i :: 0 <= i < |ds| ==> ds[i] < base
  }

  /** The `width` lowest digits of `x` in `base`, most significant first. */
  function Digits(x: nat, base: nat, width: nat): (ds: seq<nat>)
    requires base >= 2
    ensures |ds| == width && AllBelow(ds, base)
    decreases width
  {
    if width == 0 then [] else Digits(x / base, base, width - 1) + [x % base]
  }

  /** The number written by `ds` in `base`, most significant digit first. */
  function Value(ds: seq<nat>, base: nat): nat
  {
    if ds == [] then 0 else base * Value(ds[..|ds| - 1], base) + ds[|ds| - 1]
  }

  lemma MulMonotone(a: nat, b: nat, c: nat)
    requires a <= b
    ensures c * a <= c * b
  {
  }

  lemma {:induction false} ValueBound(ds: seq<nat>, base: nat)
    requires base >= 2 && AllBelow(ds, base)
    ensures Value(ds, base) < Pow(base, |ds|)
  {
    if ds != [] {
      var p := ds[..|ds| - 1];
      var v, last, pw := Value(p, base), ds[|ds| - 1], Pow(base, |p|);
      ValueBound(p, base);
      MulMonotone(v, pw - 1, base);
      assert base * (pw - 1) == base * pw - base;
      assert Value(ds, base) == base * v + last;
      assert Pow(base, |ds|) == base * pw;
    }
  }

  lemma DivModUnique(q: nat, r: nat, base: nat)
    requires base >= 1 && r < base
    ensures (base * q + r) / base == q && (base * q + r) % base == r
  {
    var x := base * q + r;
    var d := x / base - q;
    assert x == base * (x / base) + x % base;
    assert base * d == r - x % base;
    if d >= 1 {
      MulMonotone(1, d, base);
    }
  }

  /** Quotient and remainder of `x`, given a decomposition `x == base * q + r`. */
  lemma DivModOf(x: int, base: nat, q: nat, r: nat)
    requires base >= 1 && r < base && x == base * q + r
    ensures x / base == q && x % base == r
  {
    DivModUnique(q, r, base);
  }

  lemma DivBelow(x: nat, base: nat, p: nat)
    requires base >= 1 && x < base * p
    ensures x / base < p
  {
    if x / base >= p {
      MulMonotone(p, x / base, base);
    }
  }

  /** Writing a number in `width` digits and reading it back gives the number, when it fits. */
  lemma {:induction false} ValueOfDigits(x: nat, base: nat, width: nat)
    requires base >= 2 && x < Pow(base, width)
    ensures Value(Digits(x, base, width), base) == x
    decreases width
  {
    if width > 0 {
      var q, r := x / base, x % base;
      var p := Digits(q, base, width - 1);
      var ds := Digits(x, base, width);
      QuotientFits(x, base, width);
      ValueOfDigits(q, base, width - 1);
      assert ds == p + [r];
      assert ds[..|ds| - 1] == p;
      assert Value(ds, base) == base * Value(p, base) + r;
    }
  }

  /** Dropping the last digit of a `width`-digit number leaves a `width - 1`-digit number. */
  lemma QuotientFits(x: nat, base: nat, width: nat)
    requires base >= 2 && width > 0 && x < Pow(base, width)
    ensures x / base < Pow(base, width - 1)
    ensures base * (x / base) + x % base == x
  {
    DivBelow(x, base, Pow(base, width - 1));
  }

  /** Reading a digit sequence and writing its value back in as many digits gives the sequence. */
  lemma {:induction false} DigitsOfValue(ds: seq<nat>, base: nat)
    requires base >= 2 && AllBelow(ds, base)
    ensures Digits(Value(ds, base), base, |ds|) == ds
  {
    if ds != [] {
      var p := ds[..|ds| - 1];
      DivModUnique(Value(p, base), ds[|ds| - 1], base);
      DigitsOfValue(p, base);
      assert ds == p + [ds[|ds| - 1]];
    }
  }

  /** The decimal digit character for `d`. */
  function DigitChar(d: nat): (c: char)
    requires d < 10
    ensures '0' <= c <= '9'
  {
    ('0' as int + d) as char
  }

  predicate IsDecimalDigit(c: char) {
    '0' <= c <= '9'
  }

  /** `n` in exactly `width` decimal digits, zero-padded on the left (Python's `str(n).zfill(width)` for `n < 10^width`). */
  function FixedDecimal(n: nat, width: nat): (s: string)
    ensures |s| == width && forall i :: 0 <= i < |s| ==> IsDecimalDigit(s[i])
  {
    var ds := Digits(n, 10, width);
    seq(width, i requires 0 <= i < width => DigitChar(ds[i]))
  }

  /** The number a string of decimal digits denotes. */
  function DecimalValue(s: string): nat
    requires forall i :: 0 <= i < |s| ==> IsDecimalDigit(s[i])
  {
    Value(DigitValues(s), 10)
  }

  function DigitValues(s: string): (ds: seq<nat>)
    requires forall i :: 0 <= i < |s| ==> IsDecimalDigit(s[i])
    ensures |ds| == |s| && AllBelow(ds, 10)
  {
    seq(|s|, i requires 0 <= i < |s| => DigitOf(s[i]))
  }

  function DigitOf(c: char): (d: nat)
    requires IsDecimalDigit(c)
    ensures d < 10 && DigitChar(d) == c
  {
    c as int - '0' as int
  }

  /** Zero padding loses nothing: the padded string reads back as the number. */
  lemma FixedDecimalValue(n: nat, width: nat)
    requires n < Pow(10, width)
    ensures DecimalValue(FixedDecimal(n, width)) == n
  {
    var s := FixedDecimal(n, width);
    var ds := Digits(n, 10, width);
    assert DigitValues(s) == ds;
    ValueOfDigits(n, 10, width);
  }

  /** Python's `str(n)` for a natural number: decimal, no leading zeros. */
  function DecimalString(n: nat): (s: string)
    ensures |s| >= 1 && forall i :: 0 <= i < |s| ==> IsDecimalDigit(s[i])
  {
    if n < 10 then [DigitChar(n)] else DecimalString(n / 10) + [DigitChar(n % 10)]
  }
}
