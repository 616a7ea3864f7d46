/** Decimal and hexadecimal numerals: the checked parsers of the receiving side, the
    fixed-buffer writers of the sending side, and their agreement with positional value. */
module Numerals {
  import opened Wrappers
  import opened Bytes

  predicate IsHexDigit(b: byte) {
    48 <= b <= 57 || 65 <= b <= 70 || 97 <= b <= 102
  }

  function DigitOf(b: byte): (d: nat)
    ensures IsDigit(b) ==> d == b - 48
    ensures IsHexDigit(b) ==> d < 16
  {
    if 48 <= b <= 57 then b - 48
    else if 97 <= b <= 102 then b - 87
    else if 65 <= b <= 70 then b - 55
    else 0
  }

  predicate AllDigits(s: bytes) {
    forall i :: 0 <= i < |s| ==> IsDigit(s[i])
  }

  predicate AllHexDigits(s: bytes) {
    forall i :: 0 <= i < |s| ==> IsHexDigit(s[i])
  }

  /** Positional value, unbounded. */
  function ValueOf(s: bytes, base: nat): nat {
    if s == [] then 0 else ValueOf(s[..|s| - 1], base) * base + DigitOf(s[|s| - 1])
  }

  /** The left-to-right fold with `checked_mul` and `checked_add`. */
  function CheckedFold(s: bytes, base: nat, parsed: nat): Option<nat>
    decreases |s|
  {
    if s == [] then Some(parsed)
    else if parsed * base >= USIZE then None
    else if parsed * base + DigitOf(s[0]) >= USIZE then None
    else CheckedFold(s[1..], base, parsed * base + DigitOf(s[0]))
  }

  function Power(base: nat, n: nat): nat {
    if n == 0 then 1 else base * Power(base, n - 1)
  }

  lemma MulMono(a: nat, b: nat, c: nat)
    requires a <= b
    ensures a * c <= b * c
  {}

  lemma ShiftIn(d: nat, p: nat, v: nat, base: nat, e: nat)
    ensures (d * p + v) * base + e == d * (base * p) + (v * base + e)
  {
    assert (d * p) * base == d * (base * p);
  }

  lemma {:induction false} ValueCons(s: bytes, base: nat)
    requires s != []
    ensures ValueOf(s, base) == DigitOf(s[0]) * Power(base, |s| - 1) + ValueOf(s[1..], base)
  {
    var n := |s| - 1;
    if n == 0 {
      assert s[1..] == [] && s[..0] == [];
      assert ValueOf(s, base) == 0 * base + DigitOf(s[0]);
    } else {
      ValueCons(s[..n], base);
      assert s[..n][1..] == s[1..n] == s[1..][..n - 1];
      ShiftIn(DigitOf(s[0]), Power(base, n - 1), ValueOf(s[1..n], base), base, DigitOf(s[n]));
    }
  }

  lemma {:induction false} PowerPositive(base: nat, n: nat)
    requires base > 0
    ensures Power(base, n) >= 1
  {
    if n > 0 {
      PowerPositive(base, n - 1);
      MulMono(1, base, Power(base, n - 1));
    }
  }

  /** The checked fold returns the exact value if and only if it fits the machine word. */
  lemma {:induction false} CheckedFoldExact(s: bytes, base: nat, parsed: nat)
    requires base > 0 && parsed < USIZE
    ensures var v := parsed * Power(base, |s|) + ValueOf(s, base);
            CheckedFold(s, base, parsed) == if v < USIZE then Some(v) else None
  {
    if s != [] {
      var p := Power(base, |s| - 1);
      ValueCons(s, base);
      PowerPositive(base, |s| - 1);
      ShiftOut(parsed, base, DigitOf(s[0]), p, ValueOf(s[1..], base));
      if parsed * base + DigitOf(s[0]) < USIZE {
        CheckedFoldExact(s[1..], base, parsed * base + DigitOf(s[0]));
      }
    }
  }

  lemma ShiftOut(parsed: nat, base: nat, d: nat, p: nat, v: nat)
    requires p >= 1
    ensures parsed * (base * p) + (d * p + v) == (parsed * base + d) * p + v >= parsed * base + d
  {
    assert parsed * (base * p) == (parsed * base) * p;
    MulMono(1, p, parsed * base + d);
  }

  function ParseDecimal(s: bytes): Option<nat> {
    if s == [] || !AllDigits(s) then None else CheckedFold(s, 10, 0)
  }

  function ParseHex(s: bytes): Option<nat> {
    if s == [] || !AllHexDigits(s) then None else CheckedFold(s, 16, 0)
  }

  lemma ParseDecimalExact(s: bytes, n: nat)
    ensures ParseDecimal(s) == Some(n) <==> s != [] && AllDigits(s) && ValueOf(s, 10) == n < USIZE
  {
    CheckedFoldExact(s, 10, 0);
  }

  lemma ParseHexExact(s: bytes, n: nat)
    ensures ParseHex(s) == Some(n) <==> s != [] && AllHexDigits(s) && ValueOf(s, 16) == n < USIZE
  {
    CheckedFoldExact(s, 16, 0);
  }

  // ----- writing -----

  function DecimalDigit(d: nat): byte
    requires d < 10
  {
    48 + d
  }

  function HexDigit(d: nat): byte
    requires d < 16
  {
    if d < 10 then 48 + d else 87 + d
  }

  function Decimal(v: nat): (s: bytes)
    ensures s != [] && AllDigits(s)
  {
    if v < 10 then [DecimalDigit(v)] else Decimal(v / 10) + [DecimalDigit(v % 10)]
  }

  function Hex(v: nat): (s: bytes)
    ensures s != [] && AllHexDigits(s)
  {
    if v < 16 then [HexDigit(v)] else Hex(v / 16) + [HexDigit(v % 16)]
  }

  lemma {:induction false} DecimalValue(v: nat)
    ensures ValueOf(Decimal(v), 10) == v
  {
    var s := Decimal(v);
    if v < 10 {
      assert s[..0] == [];
    } else {
      DecimalValue(v / 10);
      assert s[..|s| - 1] == Decimal(v / 10);
    }
  }

  lemma {:induction false} HexValue(v: nat)
    ensures ValueOf(Hex(v), 16) == v
  {
    var s := Hex(v);
    if v < 16 {
      assert s[..0] == [];
    } else {
      HexValue(v / 16);
      assert s[..|s| - 1] == Hex(v / 16);
    }
  }

  /** What is written is what is read: the receiving parsers invert the writers. */
  lemma DecimalRoundTrip(v: usize)
    ensures ParseDecimal(Decimal(v)) == Some(v)
  {
    DecimalValue(v);
    ParseDecimalExact(Decimal(v), v);
  }

  lemma HexRoundTrip(v: usize)
    ensures ParseHex(Hex(v)) == Some(v)
  {
    HexValue(v);
    ParseHexExact(Hex(v), v);
  }

  lemma {:induction false} NumeralLength(v: nat, n: nat)
    requires n > 0
    ensures v < Power(10, n) ==> |Decimal(v)| <= n
    ensures v < Power(16, n) ==> |Hex(v)| <= n
  {
    if n > 1 {
      NumeralLength(v / 10, n - 1);
      NumeralLength(v / 16, n - 1);
      assert Power(10, n) == 10 * Power(10, n - 1);
      assert Power(16, n) == 16 * Power(16, n - 1);
    } else {
      assert Power(10, 1) == 10 * Power(10, 0);
      assert Power(16, 1) == 16 * Power(16, 0);
    }
  }

  /** `usize::BITS / 3 + 1` decimal and `usize::BITS / 4` hexadecimal digits are enough. */
  const DECIMAL_BUFFER: nat := 64 / 3 + 1
  const HEX_BUFFER: nat := 64 / 4

  lemma PowerSquare(base: nat, n: nat)
    ensures Power(base, n + n) == Power(base, n) * Power(base, n)
  {
    PowerAdd(base, n, n);
  }

  lemma MulAssociative(a: nat, b: nat, c: nat)
    ensures a * (b * c) == (a * b) * c
  {}

  lemma {:induction false} PowerAdd(base: nat, m: nat, n: nat)
    ensures Power(base, m + n) == Power(base, m) * Power(base, n)
  {
    if m > 0 {
      PowerAdd(base, m - 1, n);
      assert Power(base, m + n) == base * Power(base, m - 1 + n);
      assert Power(base, m) == base * Power(base, m - 1);
      hide Power;
      MulAssociative(base, Power(base, m - 1), Power(base, n));
    }
  }

  lemma NumeralsFitBuffers(v: usize)
    ensures |Decimal(v)| <= 20 < DECIMAL_BUFFER
    ensures |Hex(v)| <= HEX_BUFFER
  {
    assert Power(10, 0) == 1;
    assert Power(10, 1) == 10 * Power(10, 0);
    assert Power(10, 2) == 10 * Power(10, 1);
    PowerSquare(10, 2);
    PowerAdd(10, 1, 4);
    PowerSquare(10, 5);
    PowerSquare(10, 10);
    assert Power(10, 20) == 1_0000000000_0000000000;
    assert Power(16, 0) == 1;
    assert Power(16, 1) == 16 * Power(16, 0);
    PowerSquare(16, 1);
    PowerSquare(16, 2);
    PowerSquare(16, 4);
    PowerSquare(16, 8);
    assert Power(16, 16) == USIZE;
    NumeralLength(v, 20);
    NumeralLength(v, 16);
  }

  /** Fills the buffer from its end; the index never underflows when the digits fit. */
  method WriteDecimal(buffer: array<byte>, value: usize) returns (position: nat)
    requires |Decimal(value)| <= buffer.Length
    modifies buffer
    ensures position <= buffer.Length && buffer[position..] == Decimal(value)
  {
    var v: nat := value;
    position := buffer.Length;
    while true
      invariant position <= buffer.Length
      invariant |Decimal(v)| <= position
      invariant Decimal(value) == Decimal(v) + buffer[position..]
      decreases v
    {
      position := position - 1;
      buffer[position] := DecimalDigit(v % 10);
      assert buffer[position..] == [DecimalDigit(v % 10)] + buffer[position + 1..];
      if v / 10 == 0 {
        return;
      }
      assert Decimal(v) == Decimal(v / 10) + [DecimalDigit(v % 10)];
      v := v / 10;
    }
  }

  /** `append_hex`: a 16-digit local buffer filled from its end, then appended. */
  method AppendHex(output: bytes, value: usize) returns (extended: bytes)
    ensures extended == output + Hex(value)
  {
    NumeralsFitBuffers(value);
    var digits := new byte[HEX_BUFFER];
    var v: nat := value;
    var position := digits.Length;
    while true
      invariant position <= digits.Length
      invariant |Hex(v)| <= position
      invariant Hex(value) == Hex(v) + digits[position..]
      decreases v
    {
      position := position - 1;
      digits[position] := HexDigit(v % 16);
      assert digits[position..] == [HexDigit(v % 16)] + digits[position + 1..];
      if v / 16 == 0 {
        extended := output + digits[position..];
        return;
      }
      assert Hex(v) == Hex(v / 16) + [HexDigit(v % 16)];
      v := v / 16;
    }
  }
}
