/** formatBytes: a byte count written as a magnitude and a binary unit label
    (services/pdfService.ts). Decisions are always made on raw byte counts; this
    text is only displayed. */
module SizeFormat {
  import JsMath

  /** The labels of sizes[] in the source; index 4 and beyond have none. */
  const UnitLabels: seq<string> := ["Bayt", "KB", "MB", "GB"]

  function Pow(b: nat, e: nat): (r: nat)
    ensures b > 0 ==> r > 0
  {
    if e == 0 then 1 else b * Pow(b, e - 1)
  }

  /** Math.floor(Math.log(bytes) / Math.log(1024)), computed exactly: the unit whose
      magnitude lies in [1, 1024). */
  function UnitIndex(bytes: nat): nat
    requires bytes >= 1
  {
    if bytes < 1024 then 0 else 1 + UnitIndex(bytes / 1024)
  }

  /** x * 10^k: the digits of x followed by k zeros (ShiftIsProduct). */
  function Shift(x: nat, k: nat): nat
  {
    if k == 0 then x else 10 * Shift(x, k - 1)
  }

  /** sizes[i] concatenated into a string: JavaScript writes a missing entry as "undefined". */
  function UnitLabel(i: nat): string
  {
    if i < |UnitLabels| then UnitLabels[i] else "undefined"
  }

  /** The integer n that toFixed(dm) chooses for bytes / 1024^i: the one nearest to
      bytes / 1024^i * 10^dm, the larger on a tie. */
  function ScaledMagnitude(bytes: nat, i: nat, dm: nat): nat
  {
    JsMath.FloorDiv(2 * Shift(bytes, dm) + Pow(1024, i), 2 * Pow(1024, i))
  }

  /** parseFloat of the fixed-point text: the value m / 10^k with trailing zeros of
      the fraction dropped. Returns the same value as (mantissa, places). */
  function Trim(m: nat, k: nat): (nat, nat)
  {
    if k > 0 && m % 10 == 0 then Trim(m / 10, k - 1) else (m, k)
  }

  function DigitChar(d: nat): char
    requires d < 10
  {
    (d + '0' as int) as char
  }

  predicate IsDigit(c: char)
  {
    '0' <= c <= '9'
  }

  function DigitValue(c: char): nat
    requires IsDigit(c)
  {
    c as int - '0' as int
  }

  /** Decimal text of a natural number, without leading zeros. */
  function NatText(n: nat): (s: string)
    ensures |s| >= 1
    ensures forall j :: 0 <= j < |s| ==> IsDigit(s[j])
    ensures |s| > 1 ==> s[0] != '0'
  {
    if n < 10 then [DigitChar(n)] else NatText(n / 10) + [DigitChar(n % 10)]
  }

  /** Reading a digit string back as a number. */
  function NatValue(s: string): nat
    requires forall j :: 0 <= j < |s| ==> IsDigit(s[j])
  {
    if s == [] then 0 else 10 * NatValue(s[..|s| - 1]) + DigitValue(s[|s| - 1])
  }

  /** m with its last k digits dropped: the integer part of m / 10^k. */
  function IntegerPart(m: nat, k: nat): nat
  {
    if k == 0 then m else IntegerPart(m / 10, k - 1)
  }

  /** The last k digits of m, leading zeros included: the k fraction digits of
      m / 10^k. */
  function FractionDigits(m: nat, k: nat): (s: string)
    ensures |s| == k
    ensures forall j :: 0 <= j < |s| ==> IsDigit(s[j])
  {
    if k == 0 then "" else FractionDigits(m / 10, k - 1) + [DigitChar(m % 10)]
  }

  /** The number m / 10^k written by JavaScript's Number-to-string: integer part,
      then the k fraction digits after a point when k > 0. */
  function DecimalText(m: nat, k: nat): string
  {
    NatText(IntegerPart(m, k)) + if k == 0 then "" else "." + FractionDigits(m, k)
  }

  /** formatBytes(bytes, decimals). */
  function FormatBytes(bytes: nat, decimals: int): string
    requires decimals <= 100
  {
    if bytes == 0 then "0 Bayt"
    else
      var dm: nat := if decimals < 0 then 0 else decimals;
      var i := UnitIndex(bytes);
      var t := Trim(ScaledMagnitude(bytes, i, dm), dm);
      DecimalText(t.0, t.1) + " " + UnitLabel(i)
  }

  /** formatBytes with its default of two decimals, as every caller uses it. */
  function FormatSize(bytes: nat): string
  {
    FormatBytes(bytes, 2)
  }

  // ---------------------------------------------------------------------------
  // Properties

  lemma {:induction false} PowMonotone(b: nat, e: nat, f: nat)
    requires b >= 1 && e <= f
    ensures Pow(b, e) <= Pow(b, f)
    decreases f - e
  {
    if e < f {
      PowMonotone(b, e, f - 1);
      assert Pow(b, f) == b * Pow(b, f - 1);
      JsMath.MulMonotone(1, b, Pow(b, f - 1));
    }
  }

  /** Zero has its own label. */
  lemma {:induction false} FormatZero(decimals: int)
    requires decimals <= 100
    ensures FormatBytes(0, decimals) == "0 Bayt"
  {
  }

  /** The unit chosen is the one whose magnitude lies in [1, 1024). */
  lemma {:induction false} UnitIndexBounds(bytes: nat)
    requires bytes >= 1
    ensures var i := UnitIndex(bytes); Pow(1024, i) <= bytes < Pow(1024, i + 1)
  {
    if bytes >= 1024 {
      UnitIndexBounds(bytes / 1024);
    }
  }

  /** Dropping trailing zeros keeps the value: the mantissa followed by the dropped
      zeros is the original, and a remaining fraction does not end in zero. */
  lemma {:induction false} TrimValue(m: nat, k: nat)
    ensures var r := Trim(m, k);
            && r.1 <= k && Shift(r.0, k - r.1) == m
            && (r.1 > 0 ==> r.0 % 10 != 0)
  {
    if k > 0 && m % 10 == 0 {
      TrimValue(m / 10, k - 1);
      var r := Trim(m / 10, k - 1);
      ShiftOfPart(r.0, k - 1 - r.1);
    }
  }

  /** The unit chosen is the only one whose magnitude lies in [1, 1024). */
  lemma {:induction false} UnitIndexUnique(bytes: nat, j: nat)
    requires bytes >= 1
    requires Pow(1024, j) <= bytes < Pow(1024, j + 1)
    ensures UnitIndex(bytes) == j
  {
    var i := UnitIndex(bytes);
    UnitIndexBounds(bytes);
    if j < i {
      PowMonotone(1024, j + 1, i);
    } else if i < j {
      PowMonotone(1024, i + 1, j);
    }
  }

  /** A unit label exists exactly for counts below 1024^4 bytes. */
  lemma {:induction false} UnitLabelDefined(bytes: nat)
    requires bytes >= 1
    ensures UnitIndex(bytes) < 4 <==> bytes < Pow(1024, 4)
    ensures bytes < Pow(1024, 4) ==> UnitLabel(UnitIndex(bytes)) in UnitLabels
  {
    var i := UnitIndex(bytes);
    UnitIndexBounds(bytes);
    if i < 4 {
      PowMonotone(1024, i + 1, 4);
    } else {
      PowMonotone(1024, 4, i);
    }
  }

  /** Before trailing zeros are dropped, the rounded magnitude is at least 1 and at
      most 1024 (1024 itself arises when rounding carries, e.g. for 1048575 bytes). */
  lemma {:induction false} MagnitudeRange(bytes: nat, dm: nat)
    requires bytes >= 1
    ensures var q := ScaledMagnitude(bytes, UnitIndex(bytes), dm);
            Pow(10, dm) <= q <= 1024 * Pow(10, dm)
  {
    var i := UnitIndex(bytes);
    UnitIndexBounds(bytes);
    ScaledMagnitudeQuotient(bytes, i, dm);
    var d, t := Pow(1024, i), Pow(10, dm);
    assert d <= bytes < 1024 * d by {
      assert Pow(1024, i + 1) == 1024 * d;
    }
    MagnitudeBetween(bytes, d, t);
  }

  lemma {:induction false} MagnitudeBetween(bytes: nat, d: nat, t: nat)
    requires d >= 1 && t >= 1 && d <= bytes < 1024 * d
    ensures t <= (2 * bytes * t + d) / (2 * d) <= 1024 * t
  {
    ScaleProducts(bytes, d, t);
    JsMath.MulMonotone(d, bytes, t);
    JsMath.MulMonotone(bytes, 1024 * d - 1, t);
    JsMath.DivBounds(2 * bytes * t + d, 2 * d, t);
    JsMath.DivBounds(2 * bytes * t + d, 2 * d, 1024 * t + 1);
  }

  lemma {:induction false} ScaleProducts(bytes: int, d: int, t: int)
    ensures 2 * bytes * t == 2 * (bytes * t)
    ensures (1024 * d - 1) * t == 1024 * (d * t) - t
    ensures t * (2 * d) == 2 * (d * t)
    ensures (1024 * t + 1) * (2 * d) == 2048 * (d * t) + 2 * d
  {
  }

  lemma {:induction false} ShiftIsProduct(x: nat, k: nat)
    ensures Shift(x, k) == x * Pow(10, k)
  {
    if k > 0 {
      ShiftIsProduct(x, k - 1);
      TimesTen(x, Pow(10, k - 1));
    }
  }

  lemma {:induction false} TimesTen(x: int, p: int)
    ensures 10 * (x * p) == x * (10 * p)
  {
  }

  /** ScaledMagnitude is the rounded quotient it is documented as. */
  lemma {:induction false} ScaledMagnitudeQuotient(bytes: nat, i: nat, dm: nat)
    ensures ScaledMagnitude(bytes, i, dm) == (2 * bytes * Pow(10, dm) + Pow(1024, i)) / (2 * Pow(1024, i))
  {
    var t, d := Pow(10, dm), Pow(1024, i);
    ShiftIsProduct(bytes, dm);
    DoubleProduct(bytes, t);
    JsMath.FloorDivIsDiv(2 * Shift(bytes, dm) + d, 2 * d);
  }

  /** The integer part and the fraction digits together stand for m: the text is
      m / 10^k with every digit kept. */
  lemma {:induction false} DecimalDigitsValue(m: nat, k: nat)
    ensures Shift(IntegerPart(m, k), k) + NatValue(FractionDigits(m, k)) == m
  {
    if k > 0 {
      DecimalDigitsValue(m / 10, k - 1);
      var f := FractionDigits(m / 10, k - 1);
      assert (f + [DigitChar(m % 10)])[..|f|] == f;
      ShiftOfPart(IntegerPart(m / 10, k - 1), k - 1);
    }
  }

  lemma {:induction false} ShiftOfPart(x: nat, k: nat)
    ensures Shift(x, k + 1) == 10 * Shift(x, k)
  {
  }

  /** Digit text reads back as the number it was made from. */
  lemma {:induction false} NatTextRoundTrip(n: nat)
    ensures NatValue(NatText(n)) == n
  {
    if n >= 10 {
      NatTextRoundTrip(n / 10);
      var s := NatText(n / 10);
      assert (s + [DigitChar(n % 10)])[..|s|] == s;
    }
  }

  /** toFixed's choice: q / 10^dm is within half a unit of the last place of
      bytes / 1024^i, and a tie goes to the larger value. */
  lemma {:induction false} ScaledMagnitudeNearest(bytes: nat, i: nat, dm: nat)
    ensures var q, d, t := ScaledMagnitude(bytes, i, dm), Pow(1024, i), Pow(10, dm);
            2 * q * d - d <= 2 * bytes * t < 2 * q * d + d
  {
    var d, t := Pow(1024, i), Pow(10, dm);
    ScaledMagnitudeQuotient(bytes, i, dm);
    DoubleProduct(bytes, t);
    QuotientNearest(bytes * t, d);
  }

  lemma {:induction false} DoubleProduct(a: int, b: int)
    ensures 2 * a * b == 2 * (a * b)
  {
  }

  /** (2x + d) / 2d is the integer nearest to x / d, the larger on a tie. */
  lemma {:induction false} QuotientNearest(x: int, d: int)
    requires d > 0
    ensures var q := (2 * x + d) / (2 * d);
            2 * q * d - d <= 2 * x < 2 * q * d + d
  {
    var n := 2 * x + d;
    var q := n / (2 * d);
    assert n == (2 * d) * q + n % (2 * d);
    assert 2 * q * d == (2 * d) * q;
  }

  /** What formatBytes writes for a positive count: the numeral of some m / 10^k
      with at most dm places and no trailing zero in the fraction, then a space and
      the label of the unit whose magnitude lies in [1, 1024); m / 10^k is the dm-place
      number nearest to bytes / 1024^i (the larger one on a tie). */
  lemma {:induction false} FormatBytesMeaning(bytes: nat, decimals: int)
    requires 1 <= bytes && decimals <= 100
    ensures var dm: nat := if decimals < 0 then 0 else decimals;
            var i := UnitIndex(bytes);
            var d, t := Pow(1024, i), Pow(10, dm);
            && d <= bytes < Pow(1024, i + 1)
            && exists m: nat, k: nat ::
                 && k <= dm && (k > 0 ==> m % 10 != 0)
                 && FormatBytes(bytes, decimals) == DecimalText(m, k) + " " + UnitLabel(i)
                 && 2 * Shift(m, dm - k) * d - d <= 2 * bytes * t < 2 * Shift(m, dm - k) * d + d
  {
    var dm: nat := if decimals < 0 then 0 else decimals;
    var i := UnitIndex(bytes);
    UnitIndexBounds(bytes);
    var q := ScaledMagnitude(bytes, i, dm);
    var r := Trim(q, dm);
    TrimValue(q, dm);
    ScaledMagnitudeNearest(bytes, i, dm);
    assert FormatBytes(bytes, decimals) == DecimalText(r.0, r.1) + " " + UnitLabel(i);
  }

  lemma {:induction false} FormatOneKilobyte()
    ensures FormatSize(1024) == "1 KB"
  {
    UnitIndexUnique(1024, 1);
    ScaledMagnitudeQuotient(1024, 1, 2);
    assert Pow(10, 2) == 100;
    assert ScaledMagnitude(1024, 1, 2) == 100;
    assert Trim(100, 2) == (1, 0);
  }

  lemma {:induction false} FormatOneAndAHalfKilobytes()
    ensures FormatSize(1536) == "1.5 KB"
  {
    UnitIndexUnique(1536, 1);
    ScaledMagnitudeQuotient(1536, 1, 2);
    assert Pow(10, 2) == 100;
    assert ScaledMagnitude(1536, 1, 2) == 150;
    assert Trim(150, 2) == (15, 1);
    assert DecimalText(15, 1) == "1.5";
  }

  lemma {:induction false} FormatJustBelowOneMegabyte()
    ensures FormatSize(1048575) == "1024 KB"
  {
    UnitIndexUnique(1048575, 1);
    ScaledMagnitudeQuotient(1048575, 1, 2);
    assert Pow(10, 2) == 100;
    assert ScaledMagnitude(1048575, 1, 2) == 102400;
    assert Trim(102400, 2) == (1024, 0);
    assert NatText(1024) == "1024";
  }
}
