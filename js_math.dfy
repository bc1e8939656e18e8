/** JavaScript rounding on exact numbers, and the rounded percentage the pipelines report. */
module JsMath {

  /** Math.round: the integer nearest to x, halves rounded up. */
  function JsRound(x: real): (r: int)
    ensures r as real - 0.5 <= x < r as real + 0.5
  {
    (x + 0.5).Floor
  }

  /** The floor of n / d for a positive divisor, by repeated subtraction (the same
      number as Dafny's n / d, by FloorDivIsDiv). */
  function FloorDiv(n: int, d: nat): (q: int)
    requires d > 0
    ensures n >= 0 ==> q >= 0
    decreases if n < 0 then d - n else n
  {
    if n < 0 then FloorDiv(n + d, d) - 1
    else if n < d then 0
    else FloorDiv(n - d, d) + 1
  }

  /** Math.round(done / total * 100), computed in integers: the floor of
      (done * 200 + total) / (2 * total), also for a negative `done`. */
  function RoundPercent(done: int, total: nat): int
    requires total > 0
  {
    FloorDiv(done * 200 + total, 2 * total)
  }

  lemma {:induction false} MulMonotone(a: int, b: int, d: int)
    requires d > 0
    ensures a <= b ==> a * d <= b * d
  {
    if a <= b {
      assert (b - a) * d >= 0;
    }
  }

  lemma {:induction false} RealMulMonotone(a: real, b: real, d: real)
    requires d > 0.0
    ensures a <= b ==> a * d <= b * d
    ensures a < b ==> a * d < b * d
  {
    if a <= b {
      assert (b - a) * d >= 0.0;
    }
    if a < b {
      assert (b - a) * d > 0.0;
    }
  }

  /** Integer division by a positive divisor is bounded by its defining inequalities. */
  lemma {:induction false} DivBounds(n: int, d: int, q: int)
    requires d > 0
    ensures q * d <= n < (q + 1) * d ==> n / d == q
    ensures n >= q * d ==> n / d >= q
    ensures n < q * d ==> n / d < q
  {
    var k := n / d;
    assert k * d <= n < (k + 1) * d by {
      assert n == k * d + n % d;
      assert (k + 1) * d == k * d + d;
    }
    if k < q {
      MulMonotone(k + 1, q, d);
    } else if q < k {
      MulMonotone(q + 1, k, d);
      MulMonotone(q, k, d);
    }
  }

  /** The quotient brackets n between two consecutive multiples of d. */
  lemma {:induction false} DivBracket(n: int, d: int)
    requires d > 0
    ensures (n / d) * d <= n < (n / d + 1) * d
  {
    var k := n / d;
    assert n == k * d + n % d;
    assert (k + 1) * d == k * d + d;
  }

  /** Division by a positive divisor is monotone. */
  lemma {:induction false} DivMonotone(x: int, y: int, d: int)
    requires d > 0 && x <= y
    ensures x / d <= y / d
  {
    DivBracket(x, d);
    DivBounds(y, d, x / d);
  }

  /** Adding the divisor adds one to the quotient. */
  lemma {:induction false} DivShift(n: int, d: int)
    requires d > 0
    ensures (n + d) / d == n / d + 1
  {
    var q := n / d;
    assert n == q * d + n % d;
    assert (q + 1) * d == q * d + d && (q + 2) * d == q * d + 2 * d;
    DivBounds(n + d, d, q + 1);
  }

  lemma {:induction false} FloorDivIsDiv(n: int, d: nat)
    requires d > 0
    ensures FloorDiv(n, d) == n / d
    decreases if n < 0 then d - n else n
  {
    if n < 0 {
      FloorDivIsDiv(n + d, d);
      DivShift(n, d);
    } else if n < d {
      DivBounds(n, d, 0);
    } else {
      FloorDivIsDiv(n - d, d);
      DivShift(n - d, d);
    }
  }

  lemma {:induction false} CastMul(a: int, b: int)
    ensures (a * b) as real == (a as real) * (b as real)
  {
  }

  /** A real lying between two consecutive integers of a division has that floor. */
  lemma {:induction false} FloorFromProduct(y: real, n: int, d: int, q: int)
    requires d > 0 && y * (d as real) == n as real
    requires q * d <= n < (q + 1) * d
    ensures y.Floor == q
  {
    var dr := d as real;
    CastMul(q, d);
    CastMul(q + 1, d);
    assert (q as real) * dr <= y * dr;
    assert y * dr < ((q + 1) as real) * dr;
    RealMulMonotone(y, q as real, dr);
    RealMulMonotone((q + 1) as real, y, dr);
  }

  lemma {:induction false} PercentTimesDivisor(done: int, total: nat)
    requires total > 0
    ensures (done as real / total as real * 100.0 + 0.5) * ((2 * total) as real)
            == (done * 200 + total) as real
  {
    var t := total as real;
    var f := done as real / t;
    assert f * t == done as real;
    calc {
      (f * 100.0 + 0.5) * ((2 * total) as real);
      (f * 100.0 + 0.5) * (2.0 * t);
      (f * t) * 200.0 + t;
    }
  }

  /** The integer form is exactly Math.round applied to the percentage. */
  lemma {:induction false} RoundPercentIsJsRound(done: int, total: nat)
    requires total > 0
    ensures RoundPercent(done, total) == JsRound(done as real / total as real * 100.0)
  {
    var n, d := done * 200 + total, 2 * total;
    FloorDivIsDiv(n, d);
    DivBracket(n, d);
    PercentTimesDivisor(done, total);
    FloorFromProduct(done as real / total as real * 100.0 + 0.5, n, d, n / d);
  }

  lemma {:induction false} RoundPercentMonotone(a: int, b: int, total: nat)
    requires total > 0 && a <= b
    ensures RoundPercent(a, total) <= RoundPercent(b, total)
  {
    var d := 2 * total;
    FloorDivIsDiv(a * 200 + total, d);
    FloorDivIsDiv(b * 200 + total, d);
    DivMonotone(a * 200 + total, b * 200 + total, d);
  }

  /** Progress over 0..total pages runs from 0 to 100. */
  lemma {:induction false} RoundPercentRange(done: nat, total: nat)
    requires total > 0 && done <= total
    ensures 0 <= RoundPercent(done, total) <= 100
    ensures done == 0 ==> RoundPercent(done, total) == 0
    ensures done == total ==> RoundPercent(done, total) == 100
  {
    FloorDivIsDiv(total, 2 * total);
    FloorDivIsDiv(total * 201, 2 * total);
    DivBounds(total, 2 * total, 0);
    DivBounds(total * 201, 2 * total, 100);
    RoundPercentMonotone(done, total, total);
  }

  /** The value reported before the last of `total` steps is below 100 exactly when
      there are fewer than 200 steps. */
  lemma {:induction false} RoundPercentBelowHundred(total: nat)
    requires total > 0
    ensures RoundPercent(total - 1, total) < 100 <==> total < 200
  {
    FloorDivIsDiv((total - 1) * 200 + total, 2 * total);
    DivBounds((total - 1) * 200 + total, 2 * total, 100);
  }
}
