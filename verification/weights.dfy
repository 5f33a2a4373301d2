/** Per-submission weights, `weight_numerator(error_bps, eps_bps, WEIGHT_BASE)`. */
module Weights {
  import opened ModArith

  /** Default fixed-point base of the weights, 10^12. */
  const WEIGHT_BASE: int := 1_000_000_000_000

  /** Python's `a // b`: the floor of the rational quotient, for either sign
      of `b` (Dafny's `/` rounds differently when `b < 0`). */
  function FloorDiv(a: int, b: int): (q: int)
    requires b != 0
    ensures b > 0 ==> q * b <= a < q * b + b
    ensures b < 0 ==> q * b + b < a <= q * b
  {
    if b > 0 then a / b
    else
      assert (-a) == ((-a) / (-b)) * (-b) + (-a) % (-b);
      (-a) / (-b)
  }

  /** The floor quotient is the only integer with the floor property, for
      either sign of the divisor. */
  lemma FloorDivUnique(a: int, b: int, q: int)
    requires b != 0
    requires b > 0 ==> q * b <= a < q * b + b
    requires b < 0 ==> q * b + b < a <= q * b
    ensures FloorDiv(a, b) == q
  {
    if b < 0 {
      assert q * (-b) <= -a < q * (-b) + (-b);
      FloorDivPositiveUnique(-a, -b, q);
      assert FloorDiv(a, b) == (-a) / (-b);
    } else {
      FloorDivPositiveUnique(a, b, q);
    }
  }

  lemma FloorDivPositiveUnique(a: int, b: int, q: int)
    requires b > 0 && q * b <= a < q * b + b
    ensures FloorDiv(a, b) == q
  {
    var f := FloorDiv(a, b);
    var d := f - q;
    assert d * b == f * b - q * b;
    if d > 0 {
      MulAtLeast(d, b);
    } else if d < 0 {
      MulAtLeast(-d, b);
    }
  }

  /** `weight_numerator`: the base divided (flooring) by the smoothed error,
      a zero denominator being clamped to 1. */
  function WeightNumerator(errorBps: int, epsBps: int, weightBase: int): (n: int)
    ensures errorBps + epsBps == 0 ==> n == weightBase
    ensures errorBps + epsBps > 0 ==>
              n * (errorBps + epsBps) <= weightBase < (n + 1) * (errorBps + epsBps)
    ensures errorBps + epsBps < 0 ==>
              (n + 1) * (errorBps + epsBps) < weightBase <= n * (errorBps + epsBps)
  {
    var denom := if errorBps + epsBps == 0 then 1 else errorBps + epsBps;
    FloorDiv(weightBase, denom)
  }

  /** For a fixed smoothing term and a non-negative base, a larger error never
      earns a larger weight (the clamped zero denominator included). */
  lemma WeightNumeratorMonotone(e1: int, e2: int, epsBps: int, weightBase: int)
    requires weightBase >= 0
    requires 0 <= e1 + epsBps && e1 <= e2
    ensures WeightNumerator(e2, epsBps, weightBase) <= WeightNumerator(e1, epsBps, weightBase)
  {
    var d1 := if e1 + epsBps == 0 then 1 else e1 + epsBps;
    var d2 := e2 + epsBps;
    var n1, n2 := WeightNumerator(e1, epsBps, weightBase), WeightNumerator(e2, epsBps, weightBase);
    if d2 > 0 {
      assert n1 * d1 <= weightBase < (n1 + 1) * d1;
      FloorAntitone(weightBase, d1, d2, n1, n2);
    }
  }

  /** Dividing a non-negative number by a larger divisor floors lower. */
  lemma FloorAntitone(a: int, d1: int, d2: int, q1: int, q2: int)
    requires a >= 0 && 0 < d1 <= d2
    requires q1 * d1 <= a < (q1 + 1) * d1
    requires q2 * d2 <= a
    ensures q2 <= q1
  {
    if q2 > q1 {
      if q1 + 1 <= 0 {
        MulMono(q1 + 1, 0, d1);
      }
      MulMono(q1 + 1, q2, d1);
      MulMono(d1, d2, q2);
    }
  }

  /** With a non-negative smoothed error the weight lies in `[0, base]`. */
  lemma WeightNumeratorBounded(errorBps: int, epsBps: int, weightBase: int)
    requires weightBase >= 0 && errorBps + epsBps >= 0
    ensures 0 <= WeightNumerator(errorBps, epsBps, weightBase) <= weightBase
  {
    var d := errorBps + epsBps;
    var n := WeightNumerator(errorBps, epsBps, weightBase);
    if d > 0 {
      if n < 0 {
        MulAtLeast(-(n + 1) + 1, d);
      }
      if n > weightBase {
        assert n >= 1;
        MulMono(1, d, n);
      }
    }
  }
}
