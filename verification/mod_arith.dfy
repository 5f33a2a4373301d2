/** Facts about Euclidean remainder and modular exponentiation. Every lemma
    is stated for an arbitrary positive modulus `m`; the group order and the
    field modulus are plugged in where the model uses them. For a positive
    modulus Python's `%` (which floors) and Dafny's `%` (Euclidean) agree. */
module ModArith {

  /** `a` and `b` are congruent modulo `m`. */
  predicate Cong(a: int, b: int, m: int)
    requires m > 0
  {
    a % m == b % m
  }

  /** Quotient and remainder are unique: any decomposition `a == q*m + r`
      with `0 <= r < m` is the Euclidean one. */
  lemma ModUnique(a: int, q: int, r: int, m: int)
    requires m > 0 && 0 <= r < m && a == q * m + r
    ensures a % m == r && a / m == q
  {
    var q0, r0 := a / m, a % m;
    assert q * m + r == q0 * m + r0;
    SmallMultiple(q - q0, m, r0 - r);
  }

  /** The only multiple of `m` strictly between `-m` and `m` is zero. */
  lemma SmallMultiple(d: int, m: int, e: int)
    requires m > 0 && -m < e < m && d * m == e
    ensures d == 0
  {
    if d > 0 {
      MulAtLeast(d, m);
    } else if d < 0 {
      MulAtLeast(-d, m);
    }
  }

  lemma {:induction false} MulAtLeast(d: int, m: int)
    requires d >= 1 && m > 0
    ensures d * m >= m
    decreases d
  {
    if d > 1 {
      MulAtLeast(d - 1, m);
      assert d * m == (d - 1) * m + m;
    }
  }

  /** Multiplying by a positive number preserves order. */
  lemma MulMono(x: int, y: int, d: int)
    requires x <= y && d > 0
    ensures x * d <= y * d
  {
    if x < y {
      MulAtLeast(y - x, d);
      assert y * d - x * d == (y - x) * d;
    }
  }

  /** A canonical representative is its own remainder. */
  lemma ModOfCanonical(a: int, m: int)
    requires m > 0 && 0 <= a < m
    ensures a % m == a
  {
    ModUnique(a, 0, a, m);
  }

  /** Reducing leaves every canonical representative unchanged. */
  lemma ReduceFixesCanonical(a: int, m: int)
    requires m > 0
    ensures 0 <= a < m ==> a % m == a
  {
    if 0 <= a < m {
      ModOfCanonical(a, m);
    }
  }

  /** Adding a multiple of the modulus does not change the remainder. */
  lemma ModMultiple(a: int, k: int, m: int)
    requires m > 0
    ensures (a + k * m) % m == a % m
  {
    assert a == (a / m) * m + a % m;
    assert a + k * m == (a / m + k) * m + a % m;
    ModUnique(a + k * m, a / m + k, a % m, m);
  }

  /** Reducing is a congruence. */
  lemma CongMod(a: int, m: int)
    requires m > 0
    ensures Cong(a % m, a, m)
  {
    ModOfCanonical(a % m, m);
  }

  /** Two canonical representatives of the same class are equal. */
  lemma CongCanonical(a: int, b: int, m: int)
    requires m > 0 && 0 <= a < m && 0 <= b < m && Cong(a, b, m)
    ensures a == b
  {
    ModOfCanonical(a, m);
    ModOfCanonical(b, m);
  }

  lemma CongAdd(a: int, b: int, c: int, d: int, m: int)
    requires m > 0 && Cong(a, b, m) && Cong(c, d, m)
    ensures Cong(a + c, b + d, m)
  {
    SplitSum(a, c, m);
    SplitSum(b, d, m);
  }

  /** The remainder of a sum only depends on the remainders of its terms. */
  lemma SplitSum(a: int, c: int, m: int)
    requires m > 0
    ensures (a + c) % m == (a % m + c % m) % m
  {
    var qa, qc := a / m, c / m;
    assert a == qa * m + a % m;
    assert c == qc * m + c % m;
    assert a + c == (a % m + c % m) + (qa + qc) * m;
    ModMultiple(a % m + c % m, qa + qc, m);
  }

  lemma CongMul(a: int, b: int, x: int, m: int)
    requires m > 0 && Cong(a, b, m)
    ensures Cong(a * x, b * x, m)
  {
    assert a == (a / m) * m + a % m;
    assert a * x == (a % m) * x + ((a / m) * x) * m;
    ModMultiple((a % m) * x, (a / m) * x, m);
    assert b == (b / m) * m + b % m;
    assert b * x == (b % m) * x + ((b / m) * x) * m;
    ModMultiple((b % m) * x, (b / m) * x, m);
  }

  lemma CongTrans(a: int, b: int, c: int, m: int)
    requires m > 0 && Cong(a, b, m) && Cong(b, c, m)
    ensures Cong(a, c, m)
  {
  }

  /** Integer power, the reference for `ModPow`. */
  function Pow(b: int, e: nat): int
  {
    if e == 0 then 1 else b * Pow(b, e - 1)
  }

  lemma {:induction false} PowAdd(b: int, e1: nat, e2: nat)
    ensures Pow(b, e1 + e2) == Pow(b, e1) * Pow(b, e2)
    decreases e1
  {
    if e1 > 0 {
      PowAdd(b, e1 - 1, e2);
      assert Pow(b, e1 + e2) == b * Pow(b, e1 - 1 + e2);
      assert b * (Pow(b, e1 - 1) * Pow(b, e2)) == (b * Pow(b, e1 - 1)) * Pow(b, e2);
    }
  }

  lemma CubeIsPow(x: int)
    ensures Pow(x, 3) == x * x * x
  {
    assert Pow(x, 1) == x;
    assert Pow(x, 2) == x * x;
  }

  /** Square-and-multiply modular exponentiation, Python's three-argument
      `pow(b, e, m)` for a positive modulus: the result is the canonical
      remainder of the integer power `b^e`. */
  function ModPow(b: int, e: nat, m: int): (r: int)
    requires m > 0
    ensures 0 <= r < m
    ensures r == Pow(b, e) % m
    decreases e
  {
    if e == 0 then
      (ModOfCanonical(1 % m, m); 1 % m)
    else
      var h := ModPow(b, e / 2, m);
      var p := Pow(b, e / 2);
      var sq := (h * h) % m;
      SquareCong(h, p, m);
      PowAdd(b, e / 2, e / 2);
      if e % 2 == 0 then
        sq
      else
        PowAdd(b, e / 2 + e / 2, 1);
        assert Pow(b, 1) == b;
        CongMod(h * h, m);
        CongMul(sq, p * p, b, m);
        CongMod(b, m);
        CongMul(b, b % m, sq, m);
        (sq * (b % m)) % m
  }

  /** Squares of congruent numbers are congruent. */
  lemma SquareCong(h: int, p: int, m: int)
    requires m > 0 && h == p % m
    ensures (h * h) % m == (p * p) % m
  {
    CongMod(p, m);
    CongMul(h, p, h, m);
    CongMul(h, p, p, m);
  }
}
