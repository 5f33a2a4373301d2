/** The two BN254 moduli and the maps from Python integers into the scalar
    domain (scripts/pvc3_tools.py, `Fr`, `Fp`, `to_fr`, `to_fr_int`). */
module Fields {
  import opened ModArith

  /** Order of the BN254 group: scalars and committed entries live mod FR. */
  const FR: int := 21888242871839275222246405745257275088548364400416034343698204186575808495617

  /** Modulus of the BN254 base field: point coordinates live mod FP. */
  const FP: int := 21888242871839275222246405745257275088696311157297823662689037894645226208583

  /** A canonical scalar, reduced modulo the group order. */
  type Scalar = x: int | 0 <= x < FR

  /** A canonical base-field element. */
  type Felt = x: int | 0 <= x < FP

  /** `to_fr`: reduce any integer into the scalar domain. Already reduced
      values are left alone, so reducing twice is the same as reducing once. */
  function ToFr(x: int): (r: Scalar)
    ensures Cong(r, x, FR)
    ensures 0 <= x < FR ==> r == x
  {
    CongMod(x, FR);
    ReduceFixesCanonical(x, FR);
    x % FR
  }

  /** `to_fr_int`: map a signed integer into the scalar domain, reducing the
      magnitude of a negative input and subtracting it from the order. */
  function ToFrInt(x: int): (r: Scalar)
    ensures Cong(r, x, FR)
  {
    if x >= 0 then
      CongMod(x, FR);
      x % FR
    else
      var ux := (-x) % FR;
      NegativeWrap(x, FR);
      if ux == 0 then 0 else FR - ux
  }

  /** The wrap-around of a negative `x` lands in the class of `x`. */
  lemma NegativeWrap(x: int, m: int)
    requires m > 0 && x < 0
    ensures var ux := (-x) % m; Cong(if ux == 0 then 0 else m - ux, x, m)
  {
    var q, ux := (-x) / m, (-x) % m;
    assert -x == q * m + ux;
    if ux == 0 {
      assert x == (-q) * m + 0;
      ModUnique(x, -q, 0, m);
    } else {
      assert x == (-q - 1) * m + (m - ux);
      ModUnique(x, -q - 1, m - ux, m);
      ModOfCanonical(m - ux, m);
    }
  }

  /** The explicit wrap-around of `to_fr_int` agrees with the Euclidean
      reduction of `to_fr` on every integer, negative ones included. */
  lemma ToFrIntIsToFr(x: int)
    ensures ToFrInt(x) == ToFr(x)
  {
    CongCanonical(ToFrInt(x), ToFr(x), FR);
  }

  /** The signed mapping preserves additive inverses exactly. */
  lemma ToFrIntNegation(x: int)
    ensures (ToFrInt(x) + ToFrInt(-x)) % FR == 0
  {
    CongAdd(ToFrInt(x), x, ToFrInt(-x), -x, FR);
  }
}
