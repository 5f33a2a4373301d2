/** The BN254 group G1, abstracted. A point other than the identity is
    represented by its discrete logarithm with respect to one fixed
    generator, a non-zero scalar; the identity is `None`, exactly as the
    curve library returns it from a zero multiple or from `P + (-P)`.
    Because the encoding is canonical, point equality (coordinate equality
    in the library) is equality of these values. The library's `add` and
    `multiply` become addition and multiplication of logarithms mod FR. */
module Group {
  import opened Wrappers
  import opened ModArith
  import opened Fields

  type Log = k: int | 0 < k < FR witness 1

  type Point = Option<Log>

  /** The discrete logarithm of a point; the identity has logarithm 0. */
  function Dlog(p: Point): Scalar
  {
    match p
    case None => 0
    case Some(k) => k
  }

  /** The point with a given logarithm. */
  function Embed(k: Scalar): (p: Point)
    ensures Dlog(p) == k
  {
    if k == 0 then None else Some(k)
  }

  /** A point is determined by its logarithm. */
  lemma DlogInjective(p: Point, q: Point)
    requires Dlog(p) == Dlog(q)
    ensures p == q
  {
  }

  /** `point_add`: the identity short-circuits on either side; otherwise the
      library's group law applies. */
  function PointAdd(a: Point, b: Point): (c: Point)
    ensures a.None? ==> c == b
    ensures b.None? ==> c == a
    ensures Dlog(c) == (Dlog(a) + Dlog(b)) % FR
  {
    if a.None? then
      ModOfCanonical(Dlog(b), FR);
      b
    else if b.None? then
      ModOfCanonical(Dlog(a), FR);
      a
    else
      Embed((a.value + b.value) % FR)
  }

  /** `point_mul`: the scalar is reduced mod FR before the library multiplies.
      `pvc3_tools.py` dereferences the point's coordinates, so the identity is not
      an admissible argument. */
  function PointMul(p: Point, s: int): (c: Point)
    requires p.Some?
    ensures Dlog(c) == (Dlog(p) * s) % FR
  {
    CongMul(ToFr(s), s, p.value, FR);
    assert s * p.value == Dlog(p) * s;
    Embed((ToFr(s) * p.value) % FR)
  }

  /** Scalars that differ by a multiple of the order give the same point. */
  lemma PointMulPeriodic(p: Point, s: int, k: int)
    requires p.Some?
    ensures PointMul(p, s + k * FR) == PointMul(p, s)
  {
    ModMultiple(s, k, FR);
    assert ToFr(s + k * FR) == ToFr(s);
  }

  /** The abstract group law is commutative and associative, as the curve's is. */
  lemma PointAddCommutes(a: Point, b: Point)
    ensures PointAdd(a, b) == PointAdd(b, a)
  {
    DlogInjective(PointAdd(a, b), PointAdd(b, a));
  }

  lemma PointAddAssociates(a: Point, b: Point, c: Point)
    ensures PointAdd(PointAdd(a, b), c) == PointAdd(a, PointAdd(b, c))
  {
    var x, y, z := Dlog(a), Dlog(b), Dlog(c);
    CongMod(x + y, FR);
    CongAdd((x + y) % FR, x + y, z, z, FR);
    CongMod(y + z, FR);
    CongAdd(x, x, (y + z) % FR, y + z, FR);
    DlogInjective(PointAdd(PointAdd(a, b), c), PointAdd(a, PointAdd(b, c)));
  }
}
