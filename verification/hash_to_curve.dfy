/** Deterministic parameter generation: `hash_to_int`, the try-and-increment
    search `map_to_curve` on the BN254 curve `y^2 = x^3 + 3` over FP, and the
    domain-separated labels of `gen_params`. The hash itself (SHA-256) is a
    parameter: only the way its digest is read and reduced is modelled. */
module HashToCurve {
  import opened Wrappers
  import opened ModArith
  import opened Fields

  type byte = x: int | 0 <= x < 256

  /** `int.from_bytes(bs, 'big')`. */
  function FromBytesBE(bs: seq<byte>): (n: nat)
    ensures n < Pow(256, |bs|)
    decreases |bs|
  {
    if |bs| == 0 then 0
    else
      var k := |bs| - 1;
      var hi := FromBytesBE(bs[..k]);
      assert Pow(256, |bs|) == 256 * Pow(256, k);
      MulMono(hi + 1, Pow(256, k), 256);
      hi * 256 + bs[k]
  }

  /** Big-endian reading of a concatenation: the leading bytes are shifted
      by one byte position per trailing byte. */
  lemma {:induction false} FromBytesBEConcat(a: seq<byte>, b: seq<byte>)
    ensures FromBytesBE(a + b) == FromBytesBE(a) * Pow(256, |b|) + FromBytesBE(b)
    decreases |b|
  {
    if |b| == 0 {
      assert a + b == a;
    } else {
      var k := |b| - 1;
      var ab := a + b;
      assert ab[..|ab| - 1] == a + b[..k];
      assert ab[|ab| - 1] == b[k];
      FromBytesBEConcat(a, b[..k]);
      var A, P, L := FromBytesBE(a), Pow(256, k), FromBytesBE(b[..k]);
      assert FromBytesBE(ab) == FromBytesBE(a + b[..k]) * 256 + b[k];
      assert FromBytesBE(b) == L * 256 + b[k];
      assert Pow(256, |b|) == 256 * P;
      ShiftDistributes(A, P, L, 256);
    }
  }

  lemma ShiftDistributes(A: int, P: int, L: int, c: int)
    ensures (A * P + L) * c == A * (c * P) + L * c
  {
  }

  /** `hash_to_int`: the digest read big-endian, reduced into the base field. */
  function HashToInt(hash: seq<byte> -> seq<byte>, b: seq<byte>): (x: int)
    ensures 0 <= x < FP
  {
    FromBytesBE(hash(b)) % FP
  }

  /** Right-hand side of the curve equation, computed as `pvc3_tools.py` does
      with `pow(x, 3, Fp)`. */
  function Rhs(x: int): (r: Felt)
    ensures r == (x * x * x + 3) % FP
  {
    var c := ModPow(x, 3, FP);
    CubeIsPow(x);
    CongMod(x * x * x, FP);
    CongAdd(c, x * x * x, 3, 3, FP);
    CongMod(c + 3, FP);
    ModOfCanonical((x * x * x + 3) % FP, FP);
    (c + 3) % FP
  }

  /** Exponent of the square-root candidate, valid because FP % 4 == 3. */
  const SQRT_EXP: nat := (FP + 1) / 4

  /** `pow(rhs, (Fp + 1) // 4, Fp)`: a square root of `rhs` when one exists. */
  function SqrtCandidate(rhs: int): Felt
  {
    ModPow(rhs, SQRT_EXP, FP)
  }

  /** The point `(x, y)` satisfies the curve equation modulo FP. */
  predicate OnCurve(x: int, y: int)
  {
    (y * y) % FP == (x * x * x + 3) % FP
  }

  /** The explicit check of one iteration: the candidate squares back to the
      right-hand side. */
  predicate Accepts(x: int)
  {
    var y := SqrtCandidate(Rhs(x));
    (y * y) % FP == Rhs(x)
  }

  /** The candidate abscissa after `k` increments of `x`. */
  function Step(x: Felt, k: nat): Felt
  {
    (x + k) % FP
  }

  /** The `while True` loop of `map_to_curve` from abscissa `x`, cut off after
      `fuel` candidates (the Python loop has no bound). */
  function Search(x: Felt, fuel: nat): (r: Option<(Felt, Felt)>)
    ensures r.Some? ==> OnCurve(r.value.0, r.value.1)
    decreases fuel
  {
    if fuel == 0 then None
    else
      var rhs := Rhs(x);
      var y := SqrtCandidate(rhs);
      if (y * y) % FP == rhs then Some((x, y))
      else Search((x + 1) % FP, fuel - 1)
  }

  /** `map_to_curve`: start from the hashed seed and search. */
  function MapToCurve(hash: seq<byte> -> seq<byte>, seed: seq<byte>, fuel: nat): (r: Option<(Felt, Felt)>)
    ensures r.Some? ==> OnCurve(r.value.0, r.value.1)
    ensures fuel > 0 && Accepts(HashToInt(hash, seed)) ==> r.Some? && r.value.0 == HashToInt(hash, seed)
  {
    Search(HashToInt(hash, seed), fuel)
  }

  /** Each retry advances the abscissa by exactly one, modulo FP. */
  lemma StepNext(x: Felt, j: nat)
    ensures Step((x + 1) % FP, j) == Step(x, j + 1)
  {
    CongMod(x + 1, FP);
    CongAdd((x + 1) % FP, x + 1, j, j, FP);
  }

  lemma StepZero(x: Felt)
    ensures Step(x, 0) == x
  {
    ModOfCanonical(x, FP);
  }

  /** The search returns the first accepted candidate within the fuel, with
      the square root it checked. */
  lemma {:induction false} SearchFindsFirst(x: Felt, fuel: nat, k: nat)
    requires k < fuel
    requires forall j :: 0 <= j < k ==> !Accepts(Step(x, j))
    requires Accepts(Step(x, k))
    ensures Search(x, fuel) == Some((Step(x, k), SqrtCandidate(Rhs(Step(x, k)))))
    decreases k
  {
    StepZero(x);
    if k > 0 {
      assert !Accepts(Step(x, 0));
      var x' := (x + 1) % FP;
      forall j | 0 <= j < k - 1
        ensures !Accepts(Step(x', j))
      {
        StepNext(x, j);
      }
      StepNext(x, k - 1);
      SearchFindsFirst(x', fuel - 1, k - 1);
    }
  }

  /** When no candidate within the fuel is accepted the search gives up. */
  lemma {:induction false} SearchExhausted(x: Felt, fuel: nat)
    requires forall j :: 0 <= j < fuel ==> !Accepts(Step(x, j))
    ensures Search(x, fuel) == None
    decreases fuel
  {
    if fuel > 0 {
      StepZero(x);
      assert !Accepts(Step(x, 0));
      var x' := (x + 1) % FP;
      forall j | 0 <= j < fuel - 1
        ensures !Accepts(Step(x', j))
      {
        StepNext(x, j);
      }
      SearchExhausted(x', fuel - 1);
    }
  }

  /** Domain labels of `gen_params`, as the ASCII bytes of "H|", "G|0|",
      "G|1|" and "G|2|", in the order H, G0, G1, G2. */
  const LABELS: seq<seq<byte>> := [[72, 124], [71, 124, 48, 124], [71, 124, 49, 124], [71, 124, 50, 124]]

  /** `gen_params`: one hash-to-curve search per label, each prefixed to the
      (already encoded) seed. */
  function GenParams(hash: seq<byte> -> seq<byte>, seed: seq<byte>, fuel: nat): (ps: seq<Option<(Felt, Felt)>>)
    ensures |ps| == |LABELS|
    ensures forall i :: 0 <= i < |ps| && ps[i].Some? ==> OnCurve(ps[i].value.0, ps[i].value.1)
  {
    seq(|LABELS|, i requires 0 <= i < |LABELS| => MapToCurve(hash, LABELS[i] + seed, fuel))
  }

  /** The labels are prefix-free, so two different generators never hash the
      same byte string, whatever the seeds. */
  lemma LabelsSeparate(i: nat, j: nat, s1: seq<byte>, s2: seq<byte>)
    requires i < |LABELS| && j < |LABELS| && i != j
    ensures LABELS[i] + s1 != LABELS[j] + s2
  {
    if i == 0 || j == 0 {
      assert (LABELS[i] + s1)[0] != (LABELS[j] + s2)[0];
    } else {
      assert (LABELS[i] + s1)[2] != (LABELS[j] + s2)[2];
    }
  }
}
