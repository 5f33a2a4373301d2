# PVC-3 Pedersen commitment aggregator: Dafny model

This project models the scalar and commitment logic of `scripts/pvc3_tools.py`, which
implements a Pedersen-commitment weighted aggregator on the BN254 curve:

* **Scalars** (`fields.dfy`): the group order `Fr` and the field modulus `Fp`. `to_fr`
  reduces an integer modulo `Fr`. `to_fr_int` maps a signed integer into `[0, Fr)` by
  explicit wrap-around.
* **Group** (`group.dfy`): the curve group G1 is modelled abstractly. A point is its
  discrete logarithm, a non-zero scalar. `None` is the identity, which is how the curve
  library encodes it. `point_add` short-circuits on `None`. `point_mul` reduces its
  scalar modulo `Fr` first.
* **Commitment** (`commitment.dfy`): `pedersen_commit` is a left fold of `point_add` over
  `zip(w, Gs)`, starting from `None`. The blinding term `to_fr(r)·H` is added last.
* **Weights** (`weights.dfy`): `weight_numerator` uses Python floor division. It clamps
  a zero denominator to 1.
* **Aggregator** (`aggregator.dfy`): `aggregate_wsum_rsum` computes the numerators and
  the modular sums `Wsum` and `Rsum`. It then runs the consistency check
  `Σ num_i·C_i == Commit(Wsum, Rsum)`. The check is modelled as a `Result`, and a
  mismatch is a `Failure`.
* **Parameter generation** (`hash_to_curve.dfy`): `hash_to_int` reads the digest
  big-endian and reduces it modulo `Fp`. `map_to_curve` is a try-and-increment search
  for a point on `y² = x³ + 3`. `gen_params` uses the domain labels `H|`, `G|0|`,
  `G|1|` and `G|2|`.
* `mod_arith.dfy` holds the modular-arithmetic facts the proofs use, including
  square-and-multiply `pow(b, e, m)`. `wrappers.dfy` holds `Option` and `Result`.

The central result is `Aggregator.HomomorphicIdentity`. Let every commitment be taken
over the same three generators as the aggregate. Then, for any integer weights, the
weighted sum of the commitments equals the commitment to the weighted sums. So the
assertion at line 82 of the source cannot fire. If some vector has more than three
entries and there are more than three generators, the two sides use different
generators. The model then allows `Failure`, as the source's assertion would; `Aggregator.WiderVectorsCanMismatch` exhibits one such batch.

In two places the code behaves differently from what a reader might expect, and the model follows the code:

* Commitments with mismatched lengths are not rejected. `zip` truncates silently
  (`Commitment.CommitTruncates`).
* The numerator uses Python floor division for every sign of the denominator.

Python's `%` with a positive modulus floors. For a positive modulus it agrees with
Dafny's Euclidean `%`, so `x % Fr` is written directly.

## Model

| member | source | states |
|---|---|---|
| `Fields.ToFr` | scripts/pvc3_tools.py:30-31 | the result lies in `[0, Fr)` and is congruent to the input; a value already in `[0, Fr)` is returned unchanged, so the double reduction `to_fr(to_fr_int(w))` of line 50 is the identity on its argument |
| `Fields.ToFrInt` | scripts/pvc3_tools.py:33-37 | the wrap-around of a negative input lands in `[0, Fr)` and stays congruent to the input |
| `Fields.ToFrIntIsToFr` | scripts/pvc3_tools.py:30-37 | `to_fr_int(x) == to_fr(x)` for every integer, negative ones included |
| `Fields.ToFrIntNegation` | scripts/pvc3_tools.py:33-37 | `to_fr_int(x) + to_fr_int(-x) ≡ 0 (mod Fr)` for every `x` |
| `Group.PointAdd` | scripts/pvc3_tools.py:42-45 | `point_add(None, B) == B` and `point_add(A, None) == A`; in every case the logarithm of the sum is the sum of the logarithms mod `Fr` |
| `Group.PointMul` | scripts/pvc3_tools.py:39-40 | for a proper point, the logarithm of `point_mul(P, s)` is `log(P)·s mod Fr`, for any integer `s` |
| `Group.PointMulPeriodic` | scripts/pvc3_tools.py:39-40 | `point_mul(P, s + k·Fr) == point_mul(P, s)` for every integer `k` |
| `Group.PointAddCommutes` | scripts/pvc3_tools.py:42-45 | point addition, identity short-circuits included, is commutative |
| `Group.PointAddAssociates` | scripts/pvc3_tools.py:42-45 | point addition, identity short-circuits included, is associative |
| `Commitment.CommitLoopSums` | scripts/pvc3_tools.py:48-50 | the `zip` loop adds `Σ to_fr_int(w_i)·log(G_i)` to its accumulator, modulo `Fr` |
| `Commitment.CommitIsLinear` | scripts/pvc3_tools.py:47-52 | the commitment's logarithm is `Σ to_fr_int(w_i)·log(G_i) + r·log(H) mod Fr`, over the first `min(|w|, |Gs|)` pairs |
| `Commitment.DotTruncates` | scripts/pvc3_tools.py:49 | the vector part only depends on the first `min(|w|, |Gs|)` pairs |
| `Commitment.CommitTruncates` | scripts/pvc3_tools.py:47-52 | mismatched lengths are not rejected: the commitment equals the one over the common prefix |
| `Weights.FloorDiv` | scripts/pvc3_tools.py:65 | Python `a // b`: `q·b <= a < (q+1)·b` for `b > 0`, and the mirrored bounds for `b < 0` |
| `Weights.FloorDivUnique` | scripts/pvc3_tools.py:65 | any integer with the floor property, for either sign of the divisor, is the floor quotient |
| `Weights.WeightNumerator` | scripts/pvc3_tools.py:62-65 | a zero denominator gives `WEIGHT_BASE`; otherwise the result is the floor of `WEIGHT_BASE / (error_bps + eps_bps)`, for either sign of the denominator |
| `Weights.WeightNumeratorMonotone` | scripts/pvc3_tools.py:62-65 | for fixed `eps_bps`, a non-negative base and a non-negative smoothed error, a larger `error_bps` never gives a larger numerator |
| `Weights.WeightNumeratorBounded` | scripts/pvc3_tools.py:62-65 | with a non-negative smoothed error the numerator lies in `[0, WEIGHT_BASE]` |
| `ModArith.ModPow` | scripts/pvc3_tools.py:16-18 | three-argument `pow(b, e, m)` is the canonical remainder of the integer power `b^e` |
| `HashToCurve.FromBytesBE` | scripts/pvc3_tools.py:11 | big-endian reading of `n` bytes is below `256^n` |
| `HashToCurve.FromBytesBEConcat` | scripts/pvc3_tools.py:11 | reading `a + b` big-endian is `value(a)·256^|b| + value(b)` |
| `HashToCurve.HashToInt` | scripts/pvc3_tools.py:10-11 | the starting abscissa lies in `[0, Fp)` |
| `HashToCurve.Rhs` | scripts/pvc3_tools.py:16 | `(pow(x, 3, Fp) + 3) % Fp` is `(x³ + 3) mod Fp` |
| `HashToCurve.Search` | scripts/pvc3_tools.py:15-21 | every point the loop returns satisfies `y² ≡ x³ + 3 (mod Fp)`, with both coordinates in `[0, Fp)` |
| `HashToCurve.MapToCurve` | scripts/pvc3_tools.py:13-21 | every returned point is on the curve; if the hashed abscissa passes the check, it is returned unchanged |
| `HashToCurve.StepNext` | scripts/pvc3_tools.py:21 | each retry advances the abscissa by exactly one, modulo `Fp` |
| `HashToCurve.SearchFindsFirst` | scripts/pvc3_tools.py:14-21 | if the `k`-th increment is the first accepted candidate, the search returns exactly that abscissa and the root it checked |
| `HashToCurve.SearchExhausted` | scripts/pvc3_tools.py:15-21 | if no candidate within the bound passes the check, the search returns nothing |
| `HashToCurve.GenParams` | scripts/pvc3_tools.py:23-28 | four generators in the order H, G0, G1, G2, each on the curve |
| `HashToCurve.LabelsSeparate` | scripts/pvc3_tools.py:24-27 | the four domain labels of H, G0, G1 and G2 are prefix-free, so two generators never hash the same input, whatever the seeds |
| `Aggregator.AddTerm` | scripts/pvc3_tools.py:73-75 | one update `(acc + (num·v) % Fr) % Fr` is congruent to `acc + num·v` |
| `Aggregator.AccumulateStep` | scripts/pvc3_tools.py:72-75 | one loop iteration keeps `Wsum` at three entries, moves `Rsum` by `num·r` and each `Wsum[j]` by `num·to_fr_int(w[j])`, modulo `Fr` |
| `Aggregator.AccumulateSums` | scripts/pvc3_tools.py:72-75 | over the whole `zip(nums, submissions)` loop, which keeps `Wsum` at three entries, the running `Rsum` stays congruent to `acc + Σ num_i·r_i`, and each `Wsum[j]` to `acc_j + Σ num_i·to_fr_int(w_i[j])` |
| `Aggregator.AccumulateFromZero` | scripts/pvc3_tools.py:70-75 | starting from zero, `Rsum` is `Σ num_i·r_i mod Fr` and `Wsum[j]` is `Σ num_i·to_fr_int(w_i[j]) mod Fr` |
| `Aggregator.CsumLoopSums` | scripts/pvc3_tools.py:78-80 | the `Csum` loop adds `Σ num_i·log(C_i)` to its accumulator, modulo `Fr` |
| `Aggregator.DotOfWidth` | scripts/pvc3_tools.py:49 | when the commitment uses three components, its vector part is the three-term sum over the generators present |
| `Aggregator.CommitOpening` | scripts/pvc3_tools.py:77 | each submission's commitment opens to `Σ_j to_fr_int(w[j])·log(G_j) + r·log(H)` modulo `Fr` |
| `Aggregator.CongLinear` | scripts/pvc3_tools.py:81 | the step that lets the reduced `Wsum` and `Rsum` stand for the unreduced weighted sums inside the commitment of line 81: congruent coefficients give congruent combinations of the generators |
| `Aggregator.WeightedOpenings` | scripts/pvc3_tools.py:76-80 | weighting the openings one by one agrees, modulo `Fr`, with opening the weighted sums |
| `Aggregator.CsumOpens` | scripts/pvc3_tools.py:77-80 | `Σ num_i·C_i` opens to `Σ_j Wsum_j·log(G_j) + Rsum·log(H)` before reduction |
| `Aggregator.AggregateCommitOpens` | scripts/pvc3_tools.py:81 | `pedersen_commit(H, Gs, Wsum, Rsum)` opens to the same combination |
| `Aggregator.HomomorphicIdentity` | scripts/pvc3_tools.py:76-82 | for any integer weights, `Σ num_i·Commit(w_i, r_i) == Commit(Wsum, Rsum)` whenever every commitment uses the same three generators |
| `Aggregator.Aggregate` | scripts/pvc3_tools.py:67-83 | on success: one numerator per submission, in order; their unreduced sum; `Wsum` with three reduced weighted sums; `Rsum` the reduced weighted blinding. The check never fails when there are at most three generators or every vector has exactly three entries |
| `Aggregator.WiderVectorsCanMismatch` | scripts/pvc3_tools.py:70-82 | with four generators and one submission `w = [0, 0, 0, 1]`, the fourth entry enters `C_1` but not `Wsum`, and the aggregation fails |
| `Aggregator.ExampleNumerators` | scripts/pvc3_tools.py:91-96 | the example batch with `eps_bps = 1` has numerators `666222518`, `1248439450` and `199960007` |

## Left out

- The curve itself: py_ecc's `add`, `multiply` and `FQ` are replaced by the discrete-log model of the group. No curve formulas are implemented. The abstract points used by the commitment are not linked to the coordinates `gen_params` computes, because that link is the discrete logarithm of a hashed point.
- SHA-256: the hash is the parameter `hash` of `HashToInt`, `MapToCurve` and `GenParams`. Only its big-endian reading and reduction modulo `Fp` are modelled.
- `seed.encode()`: `GenParams` takes the seed as already encoded bytes.
- The square-root exponent `(Fp + 1) / 4`: the model never claims it finds a root. It relies only on the explicit squaring check of line 19.
- HashToCurve.Search: the loop of `map_to_curve` is unbounded in the source. The model searches at most `fuel` candidates and returns `None` when they all fail. Termination for the real `Fp` is not proved.
- HashToCurve.MapToCurve: inherits the `fuel` bound of `Search`.
- HashToCurve.GenParams: inherits the `fuel` bound of `Search`.
- Determinism of `gen_params` and `pedersen_commit`: every Dafny function is deterministic, so no lemma states it.
- `print_sol_constants` and the `__main__` block (lines 54-60 and 85-100): console output and hexadecimal formatting. Only the example numerators are stated.
- Vectors shorter than three entries: `aggregate_wsum_rsum` raises `IndexError` on them. The aggregator requires at least three entries per submission.
- `point_mul` on the identity: line 40 dereferences the point's coordinates. `PointMul` requires a proper point. `Commit` requires `H` and every generator to be proper. `Aggregate` requires every commitment `C_i` to be proper (the identity arises, for instance, when `w` and `r` are all zero).
- Detection of a corrupted submitted commitment: the source recomputes every `C_i` itself and takes no submitted commitment, so there is nothing to corrupt.
