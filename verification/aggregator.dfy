/** The aggregator `aggregate_wsum_rsum`: weight numerators per submission,
    the weighted sums `Wsum` and `Rsum` in scalar arithmetic, and the
    off-chain consistency check `Σ num_i·C_i == Commit(Wsum, Rsum)`. The
    check is modelled as a `Result`: a mismatch is a `Failure`. */
module Aggregator {
  import opened Wrappers
  import opened ModArith
  import opened Fields
  import opened Group
  import opened Commitment
  import opened Weights

  /** Number of vector components the aggregator reads from each submission. */
  const WIDTH: nat := 3

  /** One submission: the committed vector, the blinding scalar and the error
      metric in basis points. */
  datatype Submission = Submission(w: seq<int>, r: int, errorBps: int)

  /** What the aggregator returns: `(Wsum, Rsum, nums, sum(nums))`. */
  datatype AggregateResult = AggregateResult(wsum: seq<Scalar>, rsum: Scalar, nums: seq<int>, sumNum: int)

  datatype AggregationError = AggregationMismatch

  /** The running sums of the aggregation loop. */
  datatype Sums = Sums(wsum: seq<Scalar>, rsum: Scalar)

  /** Every submission has at least `WIDTH` components (the Python code indexes
      `w[0]`, `w[1]`, `w[2]` and fails on shorter vectors). */
  predicate Shaped(subs: seq<Submission>)
  {
    forall i :: 0 <= i < |subs| ==> |subs[i].w| >= WIDTH
  }

  /** `[weight_numerator(s.error_bps, eps_bps) for s in submissions]`. */
  function Numerators(subs: seq<Submission>, epsBps: int): seq<int>
  {
    seq(|subs|, i requires 0 <= i < |subs| => WeightNumerator(subs[i].errorBps, epsBps, WEIGHT_BASE))
  }

  /** Python's `sum` over integers, unreduced. */
  function SumOf(xs: seq<int>): int
  {
    if |xs| == 0 then 0 else xs[0] + SumOf(xs[1..])
  }

  /** One modular update `(acc + (num * v) % Fr) % Fr` of a running sum. */
  function AddTerm(acc: Scalar, num: int, v: int): (r: Scalar)
    ensures Cong(r, acc + num * v, FR)
  {
    CongMod(num * v, FR);
    CongAdd(acc, acc, (num * v) % FR, num * v, FR);
    CongMod(acc + (num * v) % FR, FR);
    (acc + (num * v) % FR) % FR
  }

  /** One iteration of the aggregation loop: `Rsum` takes `num·(r mod Fr)`,
      each `Wsum[j]` takes `num·to_fr_int(w[j])`. */
  function AccumulateStep(acc: Sums, num: int, s: Submission): (r: Sums)
    requires |acc.wsum| == WIDTH && |s.w| >= WIDTH
    ensures |r.wsum| == WIDTH
    ensures Cong(r.rsum, acc.rsum + num * s.r, FR)
    ensures forall j :: 0 <= j < WIDTH ==> Cong(r.wsum[j], acc.wsum[j] + num * ToFrInt(s.w[j]), FR)
  {
    CongMod(s.r, FR);
    CongMul(s.r % FR, s.r, num, FR);
    CongAdd(acc.rsum, acc.rsum, (s.r % FR) * num, s.r * num, FR);
    Sums(seq(WIDTH, j requires 0 <= j < WIDTH => AddTerm(acc.wsum[j], num, ToFrInt(s.w[j]))),
         AddTerm(acc.rsum, num, s.r % FR))
  }

  /** The loop `for num, s in zip(nums, submissions)` from running sums `acc`. */
  function Accumulate(acc: Sums, nums: seq<int>, subs: seq<Submission>): (r: Sums)
    requires |acc.wsum| == WIDTH && Shaped(subs)
    ensures |r.wsum| == WIDTH
    decreases |subs|
  {
    if |nums| == 0 || |subs| == 0 then acc
    else Accumulate(AccumulateStep(acc, nums[0], subs[0]), nums[1..], subs[1..])
  }

  /** Reference value of `Rsum` before reduction: `Σ num_i·r_i`. */
  function WeightedR(nums: seq<int>, subs: seq<Submission>): int
    decreases |subs|
  {
    if |nums| == 0 || |subs| == 0 then 0
    else nums[0] * subs[0].r + WeightedR(nums[1..], subs[1..])
  }

  /** Reference value of `Wsum[j]` before reduction: `Σ num_i·to_fr_int(w_i[j])`. */
  function WeightedW(nums: seq<int>, subs: seq<Submission>, j: nat): int
    requires j < WIDTH && Shaped(subs)
    decreases |subs|
  {
    if |nums| == 0 || |subs| == 0 then 0
    else nums[0] * ToFrInt(subs[0].w[j]) + WeightedW(nums[1..], subs[1..], j)
  }

  /** The running sums stay congruent to the reference sums. */
  lemma {:induction false} AccumulateSums(acc: Sums, nums: seq<int>, subs: seq<Submission>)
    requires |acc.wsum| == WIDTH && Shaped(subs)
    ensures Cong(Accumulate(acc, nums, subs).rsum, acc.rsum + WeightedR(nums, subs), FR)
    ensures forall j :: 0 <= j < WIDTH ==>
              Cong(Accumulate(acc, nums, subs).wsum[j], acc.wsum[j] + WeightedW(nums, subs, j), FR)
    decreases |subs|
  {
    if |nums| > 0 && |subs| > 0 {
      var n, s := nums[0], subs[0];
      var acc' := AccumulateStep(acc, n, s);
      var res := Accumulate(acc', nums[1..], subs[1..]);
      AccumulateSums(acc', nums[1..], subs[1..]);
      var restR := WeightedR(nums[1..], subs[1..]);
      CongAdd(acc'.rsum, acc.rsum + n * s.r, restR, restR, FR);
      forall j | 0 <= j < WIDTH
        ensures Cong(res.wsum[j], acc.wsum[j] + WeightedW(nums, subs, j), FR)
      {
        var restW := WeightedW(nums[1..], subs[1..], j);
        CongAdd(acc'.wsum[j], acc.wsum[j] + n * ToFrInt(s.w[j]), restW, restW, FR);
      }
    }
  }

  /** Starting from zero, the loop leaves exactly the reduced reference sums. */
  lemma {:induction false} AccumulateFromZero(nums: seq<int>, subs: seq<Submission>)
    requires Shaped(subs)
    ensures var sums := Accumulate(Sums([0, 0, 0], 0), nums, subs);
            && sums.rsum == WeightedR(nums, subs) % FR
            && forall j :: 0 <= j < WIDTH ==> sums.wsum[j] == WeightedW(nums, subs, j) % FR
  {
    var sums := Accumulate(Sums([0, 0, 0], 0), nums, subs);
    AccumulateSums(Sums([0, 0, 0], 0), nums, subs);
    CongMod(WeightedR(nums, subs), FR);
    CongCanonical(sums.rsum, WeightedR(nums, subs) % FR, FR);
    forall j | 0 <= j < WIDTH
      ensures sums.wsum[j] == WeightedW(nums, subs, j) % FR
    {
      CongMod(WeightedW(nums, subs, j), FR);
      CongCanonical(sums.wsum[j], WeightedW(nums, subs, j) % FR, FR);
    }
  }

  /** `[pedersen_commit(H, Gs, s.w, s.r) for s in submissions]`. */
  function Commitments(h: Point, gs: seq<Point>, subs: seq<Submission>): seq<Point>
    requires h.Some? && Affine(gs)
  {
    seq(|subs|, i requires 0 <= i < |subs| => Commit(h, gs, subs[i].w, subs[i].r))
  }

  /** The loop `Csum = point_add(Csum, point_mul(C, num))` from accumulator `acc`. */
  function CsumLoop(acc: Point, nums: seq<int>, cs: seq<Point>): Point
    requires Affine(cs)
    decreases |cs|
  {
    if |nums| == 0 || |cs| == 0 then acc
    else CsumLoop(PointAdd(acc, PointMul(cs[0], nums[0])), nums[1..], cs[1..])
  }

  /** Reference value of `Csum` in the exponent: `Σ num_i·log(C_i)`. */
  function WeightedLogs(nums: seq<int>, cs: seq<Point>): int
    decreases |cs|
  {
    if |nums| == 0 || |cs| == 0 then 0
    else nums[0] * Dlog(cs[0]) + WeightedLogs(nums[1..], cs[1..])
  }

  lemma {:induction false} CsumLoopSums(acc: Point, nums: seq<int>, cs: seq<Point>)
    requires Affine(cs)
    ensures Dlog(CsumLoop(acc, nums, cs)) == (Dlog(acc) + WeightedLogs(nums, cs)) % FR
    decreases |cs|
  {
    if |nums| == 0 || |cs| == 0 {
      ModOfCanonical(Dlog(acc), FR);
    } else {
      var a, c, n := Dlog(acc), Dlog(cs[0]), nums[0];
      var acc' := PointAdd(acc, PointMul(cs[0], n));
      var rest := WeightedLogs(nums[1..], cs[1..]);
      CsumLoopSums(acc', nums[1..], cs[1..]);
      CongMod(c * n, FR);
      CongAdd(a, a, (c * n) % FR, n * c, FR);
      CongMod(a + (c * n) % FR, FR);
      CongAdd(Dlog(acc'), a + n * c, rest, rest, FR);
    }
  }

  /** Logarithm of generator `j`, or 0 where `zip` has no generator left. */
  function GenLog(gs: seq<Point>, j: nat): Scalar
  {
    if j < |gs| then Dlog(gs[j]) else 0
  }

  /** The exponent a submission's commitment opens to, over `WIDTH` components. */
  function Opening(s: Submission, gs: seq<Point>, h: Point): int
    requires |s.w| >= WIDTH
  {
    ToFrInt(s.w[0]) * GenLog(gs, 0) + ToFrInt(s.w[1]) * GenLog(gs, 1)
      + ToFrInt(s.w[2]) * GenLog(gs, 2) + s.r * Dlog(h)
  }

  /** With `WIDTH` components actually used, the vector part of a commitment
      is the three-term sum. */
  lemma {:induction false} DotOfWidth(w: seq<int>, gs: seq<Point>)
    requires |w| >= WIDTH && (|w| == WIDTH || |gs| <= WIDTH)
    ensures Dot(w, gs) == ToFrInt(w[0]) * GenLog(gs, 0) + ToFrInt(w[1]) * GenLog(gs, 1)
                            + ToFrInt(w[2]) * GenLog(gs, 2)
  {
    var x0, x1, x2 := ToFrInt(w[0]), ToFrInt(w[1]), ToFrInt(w[2]);
    var w1, w2, w3 := w[1..], w[2..], w[3..];
    assert w1[0] == w[1] && w1[1..] == w2;
    assert w2[0] == w[2] && w2[1..] == w3;
    if |gs| == 0 {
      assert Dot(w, gs) == 0;
    } else {
      var g1 := gs[1..];
      assert Dot(w, gs) == x0 * GenLog(gs, 0) + Dot(w1, g1);
      if |g1| == 0 {
        assert Dot(w1, g1) == 0;
      } else {
        var g2 := gs[2..];
        assert g1[0] == gs[1] && g1[1..] == g2;
        assert Dot(w1, g1) == x1 * GenLog(gs, 1) + Dot(w2, g2);
        if |g2| == 0 {
          assert Dot(w2, g2) == 0;
        } else {
          var g3 := gs[3..];
          assert g2[0] == gs[2] && g2[1..] == g3;
          assert |w3| == 0 || |g3| == 0;
          assert Dot(w2, g2) == x2 * GenLog(gs, 2) + Dot(w3, g3);
        }
      }
    }
  }

  /** Each submission's commitment opens to `Opening` modulo FR. */
  lemma {:induction false} CommitOpening(h: Point, gs: seq<Point>, s: Submission)
    requires h.Some? && Affine(gs)
    requires |s.w| >= WIDTH && (|s.w| == WIDTH || |gs| <= WIDTH)
    ensures Dlog(Commit(h, gs, s.w, s.r)) == Opening(s, gs, h) % FR
  {
    CommitIsLinear(h, gs, s.w, s.r);
    DotOfWidth(s.w, gs);
  }

  /** The weighted combination, in the exponent, of what the aggregate
      commits to: `Σ_j Wsum_j·log(G_j) + Rsum·log(H)` before reduction. */
  function Combined(nums: seq<int>, subs: seq<Submission>, gs: seq<Point>, h: Point): int
    requires Shaped(subs)
  {
    WeightedW(nums, subs, 0) * GenLog(gs, 0) + WeightedW(nums, subs, 1) * GenLog(gs, 1)
      + WeightedW(nums, subs, 2) * GenLog(gs, 2) + WeightedR(nums, subs) * Dlog(h)
  }

  lemma Distribute(n: int, x0: int, x1: int, x2: int, r: int,
                   a0: int, a1: int, a2: int, ar: int,
                   g0: int, g1: int, g2: int, hl: int)
    ensures (n * x0 + a0) * g0 + (n * x1 + a1) * g1 + (n * x2 + a2) * g2 + (n * r + ar) * hl
         == n * (x0 * g0 + x1 * g1 + x2 * g2 + r * hl) + (a0 * g0 + a1 * g1 + a2 * g2 + ar * hl)
  {
  }

  /** Weighting the openings one by one agrees, modulo FR, with opening the
      weighted sums: the scalar side of the homomorphism. */
  lemma {:induction false} WeightedOpenings(nums: seq<int>, subs: seq<Submission>,
                                            cs: seq<Point>, gs: seq<Point>, h: Point)
    requires Shaped(subs) && |cs| == |subs|
    requires forall i :: 0 <= i < |cs| ==> Dlog(cs[i]) == Opening(subs[i], gs, h) % FR
    ensures Cong(WeightedLogs(nums, cs), Combined(nums, subs, gs, h), FR)
    decreases |subs|
  {
    if |nums| > 0 && |subs| > 0 {
      var n, s, c := nums[0], subs[0], Dlog(cs[0]);
      var e := Opening(s, gs, h);
      var nums', subs', cs' := nums[1..], subs[1..], cs[1..];
      var restL, restC := WeightedLogs(nums', cs'), Combined(nums', subs', gs, h);
      WeightedOpenings(nums', subs', cs', gs, h);
      assert WeightedLogs(nums, cs) == n * c + restL;
      CongMod(e, FR);
      CongMul(c, e, n, FR);
      CongAdd(c * n, e * n, restL, restC, FR);
      var x0, x1, x2 := ToFrInt(s.w[0]), ToFrInt(s.w[1]), ToFrInt(s.w[2]);
      var a0, a1, a2, ar := WeightedW(nums', subs', 0), WeightedW(nums', subs', 1),
                            WeightedW(nums', subs', 2), WeightedR(nums', subs');
      var g0, g1, g2, hl := GenLog(gs, 0), GenLog(gs, 1), GenLog(gs, 2), Dlog(h);
      assert WeightedW(nums, subs, 0) == n * x0 + a0;
      assert WeightedW(nums, subs, 1) == n * x1 + a1;
      assert WeightedW(nums, subs, 2) == n * x2 + a2;
      assert WeightedR(nums, subs) == n * s.r + ar;
      assert e == x0 * g0 + x1 * g1 + x2 * g2 + s.r * hl;
      assert restC == a0 * g0 + a1 * g1 + a2 * g2 + ar * hl;
      Distribute(n, x0, x1, x2, s.r, a0, a1, a2, ar, g0, g1, g2, hl);
      assert Combined(nums, subs, gs, h) == n * e + restC;
    }
  }

  /** Congruent coefficients give congruent linear combinations. */
  lemma CongLinear(a0: int, a1: int, a2: int, ar: int, b0: int, b1: int, b2: int, br: int,
                   g0: int, g1: int, g2: int, hl: int)
    requires Cong(a0, b0, FR) && Cong(a1, b1, FR) && Cong(a2, b2, FR) && Cong(ar, br, FR)
    ensures Cong(a0 * g0 + a1 * g1 + a2 * g2 + ar * hl, b0 * g0 + b1 * g1 + b2 * g2 + br * hl, FR)
  {
    CongMul(a0, b0, g0, FR);
    CongMul(a1, b1, g1, FR);
    CongMul(a2, b2, g2, FR);
    CongMul(ar, br, hl, FR);
    CongAdd(a0 * g0, b0 * g0, a1 * g1, b1 * g1, FR);
    CongAdd(a0 * g0 + a1 * g1, b0 * g0 + b1 * g1, a2 * g2, b2 * g2, FR);
    CongAdd(a0 * g0 + a1 * g1 + a2 * g2, b0 * g0 + b1 * g1 + b2 * g2, ar * hl, br * hl, FR);
  }

  /** The group side: `Σ num_i·C_i` opens to the weighted combination. */
  lemma {:induction false} CsumOpens(h: Point, gs: seq<Point>, subs: seq<Submission>, nums: seq<int>)
    requires h.Some? && Affine(gs) && Shaped(subs)
    requires Affine(Commitments(h, gs, subs))
    requires |gs| <= WIDTH || forall i :: 0 <= i < |subs| ==> |subs[i].w| == WIDTH
    ensures Dlog(CsumLoop(None, nums, Commitments(h, gs, subs))) == Combined(nums, subs, gs, h) % FR
  {
    var cs := Commitments(h, gs, subs);
    forall i | 0 <= i < |cs|
      ensures Dlog(cs[i]) == Opening(subs[i], gs, h) % FR
    {
      CommitOpening(h, gs, subs[i]);
    }
    WeightedOpenings(nums, subs, cs, gs, h);
    CsumLoopSums(None, nums, cs);
  }

  /** The scalar side: the commitment to `(Wsum, Rsum)` opens to the same
      weighted combination. */
  lemma {:induction false} AggregateCommitOpens(h: Point, gs: seq<Point>, subs: seq<Submission>, nums: seq<int>)
    requires h.Some? && Affine(gs) && Shaped(subs)
    ensures var sums := Accumulate(Sums([0, 0, 0], 0), nums, subs);
            Dlog(Commit(h, gs, sums.wsum, sums.rsum)) == Combined(nums, subs, gs, h) % FR
  {
    var sums := Accumulate(Sums([0, 0, 0], 0), nums, subs);
    AccumulateFromZero(nums, subs);
    var ws, rs := sums.wsum, sums.rsum;
    CommitIsLinear(h, gs, ws, rs);
    DotOfWidth(ws, gs);
    ToFrIntIsToFr(ws[0]);
    ToFrIntIsToFr(ws[1]);
    ToFrIntIsToFr(ws[2]);
    var W0, W1, W2, R := WeightedW(nums, subs, 0), WeightedW(nums, subs, 1),
                         WeightedW(nums, subs, 2), WeightedR(nums, subs);
    CongMod(W0, FR);
    CongMod(W1, FR);
    CongMod(W2, FR);
    CongMod(R, FR);
    CongLinear(ws[0], ws[1], ws[2], rs, W0, W1, W2, R, GenLog(gs, 0), GenLog(gs, 1), GenLog(gs, 2), Dlog(h));
  }

  /** The homomorphic identity behind the consistency check: for any integer
      weights, the weighted sum of the commitments equals the commitment to
      the weighted sums, whenever every commitment uses the same `WIDTH`
      generators as the aggregate does. */
  lemma {:induction false} HomomorphicIdentity(h: Point, gs: seq<Point>, subs: seq<Submission>, nums: seq<int>)
    requires h.Some? && Affine(gs) && Shaped(subs)
    requires Affine(Commitments(h, gs, subs))
    requires |gs| <= WIDTH || forall i :: 0 <= i < |subs| ==> |subs[i].w| == WIDTH
    ensures var sums := Accumulate(Sums([0, 0, 0], 0), nums, subs);
            CsumLoop(None, nums, Commitments(h, gs, subs)) == Commit(h, gs, sums.wsum, sums.rsum)
  {
    var sums := Accumulate(Sums([0, 0, 0], 0), nums, subs);
    CsumOpens(h, gs, subs, nums);
    AggregateCommitOpens(h, gs, subs, nums);
    DlogInjective(CsumLoop(None, nums, Commitments(h, gs, subs)), Commit(h, gs, sums.wsum, sums.rsum));
  }

  /** `aggregate_wsum_rsum`. On success the result carries one numerator per
      submission in order, their unreduced sum, and `Wsum`/`Rsum` as the
      reduced weighted sums; the consistency check cannot fail when every
      commitment is taken over the same `WIDTH` generators. */
  function Aggregate(h: Point, gs: seq<Point>, subs: seq<Submission>, epsBps: int)
    : (res: Result<AggregateResult, AggregationError>)
    requires h.Some? && Affine(gs) && Shaped(subs)
    requires Affine(Commitments(h, gs, subs))
    ensures res.Success? ==>
              var a := res.value;
              && |a.nums| == |subs|
              && (forall i :: 0 <= i < |subs| ==>
                    a.nums[i] == WeightNumerator(subs[i].errorBps, epsBps, WEIGHT_BASE))
              && a.sumNum == SumOf(a.nums)
              && |a.wsum| == WIDTH
              && (forall j :: 0 <= j < WIDTH ==> a.wsum[j] == WeightedW(a.nums, subs, j) % FR)
              && a.rsum == WeightedR(a.nums, subs) % FR
    ensures (|gs| <= WIDTH || forall i :: 0 <= i < |subs| ==> |subs[i].w| == WIDTH) ==> res.Success?
  {
    var nums := Numerators(subs, epsBps);
    var sums := Accumulate(Sums([0, 0, 0], 0), nums, subs);
    var csum := CsumLoop(None, nums, Commitments(h, gs, subs));
    var cfrom := Commit(h, gs, sums.wsum, sums.rsum);
    AccumulateFromZero(nums, subs);
    assert (|gs| <= WIDTH || forall i :: 0 <= i < |subs| ==> |subs[i].w| == WIDTH) ==> csum == cfrom by {
      if |gs| <= WIDTH || forall i :: 0 <= i < |subs| ==> |subs[i].w| == WIDTH {
        HomomorphicIdentity(h, gs, subs, nums);
      }
    }
    if csum == cfrom then Success(AggregateResult(sums.wsum, sums.rsum, nums, SumOf(nums)))
    else Failure(AggregationMismatch)
  }

  /** The example batch of the command-line entry point, with `eps_bps = 1`:
      each numerator is `10^12 // (error_bps + 1)`. */
  lemma ExampleNumerators()
    ensures Numerators([Submission([12, -7, 3], 123456789, 1500),
                        Submission([-4, 5, 9], 222222222, 800),
                        Submission([1, 2, -3], 999999999, 5000)], 1)
         == [666222518, 1248439450, 199960007]
  {
  }

  /** Outside the width condition the check can fail: with four generators,
      a vector's fourth entry enters its own commitment but never reaches
      `Wsum`, so the two sides compared at the assertion differ. */
  lemma WiderVectorsCanMismatch()
    ensures var gs: seq<Point> := [Some(1), Some(1), Some(1), Some(1)];
            var subs := [Submission([0, 0, 0, 1], 0, 0)];
            && Affine(gs) && Shaped(subs)
            && Affine(Commitments(Some(1), gs, subs))
            && Aggregate(Some(1), gs, subs, 0).Failure?
  {
    var h: Point := Some(1);
    var gs: seq<Point> := [Some(1), Some(1), Some(1), Some(1)];
    var subs := [Submission([0, 0, 0, 1], 0, 0)];
    var w := subs[0].w;
    ToFrIntIsToFr(0);
    ToFrIntIsToFr(1);
    assert Dot(w, gs) == 1;
    CommitIsLinear(h, gs, w, 0);
    ModOfCanonical(1, FR);
    var c := Commit(h, gs, w, 0);
    assert c == Some(1);
    var cs := Commitments(h, gs, subs);
    assert cs == [c];
    var nums := Numerators(subs, 0);
    assert nums == [WEIGHT_BASE];
    CsumLoopSums(None, nums, cs);
    assert WeightedLogs(nums, cs) == WEIGHT_BASE;
    ModOfCanonical(WEIGHT_BASE, FR);
    var sums := Accumulate(Sums([0, 0, 0], 0), nums, subs);
    AccumulateFromZero(nums, subs);
    ModOfCanonical(0, FR);
    assert WeightedR(nums, subs) == 0;
    assert WeightedW(nums, subs, 0) == 0 && WeightedW(nums, subs, 1) == 0 && WeightedW(nums, subs, 2) == 0;
    assert sums.wsum == [0, 0, 0] && sums.rsum == 0;
    CommitIsLinear(h, gs, sums.wsum, sums.rsum);
    assert Dot(sums.wsum, gs) == 0;
    assert Dlog(Commit(h, gs, sums.wsum, sums.rsum)) == 0;
    assert Dlog(CsumLoop(None, nums, cs)) == WEIGHT_BASE;
  }
}
