/** The Pedersen commitment `pedersen_commit(H, Gs, w, r)`: a left fold of
    `point_add` over `zip(w, Gs)` starting from the identity, followed by the
    blinding term `to_fr(r)·H`. */
module Commitment {
  import opened Wrappers
  import opened ModArith
  import opened Fields
  import opened Group

  /** Every generator of a parameter set is a proper point (hash-to-curve
      never yields the identity). */
  predicate Affine(gs: seq<Point>)
  {
    forall i :: 0 <= i < |gs| ==> gs[i].Some?
  }

  /** Reference value of the vector part: the unreduced sum of
      `to_fr_int(w_i)·log(G_i)` over the pairs `zip` forms, i.e. the first
      `min(|w|, |gs|)` of them. */
  function Dot(w: seq<int>, gs: seq<Point>): int
    decreases |w|
  {
    if |w| == 0 || |gs| == 0 then 0
    else ToFrInt(w[0]) * Dlog(gs[0]) + Dot(w[1..], gs[1..])
  }

  /** The `for wi, Gi in zip(w, Gs)` loop, continued from accumulator `acc`. */
  function CommitLoop(acc: Point, gs: seq<Point>, w: seq<int>): Point
    requires Affine(gs)
    decreases |w|
  {
    if |w| == 0 || |gs| == 0 then acc
    else CommitLoop(PointAdd(acc, PointMul(gs[0], ToFrInt(w[0]))), gs[1..], w[1..])
  }

  /** `pedersen_commit`: the vector part, then the blinding term added last. */
  function Commit(h: Point, gs: seq<Point>, w: seq<int>, r: int): Point
    requires h.Some? && Affine(gs)
  {
    PointAdd(CommitLoop(None, gs, w), PointMul(h, ToFr(r)))
  }

  /** The loop adds exactly the reference vector part to its accumulator. */
  lemma {:induction false} CommitLoopSums(acc: Point, gs: seq<Point>, w: seq<int>)
    requires Affine(gs)
    ensures Dlog(CommitLoop(acc, gs, w)) == (Dlog(acc) + Dot(w, gs)) % FR
    decreases |w|
  {
    if |w| == 0 || |gs| == 0 {
      ModOfCanonical(Dlog(acc), FR);
    } else {
      var a, g, x := Dlog(acc), Dlog(gs[0]), ToFrInt(w[0]);
      var acc' := PointAdd(acc, PointMul(gs[0], x));
      var rest := Dot(w[1..], gs[1..]);
      CommitLoopSums(acc', gs[1..], w[1..]);
      assert Dlog(acc') == (a + (g * x) % FR) % FR;
      CongMod(g * x, FR);
      CongAdd(a, a, (g * x) % FR, x * g, FR);
      CongMod(a + (g * x) % FR, FR);
      CongAdd(Dlog(acc'), a + x * g, rest, rest, FR);
    }
  }

  /** The commitment opens to `Σ to_fr_int(w_i)·G_i + r·H` in the exponent,
      taken over the first `min(|w|, |gs|)` pairs. */
  lemma {:induction false} CommitIsLinear(h: Point, gs: seq<Point>, w: seq<int>, r: int)
    requires h.Some? && Affine(gs)
    ensures Dlog(Commit(h, gs, w, r)) == (Dot(w, gs) + r * Dlog(h)) % FR
  {
    var v := CommitLoop(None, gs, w);
    CommitLoopSums(None, gs, w);
    var hr := PointMul(h, ToFr(r));
    CongMul(ToFr(r), r, Dlog(h), FR);
    CongMod(Dlog(h) * ToFr(r), FR);
    CongMod(Dot(w, gs), FR);
    CongAdd(Dlog(v), Dot(w, gs), Dlog(hr), r * Dlog(h), FR);
    CongMod(Dlog(v) + Dlog(hr), FR);
  }

  /** `zip` truncates silently: only the first `min(|w|, |gs|)` pairs count. */
  lemma {:induction false} DotTruncates(w: seq<int>, gs: seq<Point>)
    ensures var n := if |w| < |gs| then |w| else |gs|;
            Dot(w, gs) == Dot(w[..n], gs[..n])
    decreases |w|
  {
    var n := if |w| < |gs| then |w| else |gs|;
    if n > 0 {
      DotTruncates(w[1..], gs[1..]);
      assert w[..n][1..] == w[1..][..n - 1];
      assert gs[..n][1..] == gs[1..][..n - 1];
    }
  }

  /** Mismatched lengths are not rejected: the commitment equals the one
      over the common prefix of the vector and the generators. */
  lemma {:induction false} CommitTruncates(h: Point, gs: seq<Point>, w: seq<int>, r: int)
    requires h.Some? && Affine(gs)
    ensures var n := if |w| < |gs| then |w| else |gs|;
            Commit(h, gs, w, r) == Commit(h, gs[..n], w[..n], r)
  {
    var n := if |w| < |gs| then |w| else |gs|;
    DotTruncates(w, gs);
    CommitIsLinear(h, gs, w, r);
    CommitIsLinear(h, gs[..n], w[..n], r);
    DlogInjective(Commit(h, gs, w, r), Commit(h, gs[..n], w[..n], r));
  }
}
