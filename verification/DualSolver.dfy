/** The loops of `solve_l2r_l1l2_svc`: passes over the active examples until their projected gradients agree. */
module DualSolver {
  import opened Seqs
  import opened Sparse
  import opened Permutations
  import opened DualSvm

  /** The arrays that do not change hold the signs and the curvatures. */
  predicate Prepared(p: Problem, c: Setting, y: seq<real>, qd: seq<real>) {
    && Valid(p) && Positive(c) && y == Signs(p) && |qd| == |y|
    && forall i :: 0 <= i < |qd| ==> qd[i] == Curvature(p, c, i)
  }

  /** What every point of a run keeps. */
  predicate Sound(p: Problem, c: Setting, alpha: seq<real>, w: seq<real>)
    requires Positive(c)
  {
    Feasible(p, c, alpha) && InStep(p, alpha, w)
  }

  predicate Above(g: real, e: Ext) {
    e.NegInf? || (e.Fin? && g > e.r)
  }

  predicate Under(g: real, e: Ext) {
    e.PosInf? || (e.Fin? && g < e.r)
  }

  /** The multiplier sits at a bound and its gradient points out of the last pass's range. */
  predicate Shrinks(a: real, g: real, bound: Ext, pgMax: Ext, pgMin: Ext) {
    if a == 0.0 then Above(g, pgMax) else bound == Fin(a) && Under(g, pgMin)
  }

  predicate Significant(pg: real) {
    pg > 0.000000000001 || pg < -0.000000000001
  }

  /** The curvature can vanish only in the bounded problem. */
  lemma FlatIsBounded(p: Problem, c: Setting, i: nat)
    requires Valid(p) && Positive(c) && i < |p.x|
    ensures Curvature(p, c, i) == 0.0 ==> Bounds(p, c)[i].Fin?
  {
  }

  // ---------- what a pass computes ----------

  /** The multipliers, the examples kept so far, and the projected gradients noted of them. */
  datatype Outcome = Outcome(alpha: seq<real>, kept: seq<nat>, pgs: seq<real>)

  /** The weights that belong to the multipliers. */
  ghost function WeightsOf(p: Problem, alpha: seq<real>): (w: seq<real>)
    requires |alpha| == |p.x| == |p.y|
    ensures InStep(p, alpha, w)
  {
    Weights(p.x, Signed(p, alpha), p.n, |alpha|)
  }

  /** The partial derivative of the dual objective. */
  ghost function GradientAt(p: Problem, c: Setting, alpha: seq<real>, i: nat): real
    requires Valid(p) && Positive(c) && i < |alpha| == |p.x|
  {
    Gradient(p, c, alpha, WeightsOf(p, alpha), i)
  }

  /** The part of it that does not point out of the box. */
  ghost function ProjectedAt(p: Problem, c: Setting, alpha: seq<real>, i: nat): real
    requires Valid(p) && Positive(c) && i < |alpha| == |p.x|
  {
    Projected(alpha[i], GradientAt(p, c, alpha, i), Bounds(p, c)[i])
  }

  /** A turn: example `i` is shrunk away, or kept and, if its projected gradient is significant, moved. */
  ghost function Turned(p: Problem, c: Setting, o: Outcome, i: nat, pgMax: Ext, pgMin: Ext): (r: Outcome)
    requires Valid(p) && Positive(c) && i < |o.alpha| == |p.x|
    ensures |r.alpha| == |o.alpha|
  {
    var a, g, bound := o.alpha[i], GradientAt(p, c, o.alpha, i), Bounds(p, c)[i];
    if Shrinks(a, g, bound, pgMax, pgMin) then o
    else
      var pg := Projected(a, g, bound);
      FlatIsBounded(p, c, i);
      Outcome(if Significant(pg) then o.alpha[i := NewAlpha(a, g, Curvature(p, c, i), bound)] else o.alpha,
              o.kept + [i], o.pgs + [pg])
  }

  /** The turns of a pass in the given order. */
  ghost function Turns(p: Problem, c: Setting, alpha: seq<real>, order: seq<nat>, pgMax: Ext, pgMin: Ext): (r: Outcome)
    requires Valid(p) && Positive(c) && |alpha| == |p.x| && Indices(order, |alpha|)
    ensures |r.alpha| == |alpha|
  {
    if order == [] then Outcome(alpha, [], [])
    else
      var m := |order| - 1;
      Turned(p, c, Turns(p, c, alpha, order[..m], pgMax, pgMin), order[m], pgMax, pgMin)
  }

  predicate Indices(order: seq<nat>, l: nat) {
    forall k :: 0 <= k < |order| ==> order[k] < l
  }

  function MaxExt(e: Ext, g: real): Ext {
    if e.NegInf? || (e.Fin? && e.r < g) then Fin(g) else e
  }

  function MinExt(e: Ext, g: real): Ext {
    if e.PosInf? || (e.Fin? && g < e.r) then Fin(g) else e
  }

  /** The largest and the smallest of the projected gradients of a pass. */
  function MaxOf(pgs: seq<real>): Ext {
    if pgs == [] then NegInf else MaxExt(MaxOf(pgs[..|pgs| - 1]), pgs[|pgs| - 1])
  }

  function MinOf(pgs: seq<real>): Ext {
    if pgs == [] then PosInf else MinExt(MinOf(pgs[..|pgs| - 1]), pgs[|pgs| - 1])
  }

  /** They are attained, and all the others lie between them. */
  lemma {:induction false} ExtremesAre(pgs: seq<real>)
    requires pgs != []
    ensures MaxOf(pgs).Fin? && MinOf(pgs).Fin? && MaxOf(pgs).r in pgs && MinOf(pgs).r in pgs
    ensures forall g :: g in pgs ==> MinOf(pgs).r <= g <= MaxOf(pgs).r
  {
    var m := |pgs| - 1;
    assert pgs == pgs[..m] + [pgs[m]];
    if m > 0 { ExtremesAre(pgs[..m]); }
  }

  /** What the stopping test says of the projected gradients of a pass. */
  lemma NarrowMeans(pgs: seq<real>, eps: real)
    ensures Narrow(MaxOf(pgs), MinOf(pgs), eps) <==> forall g, h :: g in pgs && h in pgs ==> g - h <= eps
  {
    if pgs != [] { ExtremesAre(pgs); }
  }

  /** The stopping test on the range of the projected gradients. */
  predicate Narrow(pgMax: Ext, pgMin: Ext, eps: real) {
    pgMax.NegInf? || pgMin.PosInf? || (pgMax.Fin? && pgMin.Fin? && pgMax.r - pgMin.r <= eps)
  }

  predicate AllZero(pgs: seq<real>) {
    forall k :: 0 <= k < |pgs| ==> pgs[k] == 0.0
  }

  lemma AllZeroPrefix(pgs: seq<real>, g: real)
    ensures AllZero(pgs + [g]) <==> AllZero(pgs) && g == 0.0
  {
    assert (pgs + [g])[|pgs|] == g;
    assert forall k :: 0 <= k < |pgs| ==> (pgs + [g])[k] == pgs[k];
  }

  lemma ExtremesNext(pgs: seq<real>, g: real)
    ensures MaxOf(pgs + [g]) == MaxExt(MaxOf(pgs), g) && MinOf(pgs + [g]) == MinExt(MinOf(pgs), g)
  {
    assert (pgs + [g])[..|pgs|] == pgs;
  }

  /** Every example visited is shrunk away or kept, with one projected gradient for each that is kept. */
  lemma {:induction false} TurnsKeep(p: Problem, c: Setting, alpha: seq<real>, order: seq<nat>, pgMax: Ext, pgMin: Ext)
    requires Valid(p) && Positive(c) && |alpha| == |p.x| && Indices(order, |alpha|)
    ensures var o := Turns(p, c, alpha, order, pgMax, pgMin);
      |o.pgs| == |o.kept| <= |order| && multiset(o.kept) <= multiset(order)
  {
    hide Turned, ProjectedAt;
    if order != [] {
      var m := |order| - 1;
      assert order == order[..m] + [order[m]];
      TurnsKeep(p, c, alpha, order[..m], pgMax, pgMin);
      var o := Turns(p, c, alpha, order[..m], pgMax, pgMin);
      FullTurn(p, c, o, order[m]);
      KeptTurn(p, c, o, order[m], pgMax, pgMin);
    }
  }

  /** Without bounds from an earlier pass an example is never shrunk away. */
  lemma FullTurn(p: Problem, c: Setting, o: Outcome, i: nat)
    requires Valid(p) && Positive(c) && i < |o.alpha| == |p.x|
    ensures var r := Turned(p, c, o, i, PosInf, NegInf);
      && r.kept == o.kept + [i] && r.pgs == o.pgs + [ProjectedAt(p, c, o.alpha, i)]
      && (ProjectedAt(p, c, o.alpha, i) == 0.0 ==> r.alpha == o.alpha)
  {
    hide GradientAt, NewAlpha, Curvature, Projected;
  }

  lemma {:induction false} FullKeeps(p: Problem, c: Setting, alpha: seq<real>, order: seq<nat>)
    requires Valid(p) && Positive(c) && |alpha| == |p.x| && Indices(order, |alpha|)
    ensures var o := Turns(p, c, alpha, order, PosInf, NegInf); o.kept == order && |o.pgs| == |order|
  {
    hide Turned, ProjectedAt;
    if order != [] {
      var m := |order| - 1;
      FullKeeps(p, c, alpha, order[..m]);
      FullTurn(p, c, Turns(p, c, alpha, order[..m], PosInf, NegInf), order[m]);
      assert order == order[..m] + [order[m]];
    }
  }

  /** And the projected gradients noted are those found at each turn. */
  lemma {:induction false} FullNotes(p: Problem, c: Setting, alpha: seq<real>, order: seq<nat>, k: nat)
    requires Valid(p) && Positive(c) && |alpha| == |p.x| && Indices(order, |alpha|) && k < |order|
    ensures |Turns(p, c, alpha, order, PosInf, NegInf).pgs| == |order|
    ensures Turns(p, c, alpha, order, PosInf, NegInf).pgs[k]
         == ProjectedAt(p, c, Turns(p, c, alpha, order[..k], PosInf, NegInf).alpha, order[k])
  {
    hide Turned, ProjectedAt;
    var m := |order| - 1;
    FullKeeps(p, c, alpha, order);
    FullKeeps(p, c, alpha, order[..m]);
    FullTurn(p, c, Turns(p, c, alpha, order[..m], PosInf, NegInf), order[m]);
    if k < m {
      FullNotes(p, c, alpha, order[..m], k);
      assert order[..m][..k] == order[..k];
    }
  }

  /** A turn that keeps its example is one without bounds. */
  lemma KeptTurn(p: Problem, c: Setting, o: Outcome, i: nat, pgMax: Ext, pgMin: Ext)
    requires Valid(p) && Positive(c) && i < |o.alpha| == |p.x|
    ensures var r := Turned(p, c, o, i, pgMax, pgMin);
      r == o || (|r.kept| == |o.kept| + 1 && r == Turned(p, c, o, i, PosInf, NegInf))
  {
    hide GradientAt, NewAlpha, Curvature, Projected;
  }

  /** A pass that keeps every example is one without bounds. */
  lemma {:induction false} NoneShrunk(p: Problem, c: Setting, alpha: seq<real>, order: seq<nat>, pgMax: Ext, pgMin: Ext)
    requires Valid(p) && Positive(c) && |alpha| == |p.x| && Indices(order, |alpha|)
    requires |Turns(p, c, alpha, order, pgMax, pgMin).kept| == |order|
    ensures Turns(p, c, alpha, order, pgMax, pgMin) == Turns(p, c, alpha, order, PosInf, NegInf)
  {
    hide Turned;
    if order != [] {
      var m := |order| - 1;
      TurnsKeep(p, c, alpha, order[..m], pgMax, pgMin);
      KeptTurn(p, c, Turns(p, c, alpha, order[..m], pgMax, pgMin), order[m], pgMax, pgMin);
      NoneShrunk(p, c, alpha, order[..m], pgMax, pgMin);
    }
  }

  /** A turn stays in the box and does not raise the objective. */
  lemma TurnLowers(p: Problem, c: Setting, o: Outcome, i: nat, pgMax: Ext, pgMin: Ext)
    requires Valid(p) && Positive(c) && i < |o.alpha| == |p.x| && Feasible(p, c, o.alpha)
    ensures var r := Turned(p, c, o, i, pgMax, pgMin);
      Feasible(p, c, r.alpha) && Dual(p, c, r.alpha) <= Dual(p, c, o.alpha)
  {
    hide Dual, Gradient, Curvature, NewAlpha, InStep;
    var r := Turned(p, c, o, i, pgMax, pgMin);
    if r.alpha != o.alpha {
      FlatIsBounded(p, c, i);
      var w := WeightsOf(p, o.alpha);
      StepIsMove(p, c, o.alpha, w, i, NewAlpha(o.alpha[i], Gradient(p, c, o.alpha, w, i), Curvature(p, c, i),
                                               Bounds(p, c)[i]));
      MoveLowers(p, c, o.alpha, r.alpha);
    }
  }

  lemma {:induction false} TurnsLower(p: Problem, c: Setting, alpha: seq<real>, order: seq<nat>, pgMax: Ext, pgMin: Ext)
    requires Valid(p) && Positive(c) && |alpha| == |p.x| && Indices(order, |alpha|) && Feasible(p, c, alpha)
    ensures var o := Turns(p, c, alpha, order, pgMax, pgMin);
      Feasible(p, c, o.alpha) && Dual(p, c, o.alpha) <= Dual(p, c, alpha)
  {
    hide Dual, Turned, Feasible;
    if order != [] {
      var m := |order| - 1;
      TurnsLower(p, c, alpha, order[..m], pgMax, pgMin);
      TurnLowers(p, c, Turns(p, c, alpha, order[..m], pgMax, pgMin), order[m], pgMax, pgMin);
    }
  }

  // ---------- optimal points ----------

  /** A point of the box is a global minimum if and only if every projected gradient there is zero. */
  lemma OptimalIff(p: Problem, c: Setting, alpha: seq<real>)
    requires Valid(p) && Positive(c) && Feasible(p, c, alpha)
    ensures Optimal(p, c, alpha) <==> forall i :: 0 <= i < |alpha| ==> ProjectedAt(p, c, alpha, i) == 0.0
  {
    hide Dual, Gradient, InStep, Best;
    var w := WeightsOf(p, alpha);
    if forall i :: 0 <= i < |alpha| ==> ProjectedAt(p, c, alpha, i) == 0.0 {
      forall i | 0 <= i < |alpha| ensures Best(p, c, alpha, i) {
        assert ProjectedAt(p, c, alpha, i) == 0.0;
        StuckIsBest(p, c, alpha, w, i);
      }
      BestIsOptimal(p, c, alpha, w);
    }
    if Optimal(p, c, alpha) {
      forall i | 0 <= i < |alpha| ensures ProjectedAt(p, c, alpha, i) == 0.0 {
        OptimalIsBest(p, c, alpha, i);
        BestIsStuck(p, c, alpha, w, i, GradientAt(p, c, alpha, i));
      }
    }
  }

  lemma OptimalIsBest(p: Problem, c: Setting, alpha: seq<real>, i: nat)
    requires Positive(c) && Feasible(p, c, alpha) && Optimal(p, c, alpha) && i < |alpha|
    ensures Best(p, c, alpha, i)
  {
    hide Dual;
    forall b: real | InBox(b, Bounds(p, c)[i]) ensures Dual(p, c, alpha) <= Dual(p, c, alpha[i := b]) {
      assert Feasible(p, c, alpha[i := b]);
    }
  }

  /** Where a multiplier is best its projected gradient is zero. */
  lemma BestIsStuck(p: Problem, c: Setting, alpha: seq<real>, w: seq<real>, i: nat, g: real)
    requires Valid(p) && Positive(c) && InStep(p, alpha, w) && Feasible(p, c, alpha) && i < |alpha|
    requires Best(p, c, alpha, i) && g == Gradient(p, c, alpha, w, i)
    ensures Projected(alpha[i], g, Bounds(p, c)[i]) == 0.0
  {
    hide Best, Gradient, InStep;
    var a, bound := alpha[i], Bounds(p, c)[i];
    var b := if g > 0.0 then 0.0 else if bound.Fin? then bound.r else a + 1.0;
    GradientSign(p, c, alpha, w, i, b, g);
    SignOfChange(b - a, g);
  }

  lemma SignOfChange(d: real, g: real)
    requires d * g >= 0.0
    ensures (g > 0.0 ==> d >= 0.0) && (g < 0.0 ==> d <= 0.0)
  {
    assert d < 0.0 && g > 0.0 ==> d * g < 0.0;
    assert d > 0.0 && g < 0.0 ==> d * g < 0.0;
  }

  /** From where no projected gradient points anywhere, turns lead nowhere. */
  lemma {:induction false} StuckStays(p: Problem, c: Setting, alpha: seq<real>, order: seq<nat>)
    requires Valid(p) && Positive(c) && |alpha| == |p.x| && Indices(order, |alpha|)
    requires forall i :: 0 <= i < |alpha| ==> ProjectedAt(p, c, alpha, i) == 0.0
    ensures var o := Turns(p, c, alpha, order, PosInf, NegInf); o.alpha == alpha && AllZero(o.pgs)
  {
    hide Turned, ProjectedAt;
    if order != [] {
      var m := |order| - 1;
      StuckStays(p, c, alpha, order[..m]);
      FullTurn(p, c, Turns(p, c, alpha, order[..m], PosInf, NegInf), order[m]);
      assert ProjectedAt(p, c, alpha, order[m]) == 0.0;
    }
  }

  /** If all projected gradients noted are zero nothing was moved, and they are those of one point. */
  lemma {:induction false} ZeroStays(p: Problem, c: Setting, alpha: seq<real>, order: seq<nat>)
    requires Valid(p) && Positive(c) && |alpha| == |p.x| && Indices(order, |alpha|)
    requires AllZero(Turns(p, c, alpha, order, PosInf, NegInf).pgs)
    ensures Turns(p, c, alpha, order, PosInf, NegInf).alpha == alpha
    ensures forall k :: 0 <= k < |order| ==> ProjectedAt(p, c, alpha, order[k]) == 0.0
  {
    hide Turned, ProjectedAt;
    if order != [] {
      var m := |order| - 1;
      var o := Turns(p, c, alpha, order[..m], PosInf, NegInf);
      FullTurn(p, c, o, order[m]);
      AllZeroPrefix(o.pgs, ProjectedAt(p, c, o.alpha, order[m]));
      ZeroStays(p, c, alpha, order[..m]);
    }
  }

  /** A pass over all examples notes zeros only if and only if it starts from a global minimum, and then it stays. */
  lemma FullPassIsTest(p: Problem, c: Setting, alpha: seq<real>, order: seq<nat>)
    requires Valid(p) && Positive(c) && Feasible(p, c, alpha) && Permutation(order, |p.x|) && Indices(order, |alpha|)
    ensures AllZero(Turns(p, c, alpha, order, PosInf, NegInf).pgs) <==> Optimal(p, c, alpha)
    ensures Optimal(p, c, alpha) ==> Turns(p, c, alpha, order, PosInf, NegInf).alpha == alpha
  {
    assert |alpha| == |p.x|;
    hide Turns, ProjectedAt, Optimal, Feasible;
    OptimalIff(p, c, alpha);
    if Optimal(p, c, alpha) { StuckStays(p, c, alpha, order); }
    if AllZero(Turns(p, c, alpha, order, PosInf, NegInf).pgs) {
      ZeroStays(p, c, alpha, order);
      forall i | 0 <= i < |alpha| ensures ProjectedAt(p, c, alpha, i) == 0.0 {
        PermutationCovers(order, |p.x|, i);
      }
    }
  }

  // ---------- one pass over the active examples ----------

  /** One visit of example `i`. */
  method Visit(p: Problem, c: Setting, y: array<real>, qd: array<real>, alpha: array<real>, w: array<real>, i: nat,
               pgMax: Ext, pgMin: Ext)
    returns (shrunk: bool, pg: real)
    requires Positive(c) && Prepared(p, c, y[..], qd[..]) && Sound(p, c, alpha[..], w[..]) && i < alpha.Length
    requires alpha != w && y != alpha && y != w && qd != alpha && qd != w
    modifies alpha, w
    ensures Sound(p, c, alpha[..], w[..])
    ensures var a, g, bound := old(alpha[i]), Gradient(p, c, old(alpha[..]), old(w[..]), i), Bounds(p, c)[i];
      && shrunk == Shrinks(a, g, bound, pgMax, pgMin)
      && (!shrunk ==> pg == Projected(a, g, bound))
      && alpha[..] == if shrunk || !Significant(pg) then old(alpha[..])
                      else old(alpha[..])[i := NewAlpha(a, g, qd[i], bound)]
    ensures !shrunk && Significant(pg) ==> Move(p, c, old(alpha[..]), alpha[..]) && Best(p, c, alpha[..], i)
    ensures !shrunk && pg == 0.0 ==> Best(p, c, alpha[..], i)
  {
    hide Dual, WeightAt, Signs, Diagonal;
    var g := Product(w, p.x[i]);
    ghost var gradient, alpha0, w0 := Gradient(p, c, alpha[..], w[..], i), alpha[..], w[..];
    g := g * y[i] - 1.0;
    var bound := Bounds(p, c)[i];
    g := g + alpha[i] * Diagonal(p, c)[i];
    assert g == gradient;
    shrunk, pg := false, 0.0;
    if alpha[i] == 0.0 {
      if Above(g, pgMax) {
        shrunk := true;
        return;
      } else if g < 0.0 {
        pg := g;
      }
    } else if bound == Fin(alpha[i]) {
      if Under(g, pgMin) {
        shrunk := true;
        return;
      } else if g > 0.0 {
        pg := g;
      }
    } else {
      pg := g;
    }
    if pg == 0.0 { StuckIsBest(p, c, alpha[..], w[..], i); }
    if Significant(pg) {
      FlatIsBounded(p, c, i);
      var n := NewAlpha(alpha[i], g, qd[i], bound);
      StepIsMove(p, c, alpha[..], w[..], i, n);
      InStepUpdate(p, alpha[..], w[..], i, n);
      var before := alpha[i];
      alpha[i] := n;
      assert alpha[..] == alpha0[i := n];
      AddInto(w, p.x[i], Mul(n - before, y[i]));
    }
  }

  lemma ShrinkBag(index: seq<nat>, s: nat, active: nat)
    requires s < active <= |index|
    ensures var r := index[s := index[active - 1]][active - 1 := index[s]];
      multiset(index[s..active]) == multiset{index[s]} + multiset(r[s..active - 1])
  {
    var r := index[s := index[active - 1]][active - 1 := index[s]];
    var u, m := index[s..active], active - 1 - s;
    SwapBag(u, 0, m, m + 1);
    assert r[s..active] == u[0 := u[m]][m := u[0]];
    assert u[..m + 1] == u && r[s..active][..m + 1] == r[s..active];
    assert r[s..active] == r[s..active - 1] + [index[s]];
  }

  /** Moves an example behind the active ones. */
  method Retire(index: array<nat>, s: nat, active: nat, l: nat)
    requires s < active <= index.Length && Permutation(index[..], l)
    modifies index
    ensures Permutation(index[..], l) && index[active..] == old(index[active..])
    ensures multiset(old(index[s..active])) == multiset{old(index[s])} + multiset(index[s..active - 1])
    ensures index[..s] == old(index[..s])
  {
    hide Permutation;
    ghost var order := index[..];
    InRange(order, l, s);
    ShrinkBag(order, s, active);
    Swap(index, s, active - 1, l);
    assert order[s..active] == old(index[s..active]) && index[..][s..active - 1] == index[s..active - 1];
  }

  lemma HeadBag(index: seq<nat>, s: nat, active: nat)
    requires s < active <= |index|
    ensures multiset(index[s..active]) == multiset{index[s]} + multiset(index[s + 1..active])
  {
    assert index[s..active] == [index[s]] + index[s + 1..active];
  }

  /** What `Visit` does is the turn of the specification. */
  lemma TurnedIs(p: Problem, c: Setting, qd: seq<real>, o: Outcome, w: seq<real>, i: nat, pgMax: Ext, pgMin: Ext,
                 shrunk: bool, pg: real, after: seq<real>)
    requires Positive(c) && Valid(p) && InStep(p, o.alpha, w) && i < |o.alpha| == |qd| && qd[i] == Curvature(p, c, i)
    requires qd[i] >= 0.0 && (qd[i] == 0.0 ==> Bounds(p, c)[i].Fin?)
    requires shrunk == Shrinks(o.alpha[i], Gradient(p, c, o.alpha, w, i), Bounds(p, c)[i], pgMax, pgMin)
    requires !shrunk ==> pg == Projected(o.alpha[i], Gradient(p, c, o.alpha, w, i), Bounds(p, c)[i])
    requires after == if shrunk || !Significant(pg) then o.alpha
      else o.alpha[i := NewAlpha(o.alpha[i], Gradient(p, c, o.alpha, w, i), qd[i], Bounds(p, c)[i])]
    ensures Turned(p, c, o, i, pgMax, pgMin) == if shrunk then o else Outcome(after, o.kept + [i], o.pgs + [pg])
    ensures shrunk ==> after == o.alpha
  {
    hide Gradient, NewAlpha, Curvature, Shrinks, Projected;
    assert w == WeightsOf(p, o.alpha);
  }

  lemma CurvatureOf(p: Problem, c: Setting, y: seq<real>, qd: seq<real>, i: nat)
    requires Positive(c) && Prepared(p, c, y, qd) && i < |p.x|
    ensures Valid(p) && |qd| == |p.x| && qd[i] == Curvature(p, c, i) >= 0.0
    ensures qd[i] == 0.0 ==> Bounds(p, c)[i].Fin?
  {
    FlatIsBounded(p, c, i);
  }

  /** A visit in terms of the specification. */
  method VisitNoted(p: Problem, c: Setting, y: array<real>, qd: array<real>, alpha: array<real>, w: array<real>, i: nat,
                    pgMax: Ext, pgMin: Ext, ghost o0: Outcome)
    returns (shrunk: bool, pg: real, ghost o: Outcome)
    requires Positive(c) && Prepared(p, c, y[..], qd[..]) && Sound(p, c, alpha[..], w[..]) && i < alpha.Length == |p.x|
    requires alpha != w && y != alpha && y != w && qd != alpha && qd != w && o0.alpha == alpha[..]
    modifies alpha, w
    ensures Sound(p, c, alpha[..], w[..]) && Valid(p) && o == Turned(p, c, o0, i, pgMax, pgMin) && o.alpha == alpha[..]
    ensures if shrunk then o == o0 else o.kept == o0.kept + [i] && o.pgs == o0.pgs + [pg]
  {
    hide Dual, WeightAt, Signs, Diagonal, Feasible, InStep, Move, NewAlpha, Gradient, Prepared,
      Shrinks, Projected, Best, Turned;
    ghost var weights := w[..];
    CurvatureOf(p, c, y[..], qd[..], i);
    shrunk, pg := Visit(p, c, y, qd, alpha, w, i, pgMax, pgMin);
    TurnedIs(p, c, qd[..], o0, weights, i, pgMax, pgMin, shrunk, pg, alpha[..]);
    o := Turned(p, c, o0, i, pgMax, pgMin);
  }

  /** One turn of a pass: the example at `s` is visited, and retired from the active ones if it is shrunk away. */
  method Turn(p: Problem, c: Setting, y: array<real>, qd: array<real>, alpha: array<real>, w: array<real>,
              index: array<nat>, s0: nat, active0: nat, pgMax: Ext, pgMin: Ext, ghost o0: Outcome)
    returns (s: nat, active: nat, pg: real, ghost o: Outcome)
    requires Positive(c) && Prepared(p, c, y[..], qd[..]) && Sound(p, c, alpha[..], w[..])
    requires alpha != w && y != alpha && y != w && qd != alpha && qd != w
    requires Permutation(index[..], |p.x|) && s0 < active0 <= index.Length && alpha.Length == |p.x|
    requires o0.alpha == alpha[..] && o0.kept == index[..s0]
    modifies alpha, w, index
    ensures Sound(p, c, alpha[..], w[..]) && Permutation(index[..], |p.x|)
    ensures (s == s0 && active == active0 - 1 && o.pgs == o0.pgs)
      || (s == s0 + 1 && active == active0 && o.pgs == o0.pgs + [pg])
    ensures old(index[s0]) < |p.x| && o == Turned(p, c, o0, old(index[s0]), pgMax, pgMin)
    ensures o.alpha == alpha[..] && o.kept == index[..s]
    ensures index[active0..] == old(index[active0..])
    ensures multiset(old(index[s0..active0])) == multiset{old(index[s0])} + multiset(index[s..active])
  {
    hide Feasible, InStep, Prepared, Permutation, Turned, Sound;
    s, active := s0, active0;
    ghost var order := index[..];
    InRange(order, |p.x|, s);
    HeadBag(order, s, active);
    assert order[s..active] == index[s..active] && order[s + 1..active] == index[s + 1..active];
    var shrunk;
    shrunk, pg, o := VisitNoted(p, c, y, qd, alpha, w, index[s], pgMax, pgMin, o0);
    assert index[..s + 1] == index[..s] + [index[s]];
    if shrunk {
      Retire(index, s, active, |p.x|);
      active := active - 1;
    } else {
      s := s + 1;
    }
  }

  /** A turn and what the pass notes of it. */
  method Round(p: Problem, c: Setting, y: array<real>, qd: array<real>, alpha: array<real>, w: array<real>,
               index: array<nat>, s0: nat, active0: nat, pgMax: Ext, pgMin: Ext, max0: Ext, min0: Ext,
               ghost o0: Outcome)
    returns (s: nat, active: nat, max: Ext, min: Ext, ghost o: Outcome)
    requires Positive(c) && Prepared(p, c, y[..], qd[..]) && Sound(p, c, alpha[..], w[..])
    requires alpha != w && y != alpha && y != w && qd != alpha && qd != w
    requires Permutation(index[..], |p.x|) && s0 < active0 <= index.Length && alpha.Length == |p.x|
    requires o0.alpha == alpha[..] && o0.kept == index[..s0] && max0 == MaxOf(o0.pgs) && min0 == MinOf(o0.pgs)
    modifies alpha, w, index
    ensures Sound(p, c, alpha[..], w[..]) && Permutation(index[..], |p.x|)
    ensures (s == s0 && active == active0 - 1) || (s == s0 + 1 && active == active0)
    ensures old(index[s0]) < |p.x| && o == Turned(p, c, o0, old(index[s0]), pgMax, pgMin)
    ensures o.alpha == alpha[..] && o.kept == index[..s] && max == MaxOf(o.pgs) && min == MinOf(o.pgs)
    ensures index[..][active0..] == old(index[..][active0..])
    ensures multiset(old(index[s0..active0])) == multiset{old(index[s0])} + multiset(index[s..active])
  {
    hide Feasible, InStep, Prepared, Permutation, Turned, MaxOf, MinOf, Sound;
    var pg;
    s, active, pg, o := Turn(p, c, y, qd, alpha, w, index, s0, active0, pgMax, pgMin, o0);
    max, min := max0, min0;
    if s > s0 {
      ExtremesNext(o0.pgs, pg);
      max, min := MaxExt(max, pg), MinExt(min, pg);
    }
  }

  /** A pass visits every active example once, in some order, shrinks some of them away and moves the others, with
      exactly the outcome of those turns. */
  method Pass(p: Problem, c: Setting, y: array<real>, qd: array<real>, alpha: array<real>, w: array<real>,
              index: array<nat>, active0: nat, pgMax: Ext, pgMin: Ext)
    returns (active: nat, pgMaxNew: Ext, pgMinNew: Ext, ghost visited: seq<nat>)
    requires Positive(c) && Prepared(p, c, y[..], qd[..]) && Sound(p, c, alpha[..], w[..])
    requires alpha != w && y != alpha && y != w && qd != alpha && qd != w
    requires Permutation(index[..], |p.x|) && active0 <= index.Length && alpha.Length == |p.x|
    modifies alpha, w, index
    ensures Sound(p, c, alpha[..], w[..]) && Permutation(index[..], |p.x|)
    ensures active <= active0 && index[active0..] == old(index[active0..])
    ensures multiset(visited) == multiset(old(index[..active0])) && Indices(visited, |p.x|)
    ensures var o := Turns(p, c, old(alpha[..]), visited, pgMax, pgMin);
      o.alpha == alpha[..] && o.kept == index[..active] && pgMaxNew == MaxOf(o.pgs) && pgMinNew == MinOf(o.pgs)
  {
    assert Valid(p);
    hide Feasible, InStep, Prepared, Permutation, Turned, Turns, MaxOf, MinOf, Sound, Valid, Positive, Indices, Splits;
    active, pgMaxNew, pgMinNew, visited := active0, NegInf, PosInf, [];
    Shuffle(index, active, |p.x|);
    NoneYet(p, c, alpha[..], pgMax, pgMin);
    var s: nat := 0;
    ghost var o := Outcome(alpha[..], [], []);
    assert index[s..active] == index[..active] && index[..][active0..] == index[active0..];
    AllLeft(index[..active], old(index[..active0]));
    while s < active
      invariant s <= active <= active0
      invariant Sound(p, c, alpha[..], w[..]) && Permutation(index[..], |p.x|)
      invariant Splits(visited, index[s..active], old(index[..active0]))
      invariant index[..][active0..] == old(index[..][active0..])
      invariant Indices(visited, |p.x|) && o == Turns(p, c, old(alpha[..]), visited, pgMax, pgMin)
      invariant o.alpha == alpha[..] && o.kept == index[..s] && pgMaxNew == MaxOf(o.pgs) && pgMinNew == MinOf(o.pgs)
      decreases active - s
    {
      ghost var i, order, rest, last, now := index[s], index[..], index[s..active], active, o;
      s, active, pgMaxNew, pgMinNew, o :=
        Round(p, c, y, qd, alpha, w, index, s, active, pgMax, pgMin, pgMaxNew, pgMinNew, o);
      TailKept(order, index[..], last, active0);
      SplitsNext(visited, i, rest, index[s..active], old(index[..active0]));
      TurnsNext(p, c, old(alpha[..]), visited, i, pgMax, pgMin, now);
      visited := visited + [i];
    }
    assert index[s..active] == [];
    assert index[..][active0..] == index[active0..];
  }

  /** The visited examples and those still to visit make up the whole. */
  ghost predicate Splits(visited: seq<nat>, rest: seq<nat>, all: seq<nat>) {
    multiset(visited) + multiset(rest) == multiset(all)
  }

  lemma AllLeft(rest: seq<nat>, all: seq<nat>)
    requires multiset(rest) == multiset(all)
    ensures Splits([], rest, all)
  {
  }

  lemma SplitsNext(visited: seq<nat>, i: nat, rest: seq<nat>, after: seq<nat>, all: seq<nat>)
    requires Splits(visited, rest, all) && multiset(rest) == multiset{i} + multiset(after)
    ensures Splits(visited + [i], after, all)
  {
  }

  lemma TailKept(before: seq<nat>, after: seq<nat>, m: nat, n: nat)
    requires m <= n <= |before| == |after| && after[m..] == before[m..]
    ensures after[n..] == before[n..]
  {
    assert after[n..] == after[m..][n - m..] && before[n..] == before[m..][n - m..];
  }

  lemma TurnsNext(p: Problem, c: Setting, alpha: seq<real>, order: seq<nat>, i: nat, pgMax: Ext, pgMin: Ext, o: Outcome)
    requires Valid(p) && Positive(c) && |alpha| == |p.x| && Indices(order, |alpha|) && i < |alpha|
    requires o == Turns(p, c, alpha, order, pgMax, pgMin)
    ensures Indices(order + [i], |alpha|)
    ensures Turns(p, c, alpha, order + [i], pgMax, pgMin) == Turned(p, c, o, i, pgMax, pgMin)
  {
    assert (order + [i])[..|order|] == order;
  }

  lemma NoneYet(p: Problem, c: Setting, alpha: seq<real>, pgMax: Ext, pgMin: Ext)
    requires Valid(p) && Positive(c) && |alpha| == |p.x|
    ensures MaxOf([]) == NegInf && MinOf([]) == PosInf && Indices([], |alpha|)
    ensures Turns(p, c, alpha, [], pgMax, pgMin) == Outcome(alpha, [], [])
  {
  }

  // ---------- the passes of a run ----------

  /** What a pass starts from, and the order in which it visits. */
  datatype Entry = Entry(before: seq<real>, order: seq<nat>, pgMax: Ext, pgMin: Ext)

  predicate Proper(p: Problem, m: Entry) {
    |m.before| == |p.x| && Indices(m.order, |p.x|)
  }

  ghost function ResultOf(p: Problem, c: Setting, m: Entry): (o: Outcome)
    requires Valid(p) && Positive(c) && Proper(p, m)
    ensures |o.alpha| == |p.x|
  {
    Turns(p, c, m.before, m.order, m.pgMax, m.pgMin)
  }

  /** The bounds for the next pass. */
  function OldMax(e: Ext): Ext {
    if e.NegInf? || (e.Fin? && e.r <= 0.0) then PosInf else e
  }

  function OldMin(e: Ext): Ext {
    if e.PosInf? || (e.Fin? && e.r >= 0.0) then NegInf else e
  }

  /** The projected gradients of the pass agree, so the run is over, or starts again with all examples. */
  ghost predicate Agree(o: Outcome, eps: real) {
    Narrow(MaxOf(o.pgs), MinOf(o.pgs), eps)
  }

  /** A pass over all examples, without bounds. */
  ghost predicate Whole(p: Problem, m: Entry) {
    Permutation(m.order, |p.x|) && m.pgMax == PosInf && m.pgMin == NegInf
  }

  /** `m` may follow the passes of `log`. */
  ghost predicate Follows(p: Problem, c: Setting, eps: real, log: seq<Entry>, m: Entry)
    requires Valid(p) && Positive(c)
  {
    && Proper(p, m)
    && (log == [] ==> m.before == Zeros(|p.x|) && Whole(p, m))
    && (log != [] ==> Proper(p, log[|log| - 1]) && GoesOn(p, eps, ResultOf(p, c, log[|log| - 1]), m))
  }

  /** Without an agreement the next pass visits those kept, within the range of their projected gradients; after an
      agreement of some examples only it is one over all. */
  ghost predicate GoesOn(p: Problem, eps: real, o: Outcome, m: Entry) {
    && m.before == o.alpha
    && if Agree(o, eps) then |o.kept| < |p.x| && Whole(p, m)
       else
         && multiset(m.order) == multiset(o.kept)
         && m.pgMax == OldMax(MaxOf(o.pgs)) && m.pgMin == OldMin(MinOf(o.pgs))
  }

  /** The passes of a run. */
  ghost predicate Passes(p: Problem, c: Setting, eps: real, log: seq<Entry>)
    requires Valid(p) && Positive(c)
  {
    forall k :: 0 <= k < |log| ==> Follows(p, c, eps, log[..k], log[k])
  }

  /** The run ended with an agreement over all examples. */
  ghost predicate Agreed(p: Problem, c: Setting, eps: real, log: seq<Entry>)
    requires Valid(p) && Positive(c)
  {
    && Passes(p, c, eps, log) && log != [] && Proper(p, log[|log| - 1])
    && Agree(ResultOf(p, c, log[|log| - 1]), eps) && |ResultOf(p, c, log[|log| - 1]).kept| == |p.x|
  }

  /** The order within a pass is free. */
  lemma AnyOrder(p: Problem, c: Setting, eps: real, log: seq<Entry>, m: Entry, order: seq<nat>)
    requires Valid(p) && Positive(c) && Follows(p, c, eps, log, m)
    requires multiset(order) == multiset(m.order) && Indices(order, |p.x|)
    ensures Follows(p, c, eps, log, m.(order := order))
  {
    if Permutation(m.order, |p.x|) { Reordered(m.order, order, |p.x|); }
  }

  lemma Reordered(s: seq<nat>, t: seq<nat>, l: nat)
    requires Permutation(s, l) && multiset(s) == multiset(t)
    ensures Permutation(t, l)
  {
    assert |multiset(s)| == |s| && |multiset(t)| == |t|;
    forall i | 0 <= i < |t| ensures t[i] < l { assert t[i] in multiset(s); }
    DistinctBag(s);
    BagDistinct(t);
  }

  lemma {:induction false} DistinctBag(s: seq<nat>)
    requires NoDup(s)
    ensures forall v :: multiset(s)[v] <= 1
  {
    if s != [] {
      var m := |s| - 1;
      assert s == s[..m] + [s[m]];
      DistinctBag(s[..m]);
      assert s[m] !in s[..m];
    }
  }

  lemma {:induction false} BagDistinct(s: seq<nat>)
    requires forall v :: multiset(s)[v] <= 1
    ensures NoDup(s)
  {
    if s != [] {
      var m := |s| - 1;
      assert s == s[..m] + [s[m]];
      var rest := multiset(s[..m]);
      assert multiset(s) == rest + multiset{s[m]};
      assert forall v :: rest[v] <= multiset(s)[v];
      BagDistinct(s[..m]);
      assert multiset(s)[s[m]] == rest[s[m]] + 1;
      assert forall i :: 0 <= i < m ==> s[i] in rest;
    }
  }

  /** The run after one more pass. */
  lemma OneMore(p: Problem, c: Setting, eps: real, log: seq<Entry>, m: Entry)
    requires Valid(p) && Positive(c) && Passes(p, c, eps, log) && Follows(p, c, eps, log, m)
    ensures Passes(p, c, eps, log + [m])
  {
    hide Follows;
    var r := log + [m];
    forall k | 0 <= k < |r| ensures Follows(p, c, eps, r[..k], r[k]) {
      assert r[..k] == if k < |log| then log[..k] else log;
    }
  }

  /** The objective never rises from pass to pass, and the box is never left. */
  lemma {:induction false} PassesLower(p: Problem, c: Setting, eps: real, log: seq<Entry>, i: nat, j: nat)
    requires Valid(p) && Positive(c) && Passes(p, c, eps, log) && i <= j < |log|
    ensures Proper(p, log[i]) && Proper(p, log[j]) && Feasible(p, c, log[i].before)
    ensures var o := ResultOf(p, c, log[j]);
      Feasible(p, c, o.alpha) && Dual(p, c, o.alpha) <= Dual(p, c, log[j].before) <= Dual(p, c, log[i].before)
    decreases j
  {
    hide Dual, Turns, Feasible, Agree;
    assert Follows(p, c, eps, log[..j], log[j]) && Follows(p, c, eps, log[..i], log[i]);
    if j == 0 {
      StartInStep(p, c);
    } else {
      PassesLower(p, c, eps, log, if i < j then i else j - 1, j - 1);
      assert log[..j][|log[..j]| - 1] == log[j - 1];
    }
    TurnsLower(p, c, log[j].before, log[j].order, log[j].pgMax, log[j].pgMin);
  }

  /** Bounds that leave room on both sides of zero. */
  predicate Sensible(pgMax: Ext, pgMin: Ext) {
    (pgMax.PosInf? || (pgMax.Fin? && pgMax.r > 0.0)) && (pgMin.NegInf? || (pgMin.Fin? && pgMin.r < 0.0))
  }

  /** The bounds of every pass do. */
  lemma BoundsSensible(p: Problem, c: Setting, eps: real, log: seq<Entry>, k: nat)
    requires Valid(p) && Positive(c) && Passes(p, c, eps, log) && k < |log|
    ensures Sensible(log[k].pgMax, log[k].pgMin)
  {
    hide Turns, Agree, MaxOf, MinOf;
    assert Follows(p, c, eps, log[..k], log[k]);
    if k > 0 { NotReversed(ResultOf(p, c, log[..k][k - 1]).pgs); }
  }

  lemma NotReversed(pgs: seq<real>)
    ensures !MaxOf(pgs).PosInf? && !MinOf(pgs).NegInf?
  {
    if pgs != [] { ExtremesAre(pgs); }
  }

  /** An example is shrunk away if and only if its multiplier sits at a bound, it could not be moved, and its gradient
      is outside the last pass's range. So what is dropped is best where it is at that moment. */
  lemma ShrinksExactly(p: Problem, c: Setting, alpha: seq<real>, i: nat, pgMax: Ext, pgMin: Ext)
    requires Valid(p) && Positive(c) && Feasible(p, c, alpha) && i < |alpha| && Sensible(pgMax, pgMin)
    ensures var a, g, bound := alpha[i], GradientAt(p, c, alpha, i), Bounds(p, c)[i];
      var s := Shrinks(a, g, bound, pgMax, pgMin);
      && s == ((a == 0.0 || bound == Fin(a)) && ProjectedAt(p, c, alpha, i) == 0.0
               && (Above(g, pgMax) || Under(g, pgMin)))
      && (s ==> Best(p, c, alpha, i))
  {
    hide GradientAt, Best, Dual;
    if Shrinks(alpha[i], GradientAt(p, c, alpha, i), Bounds(p, c)[i], pgMax, pgMin) {
      ProjectedBest(p, c, alpha, i);
    }
  }

  lemma ProjectedBest(p: Problem, c: Setting, alpha: seq<real>, i: nat)
    requires Valid(p) && Positive(c) && Feasible(p, c, alpha) && i < |alpha|
    ensures ProjectedAt(p, c, alpha, i) == 0.0 ==> Best(p, c, alpha, i)
  {
    hide Best, Gradient;
    if ProjectedAt(p, c, alpha, i) == 0.0 { StuckIsBest(p, c, alpha, WeightsOf(p, alpha), i); }
  }

  /** No pass visits an example twice. */
  lemma {:induction false} VisitsOnce(p: Problem, c: Setting, eps: real, log: seq<Entry>, k: nat)
    requires Valid(p) && Positive(c) && Passes(p, c, eps, log) && k < |log|
    ensures Proper(p, log[k]) && forall v :: multiset(log[k].order)[v] <= 1
    decreases k
  {
    hide Turns, Agree;
    assert Follows(p, c, eps, log[..k], log[k]);
    if Permutation(log[k].order, |p.x|) { DistinctBag(log[k].order); }
    if k > 0 {
      VisitsOnce(p, c, eps, log, k - 1);
      var m := log[k - 1];
      assert log[..k][|log[..k]| - 1] == m;
      TurnsKeep(p, c, m.before, m.order, m.pgMax, m.pgMin);
    }
  }

  /** When the run ends with an agreement its last pass visited every example and shrank none away. Any two of the
      projected gradients found at its turns differ by at most `eps`; and they are all zero if and only if the pass
      started from a global minimum, which then is the result. */
  lemma AgreedMeans(p: Problem, c: Setting, eps: real, log: seq<Entry>)
    requires Valid(p) && Positive(c) && Agreed(p, c, eps, log)
    ensures var m := log[|log| - 1];
      var o := ResultOf(p, c, m);
      && Permutation(m.order, |p.x|) && Feasible(p, c, m.before) && o == Turns(p, c, m.before, m.order, PosInf, NegInf)
      && (forall g, h :: g in o.pgs && h in o.pgs ==> g - h <= eps)
      && (AllZero(o.pgs) <==> Optimal(p, c, m.before)) && (Optimal(p, c, m.before) ==> o.alpha == m.before)
  {
    hide Turns, Optimal, Feasible;
    var m := log[|log| - 1];
    var o := ResultOf(p, c, m);
    VisitsOnce(p, c, eps, log, |log| - 1);
    BagDistinct(m.order);
    PassesLower(p, c, eps, log, |log| - 1, |log| - 1);
    TurnsKeep(p, c, m.before, m.order, m.pgMax, m.pgMin);
    DistinctLength(m.order, |p.x|);
    NoneShrunk(p, c, m.before, m.order, m.pgMax, m.pgMin);
    FullPassIsTest(p, c, m.before, m.order);
    NarrowMeans(o.pgs, eps);
  }

  lemma DistinctLength(s: seq<nat>, l: nat)
    requires NoDup(s) && Indices(s, l)
    ensures |s| <= l
  {
    ElementsSize(s);
    assert Elements(s) <= UpTo(l);
    SubsetSize(Elements(s), UpTo(l));
  }

  lemma SubsetSize(s: set<nat>, t: set<nat>)
    requires s <= t
    ensures |s| <= |t|
  {
    assert t == s + (t - s);
  }

  lemma FirstPass(p: Problem, c: Setting, eps: real, order: seq<nat>)
    requires Valid(p) && Positive(c) && Permutation(order, |p.x|)
    ensures Passes(p, c, eps, []) && Follows(p, c, eps, [], Entry(Zeros(|p.x|), order, PosInf, NegInf))
  {
  }

  /** An agreement of some examples only: again with all. */
  lemma AgainAll(p: Problem, c: Setting, eps: real, log: seq<Entry>, order: seq<nat>)
    requires Valid(p) && Positive(c) && log != [] && Proper(p, log[|log| - 1]) && Permutation(order, |p.x|)
    requires var o := ResultOf(p, c, log[|log| - 1]); Agree(o, eps) && |o.kept| < |p.x|
    ensures Follows(p, c, eps, log, Entry(ResultOf(p, c, log[|log| - 1]).alpha, order, PosInf, NegInf))
  {
    hide Turns, Agree;
  }

  /** No agreement yet: on with those kept. */
  lemma OnlyKept(p: Problem, c: Setting, eps: real, log: seq<Entry>)
    requires Valid(p) && Positive(c) && log != [] && Proper(p, log[|log| - 1])
    requires !Agree(ResultOf(p, c, log[|log| - 1]), eps)
    ensures var o := ResultOf(p, c, log[|log| - 1]);
      Follows(p, c, eps, log, Entry(o.alpha, o.kept, OldMax(MaxOf(o.pgs)), OldMin(MinOf(o.pgs))))
  {
    hide Turns, Agree;
    var m := log[|log| - 1];
    TurnsKeep(p, c, m.before, m.order, m.pgMax, m.pgMin);
    var o := ResultOf(p, c, m);
    forall k | 0 <= k < |o.kept| ensures o.kept[k] < |p.x| {
      assert o.kept[k] in multiset(o.kept) && o.kept[k] in multiset(m.order);
    }
  }

  lemma BeginsAtZero(p: Problem, c: Setting, eps: real, log: seq<Entry>)
    requires Valid(p) && Positive(c) && Passes(p, c, eps, log) && log != []
    ensures Dual(p, c, log[0].before) == 0.0
  {
    hide Dual;
    assert Follows(p, c, eps, log[..0], log[0]);
    NothingYet(p, c);
  }

  // ---------- the solver ----------

  method Prepare(p: Problem, c: Setting, w: array<real>)
    returns (y: array<real>, qd: array<real>, alpha: array<real>, index: array<nat>)
    requires Valid(p) && Positive(c) && w.Length == p.n
    modifies w
    ensures fresh(y) && fresh(qd) && fresh(alpha) && fresh(index) && y != alpha && qd != alpha
    ensures Prepared(p, c, y[..], qd[..]) && Permutation(index[..], |p.x|) && index.Length == |p.x|
    ensures alpha[..] == Zeros(|p.x|) && w[..] == Zeros(p.n)
  {
    hide SquareSum, AddRow;
    var l := |p.x|;
    y, qd, alpha, index := new real[l], new real[l], new real[l], new nat[l];
    for i := 0 to l
      invariant forall k :: 0 <= k < i ==> y[k] == Signs(p)[k]
    {
      y[i] := if p.y[i] > 0.0 then 1.0 else -1.0;
    }
    for i := 0 to l
      invariant y[..] == Signs(p) && forall k :: 0 <= k < i ==> alpha[k] == 0.0
    {
      alpha[i] := 0.0;
    }
    for i := 0 to p.n
      invariant y[..] == Signs(p) && alpha[..] == Zeros(l)
      invariant forall k :: 0 <= k < i ==> w[k] == 0.0
    {
      w[i] := 0.0;
    }
    for i := 0 to l
      invariant y[..] == Signs(p) && alpha[..] == Zeros(l) && w[..] == Zeros(p.n)
      invariant forall k :: 0 <= k < i ==> index[k] == k && qd[k] == Curvature(p, c, k)
    {
      var q := AddExample(w, p.x[i], Mul(y[i], alpha[i]), Diagonal(p, c)[i]);
      AddRowZero(Zeros(p.n), p.x[i]);
      qd[i] := q;
      index[i] := i;
    }
  }

  lemma {:induction false} PenaltySplits(t: seq<real>, a: seq<real>, e: seq<real>, k: nat)
    requires k <= |t| == |a| == |e| && forall i :: 0 <= i < |t| ==> t[i] == Mul(a[i], Mul(a[i], e[i]) - 2.0)
    ensures Total(t[..k]) == Total(Weighted(a, e)[..k]) - 2.0 * Total(a[..k])
  {
    if k > 0 {
      PenaltySplits(t, a, e, k - 1);
      TotalPrefix(t, k - 1, k);
      TotalPrefix(Weighted(a, e), k - 1, k);
      TotalPrefix(a, k - 1, k);
      assert Mul(a[k - 1], Mul(a[k - 1], e[k - 1]) - 2.0) == Mul(a[k - 1], Mul(a[k - 1], e[k - 1])) - 2.0 * a[k - 1];
    }
  }

  /** The value that is reported at the end is the dual objective. */
  method Report(p: Problem, c: Setting, alpha: array<real>, w: array<real>) returns (v: real)
    requires Valid(p) && Positive(c) && Sound(p, c, alpha[..], w[..])
    ensures v == Dual(p, c, alpha[..])
  {
    hide Dual, Total, Feasible, WeightAt, Diagonal;
    var e := Diagonal(p, c);
    ghost var a := alpha[..];
    ghost var squares := Times(w[..], w[..]);
    ghost var t := seq(|a|, i requires 0 <= i < |a| => Mul(a[i], Mul(a[i], e[i]) - 2.0));
    TotalZero([]);
    v := 0.0;
    for i := 0 to w.Length
      invariant v == Total(squares[..i])
    {
      TotalPrefix(squares, i, i + 1);
      v := v + w[i] * w[i];
    }
    assert squares[..w.Length] == squares;
    for i := 0 to alpha.Length
      invariant v == Inner(w[..], w[..]) + Total(t[..i])
    {
      TotalPrefix(t, i, i + 1);
      v := v + alpha[i] * (alpha[i] * e[i] - 2.0);
    }
    PenaltySplits(t, a, e, |a|);
    assert t[..|a|] == t && a[..|a|] == a && Weighted(a, e)[..|a|] == Weighted(a, e);
    DualInStep(p, c, a, w[..]);
    v := v / 2.0;
  }

  /** Passes until the projected gradients agree over all examples, or 1000 of them. */
  method Solve(p: Problem, c: Setting, w: array<real>, eps: real)
    returns (alpha: array<real>, value: real, iter: nat, ghost log: seq<Entry>)
    requires Valid(p) && Positive(c) && w.Length == p.n
    modifies w
    ensures fresh(alpha) && Sound(p, c, alpha[..], w[..])
    ensures iter == |log| && 0 < iter <= 1000 && Passes(p, c, eps, log)
    ensures Proper(p, log[iter - 1]) && alpha[..] == ResultOf(p, c, log[iter - 1]).alpha
    ensures iter < 1000 ==> Agreed(p, c, eps, log)
    ensures value == Dual(p, c, alpha[..]) <= 0.0
  {
    hide Dual, WeightAt, Signs, Diagonal, Feasible, InStep, Curvature, MaxOf, MinOf, Turns, Follows, Passes, Prepared,
      Permutation, Indices;
    var y, qd, index;
    y, qd, alpha, index := Prepare(p, c, w);
    var l: nat := |p.x|;
    var active: nat, pgMaxOld, pgMinOld := l, PosInf, NegInf;
    iter, log := 0, [];
    StartInStep(p, c);
    FirstPass(p, c, eps, index[..]);
    assert index[..active] == index[..];
    ghost var agreed := false;
    while iter < 1000
      invariant iter <= 1000 && active <= l == alpha.Length == index.Length && !agreed && iter == |log|
      invariant Prepared(p, c, y[..], qd[..]) && Sound(p, c, alpha[..], w[..]) && Permutation(index[..], l)
      invariant Passes(p, c, eps, log) && Follows(p, c, eps, log, Entry(alpha[..], index[..active], pgMaxOld, pgMinOld))
      invariant iter > 0 ==> Proper(p, log[iter - 1]) && alpha[..] == ResultOf(p, c, log[iter - 1]).alpha
    {
      ghost var m := Entry(alpha[..], index[..active], pgMaxOld, pgMinOld);
      var pgMaxNew, pgMinNew;
      ghost var visited;
      active, pgMaxNew, pgMinNew, visited := Pass(p, c, y, qd, alpha, w, index, active, pgMaxOld, pgMinOld);
      AnyOrder(p, c, eps, log, m, visited);
      OneMore(p, c, eps, log, m.(order := visited));
      log := log + [m.(order := visited)];
      iter := iter + 1;
      if Narrow(pgMaxNew, pgMinNew, eps) {
        if active == l {
          agreed := true;
          break;
        } else {
          active, pgMaxOld, pgMinOld := l, PosInf, NegInf;
          assert index[..active] == index[..];
          AgainAll(p, c, eps, log, index[..]);
          continue;
        }
      }
      pgMaxOld := if pgMaxNew.NegInf? || (pgMaxNew.Fin? && pgMaxNew.r <= 0.0) then PosInf else pgMaxNew;
      pgMinOld := if pgMinNew.PosInf? || (pgMinNew.Fin? && pgMinNew.r >= 0.0) then NegInf else pgMinNew;
      OnlyKept(p, c, eps, log);
    }
    assert iter < 1000 ==> agreed;
    value := Report(p, c, alpha, w);
    PassesLower(p, c, eps, log, 0, iter - 1);
    BeginsAtZero(p, c, eps, log);
  }
}
