/** What the dual problem of `solve_l2r_l1l2_svc` is dual to: a separating plane for the labels as they are given. */
module Primal {
  import opened Sparse
  import opened DualSvm
  import opened DualSolver

  /** The side an example belongs to. */
  function Side(y: real): real {
    if y > 0.0 then 1.0 else -1.0
  }

  /** The cost of an example on the wrong side. */
  function Cost(c: Setting, y: real): real {
    if y > 0.0 then c.cp else c.cn
  }

  /** How far a margin falls short of 1, or the square of that. */
  function Loss(l1: bool, z: real): real {
    var h := if z > 0.0 then z else 0.0;
    if l1 then h else Mul(h, h)
  }

  /** By how much the plane `v` misses the margin of example `i`. */
  function Short(p: Problem, v: seq<real>, i: nat): real
    requires Valid(p) && |v| == p.n && i < |p.x|
  {
    1.0 - Mul(Side(p.y[i]), Dot(v, p.x[i]))
  }

  ghost function Losses(p: Problem, c: Setting, v: seq<real>): (r: seq<real>)
    requires Valid(p) && |v| == p.n
    ensures |r| == |p.x|
    ensures forall i :: 0 <= i < |r| ==> r[i] == Mul(Cost(c, p.y[i]), Loss(c.l1, Short(p, v, i)))
  {
    seq(|p.x|, i requires 0 <= i < |p.x| => Mul(Cost(c, p.y[i]), Loss(c.l1, Short(p, v, i))))
  }

  /** The objective of support vector classification. */
  ghost function Objective(p: Problem, c: Setting, v: seq<real>): real
    requires Valid(p) && |v| == p.n
  {
    0.5 * Inner(v, v) + Total(Losses(p, c, v))
  }

  // ---------- one example ----------

  /** A feasible multiplier gives a bound from below for the loss at any margin. */
  lemma TermBound(l1: bool, cost: real, bound: Ext, e: real, a: real, z: real)
    requires cost > 0.0 && InBox(a, bound)
    requires if l1 then e == 0.0 && bound == Fin(cost) else 2.0 * (cost * e) == 1.0
    ensures Mul(cost, Loss(l1, z)) >= Mul(a, z) - 0.5 * Mul(a, Mul(a, e))
  {
    if l1 {
      if z > 0.0 { Ordered(a, cost, z); } else { Opposite(a, z); }
      assert Mul(a, Mul(a, e)) == 0.0;
    } else {
      var h := if z > 0.0 then z else 0.0;
      if z <= 0.0 { Opposite(a, z); }
      SquareBound(cost, e, a, h);
    }
  }

  lemma Ordered(a: real, b: real, z: real)
    requires a <= b && z >= 0.0
    ensures a * z <= b * z
  {
    assert (b - a) * z >= 0.0;
  }

  lemma Opposite(a: real, z: real)
    requires a >= 0.0 && z <= 0.0
    ensures a * z <= 0.0
  {
  }

  /** A square is not negative. */
  lemma SquareBound(cost: real, e: real, a: real, h: real)
    requires cost > 0.0 && 2.0 * (cost * e) == 1.0
    ensures cost * (h * h) >= a * h - 0.5 * (a * (a * e))
  {
    var d := h - a * e;
    NonNegative(cost, d);
    Expand(cost, e, a, h, d);
  }

  lemma NonNegative(cost: real, d: real)
    requires cost > 0.0
    ensures cost * (d * d) >= 0.0
  {
    assert d * d >= 0.0;
  }

  lemma Expand(cost: real, e: real, a: real, h: real, d: real)
    requires 2.0 * (cost * e) == 1.0 && d == h - a * e
    ensures cost * (d * d) == cost * (h * h) - a * h + 0.5 * (a * (a * e))
  {
    var k := a * e;
    assert cost * k == a * (cost * e) == 0.5 * a;
    assert d * d == h * h - 2.0 * (h * k) + k * k;
    assert cost * (h * k) == h * (cost * k) == 0.5 * (a * h);
    assert cost * (k * k) == k * (cost * k) == 0.5 * (a * k);
    assert cost * (d * d) == cost * (h * h) - 2.0 * (cost * (h * k)) + cost * (k * k);
    assert a * k == a * (a * e);
  }

  /** The bound is attained where the projected gradient is zero. */
  lemma TermTight(l1: bool, cost: real, bound: Ext, e: real, a: real, z: real)
    requires cost > 0.0 && InBox(a, bound)
    requires if l1 then e == 0.0 && bound == Fin(cost) else 2.0 * (cost * e) == 1.0 && bound.PosInf?
    requires Projected(a, Mul(a, e) - z, bound) == 0.0
    ensures Mul(cost, Loss(l1, z)) == Mul(a, z) - 0.5 * Mul(a, Mul(a, e))
  {
    if l1 {
      assert Mul(a, e) == 0.0 && Mul(a, Mul(a, e)) == 0.0;
    } else if a == 0.0 {
      assert z <= 0.0;
    } else {
      var k := a * e;
      assert z == k && k >= 0.0 by { WeightPositive(cost, e, a); }
      Expand(cost, e, a, z, 0.0);
    }
  }

  lemma WeightPositive(cost: real, e: real, a: real)
    requires cost > 0.0 && 2.0 * (cost * e) == 1.0 && a >= 0.0
    ensures a * e >= 0.0
  {
    if e <= 0.0 {
      Opposite(cost, e);
      assert false;
    }
    Ordered(0.0, a, e);
  }

  // ---------- all examples ----------

  lemma {:induction false} TotalsBound(l: seq<real>, a: seq<real>, r: seq<real>, e: seq<real>)
    requires |l| == |a| == |r| == |e| && forall i :: 0 <= i < |l| ==> l[i] >= a[i] - r[i] - 0.5 * e[i]
    ensures Total(l) >= Total(a) - Total(r) - 0.5 * Total(e)
  {
    var m := |l| - 1;
    if l != [] { TotalsBound(l[..m], a[..m], r[..m], e[..m]); }
  }

  lemma {:induction false} TotalsEqual(l: seq<real>, a: seq<real>, r: seq<real>, e: seq<real>)
    requires |l| == |a| == |r| == |e| && forall i :: 0 <= i < |l| ==> l[i] == a[i] - r[i] - 0.5 * e[i]
    ensures Total(l) == Total(a) - Total(r) - 0.5 * Total(e)
  {
    var m := |l| - 1;
    if l != [] { TotalsEqual(l[..m], a[..m], r[..m], e[..m]); }
  }

  /** How the multipliers see the plane `v`. */
  ghost function Pulls(p: Problem, alpha: seq<real>, v: seq<real>): (r: seq<real>)
    requires Valid(p) && |alpha| == |p.x| && |v| == p.n
    ensures |r| == |alpha| && forall i :: 0 <= i < |r| ==> r[i] == Mul(Signed(p, alpha)[i], Dot(v, p.x[i]))
  {
    seq(|alpha|, i requires 0 <= i < |alpha| => Mul(Signed(p, alpha)[i], Dot(v, p.x[i])))
  }

  lemma PullsAre(p: Problem, alpha: seq<real>, v: seq<real>)
    requires Valid(p) && |alpha| == |p.x| && |v| == p.n
    ensures Total(Pulls(p, alpha, v)) == Inner(v, WeightsOf(p, alpha))
  {
    var r := Pulls(p, alpha, v);
    InnerWeights(p.x, Signed(p, alpha), v, p.n, r, |alpha|);
    assert r[..|alpha|] == r;
  }

  /** The signs, the bounds and the diagonal are those of the labels. */
  lemma Settings(p: Problem, c: Setting, i: nat)
    requires Valid(p) && Positive(c) && i < |p.x|
    ensures Signs(p)[i] == Side(p.y[i]) && Cost(c, p.y[i]) > 0.0
    ensures var e, bound, cost := Diagonal(p, c)[i], Bounds(p, c)[i], Cost(c, p.y[i]);
      if c.l1 then e == 0.0 && bound == Fin(cost) else 2.0 * (cost * e) == 1.0 && bound.PosInf?
  {
    if !c.l1 { Halves(Cost(c, p.y[i])); }
  }

  lemma Halves(x: real)
    requires x > 0.0
    ensures 2.0 * (x * (0.5 / x)) == 1.0
  {
  }

  lemma PullIs(a: real, s: real, d: real, z: real)
    requires z == 1.0 - Mul(s, d)
    ensures Mul(a, z) == a - Mul(Mul(a, s), d)
  {
    assert a * (s * d) == a * s * d;
  }

  lemma ExampleBound(p: Problem, c: Setting, alpha: seq<real>, v: seq<real>, i: nat)
    requires Valid(p) && Positive(c) && Feasible(p, c, alpha) && |v| == p.n && i < |alpha|
    ensures Losses(p, c, v)[i] >= alpha[i] - Pulls(p, alpha, v)[i] - 0.5 * Weighted(alpha, Diagonal(p, c))[i]
  {
    hide Loss, Dot;
    Settings(p, c, i);
    var e, bound, cost := Diagonal(p, c)[i], Bounds(p, c)[i], Cost(c, p.y[i]);
    TermBound(c.l1, cost, bound, e, alpha[i], Short(p, v, i));
    PullIs(alpha[i], Side(p.y[i]), Dot(v, p.x[i]), Short(p, v, i));
  }

  lemma SquareOfDifference(v: seq<real>, w: seq<real>)
    requires |v| == |w|
    ensures 0.5 * Inner(v, v) - Inner(v, w) >= -0.5 * Inner(w, w)
  {
    hide Inner, Mul;
    var r := Minus(v, w);
    forall j | 0 <= j < |r| ensures r[j] == v[j] + Mul(-1.0, w[j]) { MinusOne(w[j]); }
    NormLinear(r, v, -1.0, w);
    MinusOne(Inner(v, w));
    MinusOne(Inner(w, w));
    MinusOne(Mul(-1.0, Inner(w, w)));
    NormNonNegative(r);
  }

  lemma MinusOne(x: real)
    ensures Mul(-1.0, x) == -x
  {
  }

  lemma NormNonNegative(r: seq<real>)
    ensures Inner(r, r) >= 0.0
  {
    forall j | 0 <= j < |r| ensures Times(r, r)[j] >= 0.0 { assert r[j] * r[j] >= 0.0; }
    TotalNonNegative(Times(r, r));
  }

  /** Weak duality: no plane has an objective below that of any feasible multipliers with its sign changed. */
  lemma WeakDuality(p: Problem, c: Setting, alpha: seq<real>, v: seq<real>)
    requires Valid(p) && Positive(c) && Feasible(p, c, alpha) && |v| == p.n
    ensures Objective(p, c, v) >= -Dual(p, c, alpha)
  {
    hide Dual, Inner, Total, WeightAt, Signed, Diagonal, InStep, Losses, Pulls, Weighted;
    var w := WeightsOf(p, alpha);
    forall i | 0 <= i < |alpha|
      ensures Losses(p, c, v)[i] >= alpha[i] - Pulls(p, alpha, v)[i] - 0.5 * Weighted(alpha, Diagonal(p, c))[i]
    {
      ExampleBound(p, c, alpha, v, i);
    }
    TotalsBound(Losses(p, c, v), alpha, Pulls(p, alpha, v), Weighted(alpha, Diagonal(p, c)));
    PullsAre(p, alpha, v);
    SquareOfDifference(v, w);
    DualInStep(p, c, alpha, w);
  }

  lemma ExampleTight(p: Problem, c: Setting, alpha: seq<real>, i: nat)
    requires Valid(p) && Positive(c) && Feasible(p, c, alpha) && i < |alpha| && ProjectedAt(p, c, alpha, i) == 0.0
    ensures var v := WeightsOf(p, alpha);
      Losses(p, c, v)[i] == alpha[i] - Pulls(p, alpha, v)[i] - 0.5 * Weighted(alpha, Diagonal(p, c))[i]
  {
    hide Loss, Dot, Projected;
    Settings(p, c, i);
    var v := WeightsOf(p, alpha);
    var e, bound, cost, z := Diagonal(p, c)[i], Bounds(p, c)[i], Cost(c, p.y[i]), Short(p, v, i);
    Commuted(Dot(v, p.x[i]), Side(p.y[i]));
    assert GradientAt(p, c, alpha, i) == Mul(alpha[i], e) - z;
    TermTight(c.l1, cost, bound, e, alpha[i], z);
    PullIs(alpha[i], Side(p.y[i]), Dot(v, p.x[i]), z);
  }

  lemma Commuted(a: real, b: real)
    ensures Mul(a, b) == Mul(b, a)
  {
  }

  /** Strong duality: where all projected gradients are zero the two objectives meet at the weights. */
  lemma TightDuality(p: Problem, c: Setting, alpha: seq<real>)
    requires Valid(p) && Positive(c) && Feasible(p, c, alpha)
    requires forall i :: 0 <= i < |alpha| ==> ProjectedAt(p, c, alpha, i) == 0.0
    ensures Objective(p, c, WeightsOf(p, alpha)) == -Dual(p, c, alpha)
  {
    hide Dual, Inner, Total, WeightAt, Signed, Diagonal, InStep, Losses, Pulls, Weighted, ProjectedAt;
    var w := WeightsOf(p, alpha);
    forall i | 0 <= i < |alpha|
      ensures Losses(p, c, w)[i] == alpha[i] - Pulls(p, alpha, w)[i] - 0.5 * Weighted(alpha, Diagonal(p, c))[i]
    {
      ExampleTight(p, c, alpha, i);
    }
    TotalsEqual(Losses(p, c, w), alpha, Pulls(p, alpha, w), Weighted(alpha, Diagonal(p, c)));
    PullsAre(p, alpha, w);
    DualInStep(p, c, alpha, w);
  }

  /** Multipliers are a global minimum if and only if their weights attain the bound, and then no plane is better. */
  lemma StrongDuality(p: Problem, c: Setting, alpha: seq<real>)
    requires Valid(p) && Positive(c) && Feasible(p, c, alpha)
    ensures Optimal(p, c, alpha) <==> Objective(p, c, WeightsOf(p, alpha)) == -Dual(p, c, alpha)
    ensures Optimal(p, c, alpha) ==>
      forall v :: |v| == p.n ==> Objective(p, c, WeightsOf(p, alpha)) <= Objective(p, c, v)
  {
    hide Dual, Objective, InStep, ProjectedAt;
    var w := WeightsOf(p, alpha);
    OptimalIff(p, c, alpha);
    if Optimal(p, c, alpha) {
      TightDuality(p, c, alpha);
      forall v | |v| == p.n ensures Objective(p, c, w) <= Objective(p, c, v) { WeakDuality(p, c, alpha, v); }
    }
    if Objective(p, c, w) == -Dual(p, c, alpha) {
      forall beta | Feasible(p, c, beta) ensures Dual(p, c, alpha) <= Dual(p, c, beta) {
        WeakDuality(p, c, beta, w);
      }
    }
  }

  /** How far any feasible multipliers are from the minimum at most, and their weights from the best plane. */
  lemma GapBounds(p: Problem, c: Setting, alpha: seq<real>, beta: seq<real>, v: seq<real>)
    requires Valid(p) && Positive(c) && Feasible(p, c, alpha) && Feasible(p, c, beta) && |v| == p.n
    ensures var w := WeightsOf(p, alpha);
      var gap := Objective(p, c, w) + Dual(p, c, alpha);
      gap >= 0.0 && Dual(p, c, alpha) - Dual(p, c, beta) <= gap && Objective(p, c, w) - Objective(p, c, v) <= gap
  {
    hide Dual, Objective, InStep;
    WeakDuality(p, c, beta, WeightsOf(p, alpha));
    WeakDuality(p, c, alpha, v);
    WeakDuality(p, c, alpha, WeightsOf(p, alpha));
  }

  /** The solver's weights when it stops with all projected gradients zero: no plane is better for the labels. */
  lemma SolvedIsBest(p: Problem, c: Setting, eps: real, log: seq<Entry>, w: seq<real>, v: seq<real>)
    requires Valid(p) && Positive(c) && Agreed(p, c, eps, log) && |v| == p.n
    requires var o := ResultOf(p, c, log[|log| - 1]); InStep(p, o.alpha, w) && AllZero(o.pgs)
    ensures Objective(p, c, w) <= Objective(p, c, v)
  {
    hide Optimal, Objective, Dual, Turns;
    AgreedMeans(p, c, eps, log);
    var alpha := ResultOf(p, c, log[|log| - 1]).alpha;
    assert w == WeightsOf(p, alpha);
    StrongDuality(p, c, alpha);
  }
}
