/** `cross_validation` of `linear.cpp`; training and prediction are parameters. */
module CrossValidation {
  import opened Seqs
  import opened Sparse
  import opened Permutations
  import opened Division

  type Row = seq<Feature>

  const INT_MAX := 0x7fff_ffff

  /** The learner: a model from examples and what the random generator gives, a value from a model and a row. */
  datatype Learner<!M> = Learner(train: (seq<Row>, seq<real>, nat) -> M, predict: (M, Row) -> real)

  /** The value for example `i` of the model that is trained on the chosen examples with the given random draws. */
  function Predict<M>(learner: Learner<M>, x: seq<Row>, y: seq<real>, chosen: seq<nat>, draws: nat, i: nat): real
    requires |x| == |y| && i < |x| && forall k :: 0 <= k < |chosen| ==> chosen[k] < |x|
  {
    learner.predict(learner.train(Pick(x, chosen), Pick(y, chosen), draws), x[i])
  }

  function Pick<T>(s: seq<T>, chosen: seq<nat>): (r: seq<T>)
    requires forall k :: 0 <= k < |chosen| ==> chosen[k] < |s|
    ensures |r| == |chosen| && forall k :: 0 <= k < |r| ==> r[k] == s[chosen[k]]
  {
    seq(|chosen|, k requires 0 <= k < |chosen| => s[chosen[k]])
  }

  /** As many folds as asked for, but no more than examples. */
  function Folds(folds: nat, l: nat): nat {
    if folds > l then l else folds
  }

  /** Where fold `f` begins. */
  function Bound(f: nat, l: nat, n: nat): nat
    requires n > 0
  {
    f * l / n
  }

  /** The fold sizes differ by at most one, and no fold is empty. */
  lemma FoldSize(f: nat, l: nat, n: nat)
    requires 0 < n <= l && f < n
    ensures l / n <= Bound(f + 1, l, n) - Bound(f, l, n) <= l / n + 1 && l / n >= 1
  {
    assert (f + 1) * l == f * l + l;
    QuotientAdds(f * l, l, n);
    QuotientPositive(l, n);
  }

  lemma QuotientAdds(x: nat, l: nat, n: nat)
    requires n > 0
    ensures x / n + l / n <= (x + l) / n <= x / n + l / n + 1
  {
    var q, r := Divide(x, n);
    var s, t := Divide(l, n);
    Distribute(n, q, s);
    Distribute(n, q + s, 1);
    if r + t < n {
      QuotientIs(x + l, n, q + s, r + t);
    } else {
      QuotientIs(x + l, n, q + s + 1, r + t - n);
    }
  }

  lemma Divide(x: nat, n: nat) returns (q: nat, r: nat)
    requires n > 0
    ensures x == n * q + r && r < n && q == x / n
  {
    q, r := x / n, x % n;
  }

  lemma Distribute(n: nat, a: nat, b: nat)
    ensures n * (a + b) == n * a + n * b
  {
  }

  lemma QuotientPositive(l: nat, n: nat)
    requires 0 < n <= l
    ensures l / n >= 1
  {
  }

  lemma FoldEnds(l: nat, n: nat)
    requires 0 < n
    ensures Bound(0, l, n) == 0 && Bound(n, l, n) == l
  {
    QuotientIs(n * l, n, l, 0);
  }

  lemma {:induction false} BoundsGrow(f: nat, g: nat, l: nat, n: nat)
    requires 0 < n <= l && f <= g <= n
    ensures Bound(f, l, n) <= Bound(g, l, n) <= l
    decreases n - f
  {
    FoldEnds(l, n);
    if f < g {
      FoldSize(f, l, n);
      BoundsGrow(f + 1, g, l, n);
    } else if g < n {
      FoldSize(g, l, n);
      BoundsGrow(g + 1, n, l, n);
    }
  }

  /** Every position is in one fold. */
  lemma {:induction false} FoldOf(p: nat, l: nat, n: nat, k: nat) returns (f: nat)
    requires 0 < n <= l && k <= n && p < Bound(k, l, n)
    ensures f < k && Bound(f, l, n) <= p < Bound(f + 1, l, n)
  {
    FoldEnds(l, n);
    if k > 0 && Bound(k - 1, l, n) <= p {
      f := k - 1;
    } else {
      f := FoldOf(p, l, n, k - 1);
    }
  }

  lemma FoldUnique(p: nat, l: nat, n: nat, f: nat, g: nat)
    requires 0 < n <= l && f < n && g < n
    requires Bound(f, l, n) <= p < Bound(f + 1, l, n) && Bound(g, l, n) <= p < Bound(g + 1, l, n)
    ensures f == g
  {
    if f < g { BoundsGrow(f + 1, g, l, n); }
    if g < f { BoundsGrow(g + 1, f, l, n); }
  }

  // ---------- training sets ----------

  /** All but the examples of a fold. */
  function Outside(perm: seq<nat>, begin: nat, end: nat): seq<nat>
    requires begin <= end <= |perm|
  {
    perm[..begin] + perm[end..]
  }

  /** A training set has every example that is not in the fold, once, and none that is. */
  lemma OutsideIs(perm: seq<nat>, l: nat, begin: nat, end: nat)
    requires Permutation(perm, l) && begin <= end <= l
    ensures NoDup(Outside(perm, begin, end))
    ensures forall i :: i in Outside(perm, begin, end) <==> 0 <= i < l && i !in perm[begin..end]
  {
    var o := Outside(perm, begin, end);
    assert forall k :: 0 <= k < |o| ==> o[k] == perm[if k < begin then k else k + (end - begin)];
    forall k | begin <= k < end ensures perm[k] in perm[begin..end] {
      assert perm[begin..end][k - begin] == perm[k];
    }
    forall i | 0 <= i < l && i !in perm[begin..end] ensures i in o {
      PermutationCovers(perm, l, i);
      var k :| 0 <= k < l && perm[k] == i;
      assert o[if k < begin then k else k - (end - begin)] == i;
    }
  }

  // ---------- the procedure ----------

  method SubProblem(x: seq<Row>, y: seq<real>, perm: array<nat>, begin: nat, end: nat)
    returns (subX: array<Row>, subY: array<real>)
    requires |x| == |y| && Permutation(perm[..], |x|) && begin <= end <= perm.Length
    ensures fresh(subX) && fresh(subY)
    ensures subX[..] == Pick(x, Outside(perm[..], begin, end)) && subY[..] == Pick(y, Outside(perm[..], begin, end))
  {
    var l: nat := perm.Length - (end - begin);
    subX, subY := new Row[l], new real[l];
    TakeExamples(x, y, perm, 0, begin, subX, subY, 0);
    TakeExamples(x, y, perm, end, perm.Length, subX, subY, begin);
    hide Pick, Outside;
    PickedOutside(subX[..], x, perm[..], begin, end);
    PickedOutside(subY[..], y, perm[..], begin, end);
  }

  lemma PickedOutside<T>(s: seq<T>, x: seq<T>, perm: seq<nat>, begin: nat, end: nat)
    requires Permutation(perm, |x|) && begin <= end <= |perm| && |s| == |perm| - (end - begin)
    requires forall i :: 0 <= i < begin ==> s[i] == x[perm[i]]
    requires forall i :: end <= i < |perm| ==> s[begin + i - end] == x[perm[i]]
    ensures (forall k :: 0 <= k < |Outside(perm, begin, end)| ==> Outside(perm, begin, end)[k] < |x|)
      && s == Pick(x, Outside(perm, begin, end))
  {
    var o := Outside(perm, begin, end);
    forall k | 0 <= k < |s| ensures o[k] < |x| && s[k] == x[o[k]] {
      var i := if k < begin then k else k + (end - begin);
      assert o[k] == perm[i] && s[if i < begin then i else begin + i - end] == x[perm[i]];
    }
  }

  /** One of the two loops: the examples at `from` to `to` of the order go to the cells from `k0` on. */
  method TakeExamples(x: seq<Row>, y: seq<real>, perm: array<nat>, from: nat, to: nat, subX: array<Row>,
                      subY: array<real>, k0: nat)
    requires |x| == |y| && Permutation(perm[..], |x|) && from <= to <= perm.Length
    requires k0 + (to - from) <= subX.Length == subY.Length && subX as object != subY as object
    modifies subX, subY
    ensures forall i :: 0 <= i < k0 ==> subX[i] == old(subX[i]) && subY[i] == old(subY[i])
    ensures forall i :: from <= i < to ==>
      subX[k0 + i - from] == x[perm[i]] && subY[k0 + i - from] == y[perm[i]]
  {
    var k := k0;
    for j := from to to
      invariant k == k0 + j - from
      invariant forall i :: 0 <= i < k0 ==> subX[i] == old(subX[i]) && subY[i] == old(subY[i])
      invariant forall i :: from <= i < j ==>
        subX[k0 + i - from] == x[perm[i]] && subY[k0 + i - from] == y[perm[i]]
    {
      subX[k], subY[k] := x[perm[j]], y[perm[j]];
      k := k + 1;
    }
  }

  /** Every example of fold `f` has its prediction from one model of the examples outside the fold. */
  ghost predicate FoldDone<M>(learner: Learner<M>, x: seq<Row>, y: seq<real>, perm: seq<nat>, n: nat, f: nat,
                              draws: nat, target: seq<real>)
    requires |x| == |y| == |target| && Permutation(perm, |x|) && 0 < n <= |x| && f < n
  {
    BoundsGrow(f, f + 1, |x|, n);
    forall j :: Bound(f, |x|, n) <= j < Bound(f + 1, |x|, n) ==>
      target[perm[j]] == Predict(learner, x, y, Outside(perm, Bound(f, |x|, n), Bound(f + 1, |x|, n)), draws, perm[j])
  }

  /** All indices in random order. */
  method RandomOrder(l: nat) returns (order: array<nat>)
    ensures fresh(order) && Permutation(order[..], l)
  {
    order := new nat[l];
    for i := 0 to l
      invariant forall k :: 0 <= k < i ==> order[k] == k
    {
      order[i] := i;
    }
    Shuffle(order, l, l);
  }

  method FoldStarts(l: nat, n: nat) returns (foldStart: array<nat>)
    requires n > 0
    ensures fresh(foldStart) && foldStart.Length == n + 1
    ensures forall k :: 0 <= k <= n ==> foldStart[k] == Bound(k, l, n)
  {
    hide Bound;
    foldStart := new nat[n + 1];
    for i := 0 to n + 1
      invariant forall k :: 0 <= k < i ==> foldStart[k] == Bound(k, l, n)
    {
      foldStart[i] := Bound(i, l, n);
    }
  }

  method CrossValidate<M>(x: seq<Row>, y: seq<real>, learner: Learner<M>, folds: nat, target: array<real>)
    returns (ghost perm: seq<nat>, ghost written: seq<nat>, ghost draws: seq<nat>)
    requires |x| == |y| == target.Length >= 2 && folds >= 2 && Folds(folds, |x|) * |x| <= INT_MAX
    modifies target
    ensures Permutation(perm, |x|) && written == perm
    ensures |draws| == if folds <= |x| then folds else |x|
    ensures forall f :: 0 <= f < |draws| ==> FoldDone(learner, x, y, perm, |draws|, f, draws[f], target[..])
  {
    hide Bound, Permutation;
    var l: nat, n := |x|, Folds(folds, |x|);
    var order := RandomOrder(l);
    perm, written, draws := order[..], [], [];
    var foldStart := FoldStarts(l, n);
    FoldEnds(l, n);
    for f := 0 to n
      invariant order[..] == perm && Permutation(perm, l) && |perm| == l
      invariant forall k :: 0 <= k <= n ==> foldStart[k] == Bound(k, l, n)
      invariant Bound(f, l, n) <= l && written == perm[..Bound(f, l, n)]
      invariant |draws| == f && forall g :: 0 <= g < f ==> FoldDone(learner, x, y, perm, n, g, draws[g], target[..])
    {
      BoundsGrow(f, f + 1, l, n);
      ghost var before := target[..];
      ghost var now, drawn := TrainFold(x, y, learner, order, foldStart[f], foldStart[f + 1], target);
      forall g | 0 <= g < f ensures FoldDone(learner, x, y, perm, n, g, draws[g], target[..]) {
        assert FoldDone(learner, x, y, perm, n, g, draws[g], before);
        OtherFold(learner, x, y, perm, n, g, f, draws[g], before, target[..]);
      }
      draws := draws + [drawn];
      written := written + now;
    }
  }

  /** One round: a model of the examples outside the fold, and its predictions inside. */
  method TrainFold<M>(x: seq<Row>, y: seq<real>, learner: Learner<M>, order: array<nat>, begin: nat, end: nat,
                      target: array<real>)
    returns (ghost written: seq<nat>, draws: nat)
    requires |x| == |y| == target.Length && Permutation(order[..], |x|) && begin <= end <= |x|
    modifies target
    ensures forall j :: begin <= j < end ==>
      target[order[j]] == Predict(learner, x, y, Outside(order[..], begin, end), draws, order[j])
    ensures forall j :: 0 <= j < |x| && !(begin <= j < end) ==> target[order[j]] == old(target[order[j]])
    ensures written == order[begin..end]
  {
    written, draws := [], *;
    var subX, subY := SubProblem(x, y, order, begin, end);
    var submodel := learner.train(subX[..], subY[..], draws);
    for j := begin to end
      invariant forall k :: begin <= k < j ==> target[order[k]] == learner.predict(submodel, x[order[k]])
      invariant forall k :: 0 <= k < |x| && !(begin <= k < end) ==> target[order[k]] == old(target[order[k]])
      invariant written == order[begin..j]
    {
      target[order[j]] := learner.predict(submodel, x[order[j]]);
      written := written + [order[j]];
    }
  }

  lemma OtherFold<M>(learner: Learner<M>, x: seq<Row>, y: seq<real>, perm: seq<nat>, n: nat, g: nat, f: nat,
                     draws: nat, before: seq<real>, after: seq<real>)
    requires |x| == |y| == |before| == |after| && Permutation(perm, |x|) && 0 < n <= |x| && g < f < n
    requires FoldDone(learner, x, y, perm, n, g, draws, before)
    requires forall j :: 0 <= j < |x| && !(Bound(f, |x|, n) <= j < Bound(f + 1, |x|, n)) ==>
      after[perm[j]] == before[perm[j]]
    ensures FoldDone(learner, x, y, perm, n, g, draws, after)
  {
    BoundsGrow(g + 1, f, |x|, n);
  }

  /** In the end every target is the prediction of a model trained on all examples outside that
      example's fold and on none inside. */
  lemma EveryTarget<M>(learner: Learner<M>, x: seq<Row>, y: seq<real>, perm: seq<nat>, n: nat, draws: seq<nat>,
                       target: seq<real>, i: nat)
    returns (f: nat, begin: nat, end: nat, others: seq<nat>, xs: seq<Row>, ys: seq<real>)
    requires |x| == |y| == |target| && Permutation(perm, |x|) && 0 < n <= |x| && i < |x| && |draws| == n
    requires forall f :: 0 <= f < n ==> FoldDone(learner, x, y, perm, n, f, draws[f], target)
    ensures f < n && begin == f * |x| / n <= end == (f + 1) * |x| / n <= |x| && i in perm[begin..end]
    ensures others == perm[..begin] + perm[end..] && NoDup(others)
    ensures forall k :: k in others <==> 0 <= k < |x| && k !in perm[begin..end]
    ensures |xs| == |ys| == |others|
      && forall k :: 0 <= k < |others| ==> others[k] < |x| && xs[k] == x[others[k]] && ys[k] == y[others[k]]
    ensures target[i] == learner.predict(learner.train(xs, ys, draws[f]), x[i])
  {
    f, begin, end, others := FoldTarget(learner, x, y, perm, n, draws, target, i);
    xs, ys := Pick(x, others), Pick(y, others);
  }

  lemma FoldTarget<M>(learner: Learner<M>, x: seq<Row>, y: seq<real>, perm: seq<nat>, n: nat, draws: seq<nat>,
                      target: seq<real>, i: nat)
    returns (f: nat, begin: nat, end: nat, others: seq<nat>)
    requires |x| == |y| == |target| && Permutation(perm, |x|) && 0 < n <= |x| && i < |x| && |draws| == n
    requires forall f :: 0 <= f < n ==> FoldDone(learner, x, y, perm, n, f, draws[f], target)
    ensures f < n && begin == Bound(f, |x|, n) <= end == Bound(f + 1, |x|, n) <= |x| && i in perm[begin..end]
    ensures others == Outside(perm, begin, end) && NoDup(others)
    ensures forall k :: k in others <==> 0 <= k < |x| && k !in perm[begin..end]
    ensures (forall k :: 0 <= k < |others| ==> others[k] < |x|)
      && target[i] == Predict(learner, x, y, others, draws[f], i)
  {
    hide Predict, Bound;
    PermutationCovers(perm, |x|, i);
    var p: nat :| p < |perm| && perm[p] == i;
    FoldEnds(|x|, n);
    f := FoldOf(p, |x|, n, n);
    BoundsGrow(f, f + 1, |x|, n);
    begin, end := Bound(f, |x|, n), Bound(f + 1, |x|, n);
    others := Outside(perm, begin, end);
    OutsideIs(perm, |x|, begin, end);
    assert perm[begin..end][p - begin] == i;
    assert FoldDone(learner, x, y, perm, n, f, draws[f], target);
  }
}
