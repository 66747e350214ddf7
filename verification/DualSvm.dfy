/** The shrinking dual coordinate descent of `solve_l2r_l1l2_svc`, over exact reals. */
module DualSvm {
  import opened Sparse
  import opened Permutations

  datatype Problem = Problem(n: nat, y: seq<real>, x: seq<seq<Feature>>)

  /** A real number or an infinity. */
  datatype Ext = NegInf | Fin(r: real) | PosInf

  /** The loss and the costs of the two classes. */
  datatype Setting = Setting(l1: bool, cp: real, cn: real)

  predicate Valid(p: Problem) {
    |p.x| == |p.y| && Rows(p.x, p.n)
  }

  predicate Positive(c: Setting) {
    c.cp > 0.0 && c.cn > 0.0
  }

  function Signs(p: Problem): (y: seq<real>)
    ensures |y| == |p.y| && forall i :: 0 <= i < |y| ==> y[i] == 1.0 || y[i] == -1.0
  {
    seq(|p.y|, i requires 0 <= i < |p.y| => if p.y[i] > 0.0 then 1.0 else -1.0)
  }

  /** The diagonal of D. */
  function Diagonal(p: Problem, c: Setting): (e: seq<real>)
    requires Positive(c)
    ensures |e| == |p.y| && forall i :: 0 <= i < |e| ==> e[i] >= 0.0 && (!c.l1 ==> e[i] > 0.0)
  {
    seq(|p.y|, i requires 0 <= i < |p.y| =>
      if c.l1 then 0.0 else if p.y[i] > 0.0 then 0.5 / c.cp else 0.5 / c.cn)
  }

  /** The upper bounds. */
  function Bounds(p: Problem, c: Setting): (b: seq<Ext>)
    requires Positive(c)
    ensures |b| == |p.y| && forall i :: 0 <= i < |b| ==> if c.l1 then b[i].Fin? && b[i].r > 0.0 else b[i].PosInf?
  {
    seq(|p.y|, i requires 0 <= i < |p.y| =>
      if !c.l1 then PosInf else if p.y[i] > 0.0 then Fin(c.cp) else Fin(c.cn))
  }

  predicate Below(a: real, b: Ext) {
    b.PosInf? || (b.Fin? && a <= b.r)
  }

  // ---------- sums and inner products ----------

  /** Multiplication under a name: the proofs below treat products as units. */
  function Mul(a: real, b: real): real { a * b }

  function Total(s: seq<real>): real {
    if s == [] then 0.0 else Total(s[..|s| - 1]) + s[|s| - 1]
  }

  function Times(u: seq<real>, v: seq<real>): (r: seq<real>)
    requires |u| == |v|
    ensures |r| == |u| && forall j :: 0 <= j < |r| ==> r[j] == Mul(u[j], v[j])
  {
    seq(|u|, j requires 0 <= j < |u| => Mul(u[j], v[j]))
  }

  function Inner(u: seq<real>, v: seq<real>): real
    requires |u| == |v|
  {
    Total(Times(u, v))
  }

  lemma {:induction false} TotalUpdate(s: seq<real>, k: nat, v: real)
    requires k < |s|
    ensures Total(s[k := v]) == Total(s) - s[k] + v
  {
    var m := |s| - 1;
    if k == m {
      assert s[k := v][..m] == s[..m];
    } else {
      assert s[k := v][..m] == s[..m][k := v];
      TotalUpdate(s[..m], k, v);
    }
  }

  /** Setting a coordinate that was zero. */
  lemma InnerUpdate(u: seq<real>, v: seq<real>, k: nat, b: real)
    requires |u| == |v| && k < |v| && v[k] == 0.0
    ensures Inner(u, v[k := b]) == Inner(u, v) + Mul(u[k], b)
    ensures Inner(v[k := b], v[k := b]) == Inner(v, v) + Mul(b, b)
  {
    var r, s := Times(u, v[k := b]), Times(u, v)[k := Mul(u[k], b)];
    forall j | 0 <= j < |v| ensures r[j] == s[j] { }
    assert r == s;
    TotalUpdate(Times(u, v), k, Mul(u[k], b));
    var p, q := Times(v[k := b], v[k := b]), Times(v, v)[k := Mul(b, b)];
    forall j | 0 <= j < |v| ensures p[j] == q[j] { }
    assert p == q;
    TotalUpdate(Times(v, v), k, Mul(b, b));
  }

  lemma {:induction false} TotalLinear(r: seq<real>, s: seq<real>, a: real, t: seq<real>)
    requires |r| == |s| == |t| && forall j :: 0 <= j < |r| ==> r[j] == s[j] + Mul(a, t[j])
    ensures Total(r) == Total(s) + Mul(a, Total(t))
  {
    if r != [] {
      var m := |r| - 1;
      TotalLinear(r[..m], s[..m], a, t[..m]);
      Factor(a, Total(t[..m]), t[m], Total(t));
    }
  }

  lemma Factor(a: real, b: real, c: real, s: real)
    requires s == b + c
    ensures Mul(a, s) == Mul(a, b) + Mul(a, c)
  {
  }

  lemma InnerSymmetric(u: seq<real>, v: seq<real>)
    requires |u| == |v|
    ensures Inner(u, v) == Inner(v, u)
  {
    assert Times(u, v) == Times(v, u);
  }

  lemma InnerLinear(r: seq<real>, w: seq<real>, d: real, v: seq<real>, z: seq<real>)
    requires |r| == |w| == |v| == |z| && forall j :: 0 <= j < |r| ==> r[j] == w[j] + Mul(d, v[j])
    ensures Inner(r, z) == Inner(w, z) + Mul(d, Inner(v, z))
  {
    forall j | 0 <= j < |r| ensures Times(r, z)[j] == Times(w, z)[j] + Mul(d, Times(v, z)[j]) {
      Spread(w[j], d, v[j], z[j], r[j]);
    }
    TotalLinear(Times(r, z), Times(w, z), d, Times(v, z));
  }

  lemma Spread(w: real, d: real, v: real, z: real, r: real)
    requires r == w + Mul(d, v)
    ensures Mul(r, z) == Mul(w, z) + Mul(d, Mul(v, z))
  {
  }

  /** The squared length of a sum. */
  lemma NormLinear(r: seq<real>, w: seq<real>, d: real, v: seq<real>)
    requires |r| == |w| == |v| && forall j :: 0 <= j < |r| ==> r[j] == w[j] + Mul(d, v[j])
    ensures Inner(r, r) == Inner(w, w) + 2.0 * Mul(d, Inner(w, v)) + Mul(d, Mul(d, Inner(v, v)))
  {
    InnerLinear(r, w, d, v, r);
    InnerLinear(r, w, d, v, w);
    InnerLinear(r, w, d, v, v);
    InnerSymmetric(r, w);
    InnerSymmetric(r, v);
    InnerSymmetric(w, v);
    Factor(d, Inner(w, v), Mul(d, Inner(v, v)), Inner(v, r));
  }

  // ---------- rows ----------

  /** The value of feature `j + 1`. */
  function Coef(row: seq<Feature>, j: nat): real {
    if row == [] then 0.0 else if row[0].index == j + 1 then row[0].value else Coef(row[1..], j)
  }

  function Dense(row: seq<Feature>, n: nat): (v: seq<real>)
    ensures |v| == n && forall j :: 0 <= j < n ==> v[j] == Coef(row, j)
  {
    seq(n, j requires 0 <= j => Coef(row, j))
  }

  function Dot(w: seq<real>, row: seq<Feature>): real
    requires ValidRow(row, |w|)
    decreases row
  {
    if row == [] then 0.0
    else Mul(w[row[0].index - 1], row[0].value) + Dot(w, row[1..])
  }

  function AddRow(w: seq<real>, row: seq<Feature>, d: real): (r: seq<real>)
    requires ValidRow(row, |w|)
    ensures |r| == |w|
    decreases row
  {
    if row == [] then w
    else AddRow(w[row[0].index - 1 := w[row[0].index - 1] + Mul(d, row[0].value)], row[1..], d)
  }

  function SquareSum(row: seq<Feature>): (q: real)
    ensures q >= 0.0
  {
    if row == [] then 0.0 else Mul(row[0].value, row[0].value) + SquareSum(row[1..])
  }

  lemma {:induction false} CoefAbsent(row: seq<Feature>, j: nat)
    requires forall k :: 0 <= k < |row| ==> row[k].index != j + 1
    ensures Coef(row, j) == 0.0
  {
    if row != [] { CoefAbsent(row[1..], j); }
  }

  lemma {:induction false} AddRowAt(w: seq<real>, row: seq<Feature>, d: real, j: nat)
    requires ValidRow(row, |w|) && j < |w|
    ensures AddRow(w, row, d)[j] == w[j] + Mul(d, Coef(row, j))
    decreases row
  {
    if row != [] {
      var k := row[0].index - 1;
      AddRowAt(w[k := w[k] + Mul(d, row[0].value)], row[1..], d, j);
      if j == k { CoefAbsent(row[1..], j); }
    }
  }

  lemma AddRowIs(w: seq<real>, row: seq<Feature>, d: real, n: nat)
    requires n == |w| && ValidRow(row, n)
    ensures forall j :: 0 <= j < n ==> AddRow(w, row, d)[j] == w[j] + Mul(d, Dense(row, n)[j])
  {
    forall j | 0 <= j < n ensures AddRow(w, row, d)[j] == w[j] + Mul(d, Dense(row, n)[j]) {
      AddRowAt(w, row, d, j);
    }
  }

  /** A row is its tail with one more coordinate set. */
  lemma DenseHead(row: seq<Feature>, n: nat)
    requires ValidRow(row, n) && row != []
    ensures Dense(row[1..], n)[row[0].index - 1] == 0.0
    ensures Dense(row, n) == Dense(row[1..], n)[row[0].index - 1 := row[0].value]
  {
    CoefAbsent(row[1..], row[0].index - 1);
  }

  lemma {:induction false} TotalZero(s: seq<real>)
    requires forall j :: 0 <= j < |s| ==> s[j] == 0.0
    ensures Total(s) == 0.0
  {
    if s != [] { TotalZero(s[..|s| - 1]); }
  }

  lemma {:induction false} DotIsInner(w: seq<real>, row: seq<Feature>, n: nat)
    requires n == |w| && ValidRow(row, n)
    ensures Dot(w, row) == Inner(w, Dense(row, n))
    decreases row
  {
    if row == [] {
      TotalZero(Times(w, Dense(row, n)));
    } else {
      DotIsInner(w, row[1..], n);
      DenseHead(row, n);
      InnerUpdate(w, Dense(row[1..], n), row[0].index - 1, row[0].value);
    }
  }

  lemma {:induction false} SquareSumIsInner(row: seq<Feature>, n: nat)
    requires ValidRow(row, n)
    ensures SquareSum(row) == Inner(Dense(row, n), Dense(row, n))
  {
    if row == [] {
      TotalZero(Times(Dense(row, n), Dense(row, n)));
    } else {
      SquareSumIsInner(row[1..], n);
      DenseHead(row, n);
      InnerUpdate(Dense(row[1..], n), Dense(row[1..], n), row[0].index - 1, row[0].value);
    }
  }

  /** Adding a multiple of a row changes the squared length by the usual two terms. */
  lemma NormAddRow(w: seq<real>, row: seq<Feature>, d: real, n: nat)
    requires n == |w| && ValidRow(row, n)
    ensures Inner(AddRow(w, row, d), AddRow(w, row, d))
      == Inner(w, w) + 2.0 * Mul(d, Dot(w, row)) + Mul(d, Mul(d, SquareSum(row)))
  {
    AddRowIs(w, row, d, n);
    NormLinear(AddRow(w, row, d), w, d, Dense(row, n));
    DotIsInner(w, row, n);
    SquareSumIsInner(row, n);
  }

  // ---------- the weight vector as a sum over the examples ----------

  /** Coordinate `j` of the sum of `d_i * x_i` over the first `k` examples. */
  function WeightAt(x: seq<seq<Feature>>, d: seq<real>, j: nat, k: nat): real
    requires k <= |x| == |d|
  {
    if k == 0 then 0.0 else WeightAt(x, d, j, k - 1) + Mul(d[k - 1], Coef(x[k - 1], j))
  }

  function Weights(x: seq<seq<Feature>>, d: seq<real>, n: nat, k: nat): (w: seq<real>)
    requires k <= |x| == |d|
    ensures |w| == n && forall j :: 0 <= j < n ==> w[j] == WeightAt(x, d, j, k)
  {
    seq(n, j requires 0 <= j => WeightAt(x, d, j, k))
  }

  lemma WeightsStep(x: seq<seq<Feature>>, d: seq<real>, n: nat, k: nat)
    requires 0 < k <= |x| == |d| && Rows(x, n)
    ensures Weights(x, d, n, k) == AddRow(Weights(x, d, n, k - 1), x[k - 1], d[k - 1])
  {
    var w := Weights(x, d, n, k - 1);
    var u, v := Weights(x, d, n, k), AddRow(w, x[k - 1], d[k - 1]);
    forall j | 0 <= j < n ensures u[j] == v[j] {
      AddRowAt(w, x[k - 1], d[k - 1], j);
    }
  }

  lemma {:induction false} WeightAtUpdate(x: seq<seq<Feature>>, d: seq<real>, i: nat, b: real, j: nat, k: nat)
    requires k <= |x| == |d| && i < |d|
    ensures WeightAt(x, d[i := b], j, k)
         == WeightAt(x, d, j, k) + if i < k then Mul(b - d[i], Coef(x[i], j)) else 0.0
  {
    if k > 0 {
      WeightAtUpdate(x, d, i, b, j, k - 1);
      Difference(b, d[i], Coef(x[i], j));
    }
  }

  lemma Difference(b: real, a: real, c: real)
    ensures Mul(b, c) == Mul(a, c) + Mul(b - a, c)
  {
  }

  /** Changing one multiplier and adding the difference times its row keep the sum. */
  lemma WeightsUpdate(x: seq<seq<Feature>>, d: seq<real>, n: nat, i: nat, b: real)
    requires i < |x| == |d| && Rows(x, n)
    ensures Weights(x, d[i := b], n, |x|) == AddRow(Weights(x, d, n, |x|), x[i], b - d[i])
  {
    var w := Weights(x, d, n, |x|);
    var u, v := Weights(x, d[i := b], n, |x|), AddRow(w, x[i], b - d[i]);
    forall j | 0 <= j < n ensures u[j] == v[j] {
      AddRowAt(w, x[i], b - d[i], j);
      WeightAtUpdate(x, d, i, b, j, |x|);
    }
  }

  // ---------- quadratic forms ----------

  predicate Square(t: seq<seq<real>>, l: nat) {
    |t| == l && forall i :: 0 <= i < l ==> |t[i]| == l
  }

  /** The sum of the leading `k` by `k` block of a matrix. */
  function Block(t: seq<seq<real>>, m: nat, k: nat): real
    requires m <= |t| && forall i :: 0 <= i < m ==> k <= |t[i]|
  {
    if m == 0 then 0.0 else Block(t, m - 1, k) + Total(t[m - 1][..k])
  }

  lemma TotalPrefix(s: seq<real>, m: nat, k: nat)
    requires m + 1 == k <= |s|
    ensures Total(s[..k]) == Total(s[..m]) + s[m]
  {
    assert s[..k][..m] == s[..m];
  }

  /** In a symmetric matrix one more column adds as much as one more row. */
  lemma {:induction false} BlockColumn(t: seq<seq<real>>, m: nat, k: nat)
    requires Square(t, |t|) && m <= k < |t|
    requires forall i :: 0 <= i < |t| ==> t[i][k] == t[k][i]
    ensures Block(t, m, k + 1) == Block(t, m, k) + Total(t[k][..m])
  {
    if m > 0 {
      BlockColumn(t, m - 1, k);
      TotalPrefix(t[m - 1], k, k + 1);
      TotalPrefix(t[k], m - 1, m);
    }
  }

  lemma {:induction false} TotalScale(r: seq<real>, a: real, s: seq<real>)
    requires |r| == |s| && forall j :: 0 <= j < |r| ==> r[j] == Mul(a, s[j])
    ensures Total(r) == Mul(a, Total(s))
  {
    if r != [] {
      var m := |r| - 1;
      TotalScale(r[..m], a, s[..m]);
      Factor(a, Total(s[..m]), s[m], Total(s));
    }
  }

  /** A matrix whose leading blocks are squared lengths, up to a diagonal. */
  lemma {:induction false} BlockIsNorm(t: seq<seq<real>>, norm: seq<real>, e: seq<real>, k: nat)
    requires Square(t, |e|) && |norm| == |e| + 1 && k <= |e|
    requires forall i, j :: 0 <= i < |e| && 0 <= j < |e| ==> t[i][j] == t[j][i]
    requires forall m :: 0 <= m < |e| ==> norm[m + 1] == norm[m] + 2.0 * Total(t[m][..m]) + t[m][m] - e[m]
    ensures Block(t, k, k) == norm[k] - norm[0] + Total(e[..k])
  {
    if k > 0 {
      var m := k - 1;
      BlockIsNorm(t, norm, e, m);
      BlockColumn(t, m, m);
      TotalPrefix(t[m], m, k);
      TotalPrefix(e, m, k);
      assert norm[m + 1] == norm[m] + 2.0 * Total(t[m][..m]) + t[m][m] - e[m];
    }
  }

  lemma DotAddRow(w: seq<real>, r: seq<Feature>, d: real, row: seq<Feature>, n: nat)
    requires |w| == n && ValidRow(r, n) && ValidRow(row, n)
    ensures Dot(AddRow(w, r, d), row) == Dot(w, row) + Mul(d, Inner(Dense(r, n), Dense(row, n)))
  {
    var u := AddRow(w, r, d);
    AddRowIs(w, r, d, n);
    DotIsInner(w, row, n);
    DotIsInner(u, row, n);
    InnerLinear(u, w, d, Dense(r, n), Dense(row, n));
  }

  lemma {:induction false} DotIsTotal(x: seq<seq<Feature>>, d: seq<real>, n: nat, z: seq<Feature>, r: seq<real>, m: nat)
    requires |x| == |d| && Rows(x, n) && ValidRow(z, n) && m <= |r| <= |x|
    requires forall i :: 0 <= i < |r| ==> r[i] == Mul(d[i], Inner(Dense(x[i], n), Dense(z, n)))
    ensures Dot(Weights(x, d, n, m), z) == Total(r[..m])
  {
    if m == 0 {
      var w := Weights(x, d, n, 0);
      DotIsInner(w, z, n);
      TotalZero(Times(w, Dense(z, n)));
    } else {
      DotIsTotal(x, d, n, z, r, m - 1);
      TotalPrefix(r, m - 1, m);
      WeightsStep(x, d, n, m);
      DotAddRow(Weights(x, d, n, m - 1), x[m - 1], d[m - 1], z, n);
    }
  }

  // ---------- the dual objective ----------

  function Entry(p: Problem, c: Setting, i: nat, k: nat): real
    requires i < |p.x| == |p.y| && k < |p.x| && Positive(c)
  {
    Mul(Mul(Signs(p)[i], Signs(p)[k]), Inner(Dense(p.x[i], p.n), Dense(p.x[k], p.n)))
      + if i == k then Diagonal(p, c)[i] else 0.0
  }

  /** The terms of alpha' (Q + D) alpha. */
  function Terms(p: Problem, c: Setting, alpha: seq<real>): (t: seq<seq<real>>)
    requires |p.x| == |p.y| == |alpha| && Positive(c)
    ensures Square(t, |alpha|)
    ensures forall i, k :: 0 <= i < |alpha| && 0 <= k < |alpha| ==>
      t[i][k] == Mul(Mul(alpha[i], alpha[k]), Entry(p, c, i, k))
  {
    seq(|alpha|, i requires 0 <= i < |alpha| =>
      seq(|alpha|, k requires 0 <= k < |alpha| => Mul(Mul(alpha[i], alpha[k]), Entry(p, c, i, k))))
  }

  /** One half of alpha' (Q + D) alpha, less the sum of alpha. */
  function Dual(p: Problem, c: Setting, alpha: seq<real>): real
    requires |p.x| == |p.y| == |alpha| && Positive(c)
  {
    0.5 * Block(Terms(p, c, alpha), |alpha|, |alpha|) - Total(alpha)
  }

  /** The multipliers that the weight vector sums. */
  function Signed(p: Problem, alpha: seq<real>): (d: seq<real>)
    requires |p.y| == |alpha|
  {
    Times(alpha, Signs(p))
  }

  /** The terms that the diagonal adds. */
  function Weighted(alpha: seq<real>, e: seq<real>): (r: seq<real>)
    requires |alpha| == |e|
    ensures |r| == |alpha| && forall i :: 0 <= i < |r| ==> r[i] == Mul(alpha[i], Mul(alpha[i], e[i]))
  {
    seq(|alpha|, i requires 0 <= i < |alpha| => Mul(alpha[i], Mul(alpha[i], e[i])))
  }

  lemma SignsOut(a: real, b: real, s: real, t: real, q: real)
    ensures Mul(Mul(a, b), Mul(Mul(s, t), q)) == Mul(Mul(b, a), Mul(Mul(t, s), q))
    ensures Mul(Mul(a, b), Mul(Mul(s, t), q)) == Mul(Mul(a, s), Mul(Mul(b, t), q))
  {
    assert a * b * (s * t * q) == (a * s) * (b * t) * q;
  }

  lemma OffDiagonal(p: Problem, c: Setting, alpha: seq<real>, i: nat, k: nat)
    requires |p.x| == |p.y| == |alpha| && Positive(c) && i < k < |alpha|
    ensures Terms(p, c, alpha)[i][k] == Terms(p, c, alpha)[k][i]
    ensures Terms(p, c, alpha)[k][i]
         == Mul(Signed(p, alpha)[k], Mul(Signed(p, alpha)[i], Inner(Dense(p.x[i], p.n), Dense(p.x[k], p.n))))
  {
    InnerSymmetric(Dense(p.x[i], p.n), Dense(p.x[k], p.n));
    SignsOut(alpha[k], alpha[i], Signs(p)[k], Signs(p)[i], Inner(Dense(p.x[i], p.n), Dense(p.x[k], p.n)));
  }

  lemma OnDiagonal(p: Problem, c: Setting, alpha: seq<real>, k: nat)
    requires Valid(p) && |p.x| == |alpha| && Positive(c) && k < |alpha|
    ensures Terms(p, c, alpha)[k][k]
         == Mul(Signed(p, alpha)[k], Mul(Signed(p, alpha)[k], SquareSum(p.x[k]))) + Weighted(alpha, Diagonal(p, c))[k]
  {
    SquareSumIsInner(p.x[k], p.n);
    SignsCancel(alpha[k], Signs(p)[k], SquareSum(p.x[k]), Diagonal(p, c)[k], Entry(p, c, k, k));
  }

  lemma SignsCancel(a: real, s: real, q: real, e: real, entry: real)
    requires (s == 1.0 || s == -1.0) && entry == Mul(Mul(s, s), q) + e
    ensures Mul(Mul(a, a), entry) == Mul(Mul(a, s), Mul(Mul(a, s), q)) + Mul(a, Mul(a, e))
  {
    assert s * s == 1.0;
    assert a * s * (a * s * q) == a * a * q;
    assert a * a * (q + e) == a * a * q + a * (a * e);
  }

  /** One more example adds its row, its column and its own square to the squared length. */
  lemma NormStep(p: Problem, c: Setting, alpha: seq<real>, m: nat, k: nat)
    requires Valid(p) && |p.x| == |alpha| && Positive(c) && m + 1 == k <= |alpha|
    ensures var t, d := Terms(p, c, alpha), Signed(p, alpha);
      Inner(Weights(p.x, d, p.n, k), Weights(p.x, d, p.n, k)) == Inner(Weights(p.x, d, p.n, m), Weights(p.x, d, p.n, m))
        + 2.0 * Total(t[m][..m]) + t[m][m] - Weighted(alpha, Diagonal(p, c))[m]
  {
    hide Mul, WeightAt, Coef, Entry;
    var t, d := Terms(p, c, alpha), Signed(p, alpha);
    var w := Weights(p.x, d, p.n, m);
    var r := seq(m, i requires 0 <= i < m => Mul(d[i], Inner(Dense(p.x[i], p.n), Dense(p.x[m], p.n))));
    RowIsDot(p, c, alpha, m, r);
    WeightsStep(p.x, d, p.n, k);
    NormAddRow(w, p.x[m], d[m], p.n);
    OnDiagonal(p, c, alpha, m);
  }

  lemma RowIsDot(p: Problem, c: Setting, alpha: seq<real>, m: nat, r: seq<real>)
    requires Valid(p) && |p.x| == |alpha| && Positive(c) && m == |r| < |alpha|
    requires forall i :: 0 <= i < m ==> r[i] == Mul(Signed(p, alpha)[i], Inner(Dense(p.x[i], p.n), Dense(p.x[m], p.n)))
    ensures Total(Terms(p, c, alpha)[m][..m])
      == Mul(Signed(p, alpha)[m], Dot(Weights(p.x, Signed(p, alpha), p.n, m), p.x[m]))
  {
    var t, d := Terms(p, c, alpha), Signed(p, alpha);
    forall i | 0 <= i < m ensures t[m][..m][i] == Mul(d[m], r[i]) {
      OffDiagonal(p, c, alpha, i, m);
    }
    TotalScale(t[m][..m], d[m], r);
    DotIsTotal(p.x, d, p.n, p.x[m], r, m);
    assert r[..m] == r;
  }

  /** The squared lengths of the partial weight vectors. */
  lemma Norms(p: Problem, c: Setting, alpha: seq<real>) returns (norm: seq<real>)
    requires Valid(p) && |p.x| == |alpha| && Positive(c)
    ensures |norm| == |alpha| + 1 && norm[0] == 0.0
    ensures var w := Weights(p.x, Signed(p, alpha), p.n, |alpha|); norm[|alpha|] == Inner(w, w)
    ensures forall m :: 0 <= m < |alpha| ==>
      norm[m + 1] == norm[m] + 2.0 * Total(Terms(p, c, alpha)[m][..m]) + Terms(p, c, alpha)[m][m]
                             - Weighted(alpha, Diagonal(p, c))[m]
  {
    var d, l := Signed(p, alpha), |alpha|;
    norm := seq(l + 1, k requires 0 <= k <= l => Inner(Weights(p.x, d, p.n, k), Weights(p.x, d, p.n, k)));
    TotalZero(Times(Weights(p.x, d, p.n, 0), Weights(p.x, d, p.n, 0)));
    forall m | 0 <= m < l
      ensures norm[m + 1]
        == norm[m] + 2.0 * Total(Terms(p, c, alpha)[m][..m]) + Terms(p, c, alpha)[m][m]
          - Weighted(alpha, Diagonal(p, c))[m]
    {
      NormStep(p, c, alpha, m, m + 1);
    }
  }

  /** The quadratic form in terms of the weight vector. */
  lemma FormIsNorm(p: Problem, c: Setting, alpha: seq<real>)
    requires Valid(p) && |p.x| == |alpha| && Positive(c)
    ensures var w := Weights(p.x, Signed(p, alpha), p.n, |alpha|);
      Block(Terms(p, c, alpha), |alpha|, |alpha|) == Inner(w, w) + Total(Weighted(alpha, Diagonal(p, c)))
  {
    hide Mul, Entry, WeightAt, Signs, Total, Inner, Block, Weights;
    var t, e, l := Terms(p, c, alpha), Weighted(alpha, Diagonal(p, c)), |alpha|;
    TermsSymmetric(p, c, alpha);
    var norm := Norms(p, c, alpha);
    BlockIsNorm(t, norm, e, l);
    assert e[..l] == e;
  }

  /** The dual objective in terms of the weight vector. */
  lemma DualIsNorm(p: Problem, c: Setting, alpha: seq<real>)
    requires Valid(p) && |p.x| == |alpha| && Positive(c)
    ensures var w := Weights(p.x, Signed(p, alpha), p.n, |alpha|);
      Dual(p, c, alpha) == 0.5 * (Inner(w, w) + Total(Weighted(alpha, Diagonal(p, c)))) - Total(alpha)
  {
    hide Terms, Block, Total, Inner, Weights;
    FormIsNorm(p, c, alpha);
  }

  lemma TermsSymmetric(p: Problem, c: Setting, alpha: seq<real>)
    requires |p.x| == |p.y| == |alpha| && Positive(c)
    ensures forall i, k :: 0 <= i < |alpha| && 0 <= k < |alpha| ==> Terms(p, c, alpha)[i][k] == Terms(p, c, alpha)[k][i]
  {
    var t, l := Terms(p, c, alpha), |alpha|;
    forall i, k | 0 <= i < l && 0 <= k < l ensures t[i][k] == t[k][i] {
      if i < k { OffDiagonal(p, c, alpha, i, k); } else if k < i { OffDiagonal(p, c, alpha, k, i); }
    }
  }

  // ---------- one coordinate ----------

  predicate InBox(a: real, bound: Ext) {
    a >= 0.0 && Below(a, bound)
  }

  predicate Feasible(p: Problem, c: Setting, alpha: seq<real>)
    requires Positive(c)
  {
    |alpha| == |p.x| == |p.y| && forall i :: 0 <= i < |alpha| ==> InBox(alpha[i], Bounds(p, c)[i])
  }

  /** The weights are the sum of the multipliers times the signed examples. */
  predicate InStep(p: Problem, alpha: seq<real>, w: seq<real>) {
    && |p.x| == |p.y| == |alpha| && |w| == p.n
    && forall j :: 0 <= j < p.n ==> w[j] == WeightAt(p.x, Signed(p, alpha), j, |alpha|)
  }

  /** The partial derivative of the dual objective, from the weights. */
  function Gradient(p: Problem, c: Setting, alpha: seq<real>, w: seq<real>, i: nat): real
    requires Valid(p) && i < |alpha| == |p.x| && |w| == p.n && Positive(c)
  {
    Mul(Dot(w, p.x[i]), Signs(p)[i]) - 1.0 + Mul(alpha[i], Diagonal(p, c)[i])
  }

  function Curvature(p: Problem, c: Setting, i: nat): (q: real)
    requires i < |p.x| == |p.y| && Positive(c)
    ensures q >= 0.0
  {
    Diagonal(p, c)[i] + SquareSum(p.x[i])
  }

  /** Moving one multiplier and the weights with it keeps the two in step. */
  lemma InStepUpdate(p: Problem, alpha: seq<real>, w: seq<real>, i: nat, b: real)
    requires Valid(p) && InStep(p, alpha, w) && i < |alpha|
    ensures InStep(p, alpha[i := b], AddRow(w, p.x[i], Mul(b - alpha[i], Signs(p)[i])))
  {
    var y, d := Signs(p)[i], Signed(p, alpha);
    Difference(b, alpha[i], y);
    assert w == Weights(p.x, d, p.n, |alpha|);
    assert Signed(p, alpha[i := b]) == d[i := Mul(b, y)];
    WeightsUpdate(p.x, d, p.n, i, Mul(b, y));
  }

  /** What the dual objective is made of when the weights are in step. */
  lemma DualInStep(p: Problem, c: Setting, alpha: seq<real>, w: seq<real>)
    requires Valid(p) && InStep(p, alpha, w) && Positive(c)
    ensures Dual(p, c, alpha) == Value(p, c, alpha, w)
  {
    assert w == Weights(p.x, Signed(p, alpha), p.n, |alpha|);
    DualIsNorm(p, c, alpha);
  }

  lemma WeightedUpdate(alpha: seq<real>, e: seq<real>, i: nat, b: real)
    requires i < |alpha| == |e|
    ensures Total(Weighted(alpha[i := b], e))
         == Total(Weighted(alpha, e)) - Mul(alpha[i], Mul(alpha[i], e[i])) + Mul(b, Mul(b, e[i]))
  {
    assert Weighted(alpha[i := b], e) == Weighted(alpha, e)[i := Mul(b, Mul(b, e[i]))];
    TotalUpdate(Weighted(alpha, e), i, Mul(b, Mul(b, e[i])));
  }

  /** The dual objective, computed from both vectors. */
  function Value(p: Problem, c: Setting, alpha: seq<real>, w: seq<real>): real
    requires |alpha| == |p.x| == |p.y| && Positive(c)
  {
    0.5 * (Inner(w, w) + Total(Weighted(alpha, Diagonal(p, c)))) - Total(alpha)
  }

  lemma ValueAlong(p: Problem, c: Setting, alpha: seq<real>, w: seq<real>, i: nat, b: real)
    requires Valid(p) && i < |alpha| == |p.x| && |w| == p.n && Positive(c)
    ensures Value(p, c, alpha[i := b], AddRow(w, p.x[i], Mul(b - alpha[i], Signs(p)[i])))
         == Value(p, c, alpha, w) + Parabola(b - alpha[i], Gradient(p, c, alpha, w, i), Curvature(p, c, i))
  {
    hide Mul, Parabola, Total, Inner, Dot, SquareSum, AddRow, Diagonal, Signs;
    var a, y := alpha[i], Signs(p)[i];
    NormAddRow(w, p.x[i], Mul(b - a, y), p.n);
    TotalUpdate(alpha, i, b);
    WeightedUpdate(alpha, Diagonal(p, c), i, b);
    var v := AddRow(w, p.x[i], Mul(b - a, y));
    ParabolaTerms(a, b, y, Diagonal(p, c)[i], Dot(w, p.x[i]), SquareSum(p.x[i]), Mul(b - a, y),
                  Gradient(p, c, alpha, w, i), Curvature(p, c, i),
                  Inner(w, w), Inner(v, v), Total(Weighted(alpha, Diagonal(p, c))),
                  Total(Weighted(alpha[i := b], Diagonal(p, c))));
  }

  /** Along one coordinate the dual objective is a parabola. */
  lemma DualAlong(p: Problem, c: Setting, alpha: seq<real>, w: seq<real>, i: nat, b: real)
    requires Valid(p) && InStep(p, alpha, w) && Positive(c) && i < |alpha|
    ensures Dual(p, c, alpha[i := b])
         == Dual(p, c, alpha) + Parabola(b - alpha[i], Gradient(p, c, alpha, w, i), Curvature(p, c, i))
  {
    InStepUpdate(p, alpha, w, i, b);
    DualInStep(p, c, alpha, w);
    DualInStep(p, c, alpha[i := b], AddRow(w, p.x[i], Mul(b - alpha[i], Signs(p)[i])));
    ValueAlong(p, c, alpha, w, i, b);
  }

  function Parabola(d: real, g: real, q: real): real {
    d * g + 0.5 * q * d * d
  }

  lemma ParabolaTerms(a: real, b: real, y: real, e: real, t: real, q: real, d: real, g: real, k: real,
                      n0: real, n1: real, s0: real, s1: real)
    requires (y == 1.0 || y == -1.0) && d == Mul(b - a, y) && g == Mul(t, y) - 1.0 + Mul(a, e) && k == e + q
    requires n1 == n0 + 2.0 * Mul(d, t) + Mul(d, Mul(d, q))
    requires s1 == s0 - Mul(a, Mul(a, e)) + Mul(b, Mul(b, e))
    ensures 0.5 * (n1 + s1) == 0.5 * (n0 + s0) + Parabola(b - a, g, k) + (b - a)
  {
    var z := b - a;
    assert z * y * (z * y * q) == z * z * q;
    assert b * (b * e) - a * (a * e) == 2.0 * z * (a * e) + z * z * e;
    assert 0.5 * (e + q) * z * z == 0.5 * (z * z * q) + 0.5 * (z * z * e);
    assert z * (t * y - 1.0 + a * e) == z * y * t - z + z * (a * e);
  }

  /** The projected Newton step, with the division by a zero curvature as in IEEE arithmetic. */
  function NewAlpha(a: real, g: real, q: real, bound: Ext): real
    requires q >= 0.0 && (q == 0.0 ==> bound.Fin?) && !bound.NegInf?
  {
    if q == 0.0 then if g > 0.0 then 0.0 else bound.r
    else
      var t := a - g / q;
      var u := if t > 0.0 then t else 0.0;
      if bound.Fin? && bound.r < u then bound.r else u
  }

  /** No value in the box does better than the step. */
  lemma NewAlphaIsBest(a: real, g: real, q: real, bound: Ext, b: real)
    requires q >= 0.0 && (q == 0.0 ==> bound.Fin?) && !bound.NegInf? && (bound.Fin? ==> bound.r >= 0.0)
    requires InBox(a, bound) && InBox(b, bound)
    ensures var n := NewAlpha(a, g, q, bound); InBox(n, bound) && Parabola(n - a, g, q) <= Parabola(b - a, g, q)
  {
    hide Parabola;
    var n := NewAlpha(a, g, q, bound);
    if q == 0.0 {
      FlatStep(a, g, n, b);
    } else {
      var u := a - g / q;
      Quotient(a, g, q, u);
      Completed(a, u, q, n, g);
      Completed(a, u, q, b, g);
      Closer(n - u, b - u, q);
    }
  }

  /** The step gains at least half the curvature times the square of its length. */
  lemma NewAlphaGains(a: real, g: real, q: real, bound: Ext)
    requires q >= 0.0 && (q == 0.0 ==> bound.Fin?) && !bound.NegInf? && InBox(a, bound)
    ensures var n := NewAlpha(a, g, q, bound); Parabola(n - a, g, q) <= -0.5 * q * ((n - a) * (n - a))
  {
    hide Parabola;
    var n := NewAlpha(a, g, q, bound);
    if q == 0.0 {
      FlatStep(a, g, n, a);
      FlatNone(a, g);
    } else {
      var u := a - g / q;
      Quotient(a, g, q, u);
      Completed(a, u, q, n, g);
      Between(a, n, u, q);
    }
  }

  lemma FlatNone(a: real, g: real)
    ensures Parabola(a - a, g, 0.0) == 0.0
  {
  }

  lemma Between(a: real, n: real, u: real, q: real)
    requires q >= 0.0 && (a <= n <= u || u <= n <= a)
    ensures 0.5 * q * ((n - u) * (n - u)) - 0.5 * q * ((a - u) * (a - u)) <= -0.5 * q * ((n - a) * (n - a))
  {
    assert (n - u) * (n - a) <= 0.0;
    assert (n - u) * (n - u) - (a - u) * (a - u) + (n - a) * (n - a) == 2.0 * ((n - u) * (n - a));
    assert q * (2.0 * ((n - u) * (n - a))) <= 0.0;
  }

  lemma Quotient(a: real, g: real, q: real, u: real)
    requires q > 0.0 && u == a - g / q
    ensures g == q * (a - u)
  {
  }

  lemma FlatStep(a: real, g: real, n: real, b: real)
    requires if g > 0.0 then n <= b else b <= n
    ensures Parabola(n - a, g, 0.0) <= Parabola(b - a, g, 0.0)
  {
    assert g > 0.0 ==> (b - n) * g >= 0.0;
    assert g <= 0.0 ==> (n - b) * (0.0 - g) >= 0.0;
  }

  lemma Closer(s: real, t: real, q: real)
    requires q >= 0.0 && ((0.0 <= s <= t) || (t <= s <= 0.0))
    ensures 0.5 * q * (s * s) <= 0.5 * q * (t * t)
  {
    assert s * s <= t * t;
    assert q * (t * t - s * s) >= 0.0;
  }

  lemma Completed(a: real, u: real, q: real, b: real, g: real)
    requires g == q * (a - u)
    ensures Parabola(b - a, g, q) == 0.5 * q * ((b - u) * (b - u)) - 0.5 * q * ((a - u) * (a - u))
  {
  }

  // ---------- coordinate steps ----------

  /** No feasible value of multiplier `i` lowers the objective. */
  ghost predicate Best(p: Problem, c: Setting, alpha: seq<real>, i: nat)
    requires Positive(c) && Feasible(p, c, alpha) && i < |alpha|
  {
    forall b: real :: InBox(b, Bounds(p, c)[i]) ==> Dual(p, c, alpha) <= Dual(p, c, alpha[i := b])
  }

  /** `beta` is `alpha` with one multiplier set to its best feasible value. */
  ghost predicate Move(p: Problem, c: Setting, alpha: seq<real>, beta: seq<real>)
    requires Positive(c)
  {
    && Feasible(p, c, alpha) && Feasible(p, c, beta)
    && exists i: nat :: i < |alpha| && beta == alpha[i := beta[i]] && Best(p, c, beta, i)
  }

  lemma MoveLowers(p: Problem, c: Setting, alpha: seq<real>, beta: seq<real>)
    requires Positive(c) && Move(p, c, alpha, beta)
    ensures Dual(p, c, beta) <= Dual(p, c, alpha)
  {
    hide Dual;
    var i: nat :| i < |alpha| && beta == alpha[i := beta[i]] && Best(p, c, beta, i);
    assert InBox(alpha[i], Bounds(p, c)[i]);
    assert beta[i := alpha[i]] == alpha;
  }

  /** The projected step on one multiplier is a move. */
  lemma StepIsMove(p: Problem, c: Setting, alpha: seq<real>, w: seq<real>, i: nat, n: real)
    requires Valid(p) && Positive(c) && InStep(p, alpha, w) && Feasible(p, c, alpha) && i < |alpha|
    requires var q, bound := Curvature(p, c, i), Bounds(p, c)[i];
      (q == 0.0 ==> bound.Fin?) && n == NewAlpha(alpha[i], Gradient(p, c, alpha, w, i), q, bound)
    ensures Move(p, c, alpha, alpha[i := n]) && Best(p, c, alpha[i := n], i)
  {
    hide Dual, Gradient, Curvature, NewAlpha, WeightAt, Parabola;
    var beta := alpha[i := n];
    var g, q, bound := Gradient(p, c, alpha, w, i), Curvature(p, c, i), Bounds(p, c)[i];
    NewAlphaIsBest(alpha[i], g, q, bound, alpha[i]);
    DualAlong(p, c, alpha, w, i, n);
    forall b: real | InBox(b, bound) ensures Dual(p, c, beta) <= Dual(p, c, beta[i := b]) {
      NewAlphaIsBest(alpha[i], g, q, bound, b);
      DualAlong(p, c, alpha, w, i, b);
      assert beta[i := b] == alpha[i := b];
    }
    assert beta == alpha[i := beta[i]];
  }

  /** A multiplier whose projected gradient is zero is already best. */
  lemma StuckIsBest(p: Problem, c: Setting, alpha: seq<real>, w: seq<real>, i: nat)
    requires Valid(p) && Positive(c) && InStep(p, alpha, w) && Feasible(p, c, alpha) && i < |alpha|
    requires Projected(alpha[i], Gradient(p, c, alpha, w, i), Bounds(p, c)[i]) == 0.0
    ensures Best(p, c, alpha, i)
  {
    hide Dual, Gradient, WeightAt;
    var a, g, q := alpha[i], Gradient(p, c, alpha, w, i), Curvature(p, c, i);
    forall b: real | InBox(b, Bounds(p, c)[i]) ensures Dual(p, c, alpha) <= Dual(p, c, alpha[i := b]) {
      DualAlong(p, c, alpha, w, i, b);
      SquaresUp(b - a, q);
      if g != 0.0 { SignOfProduct(b - a, g); }
    }
  }

  lemma SquaresUp(d: real, q: real)
    requires q >= 0.0
    ensures 0.5 * q * d * d >= 0.0
  {
    assert d * d >= 0.0;
    assert q * (d * d) >= 0.0;
  }

  lemma SignOfProduct(d: real, g: real)
    ensures (d >= 0.0 && g >= 0.0) || (d <= 0.0 && g <= 0.0) ==> d * g >= 0.0
  {
  }

  /** The projected gradient. */
  function Projected(a: real, g: real, bound: Ext): real {
    if a == 0.0 then if g < 0.0 then g else 0.0
    else if bound == Fin(a) then if g > 0.0 then g else 0.0
    else g
  }

  // ---------- the global minimum ----------

  /** No feasible point has a lower objective. */
  ghost predicate Optimal(p: Problem, c: Setting, alpha: seq<real>)
    requires Positive(c) && Feasible(p, c, alpha)
  {
    forall beta :: Feasible(p, c, beta) ==> Dual(p, c, alpha) <= Dual(p, c, beta)
  }

  /** A short enough part of a step against the gradient would gain. */
  lemma ShortStep(d: real, g: real, q: real) returns (t: real)
    requires d * g < 0.0 && q >= 0.0
    ensures 0.0 < t <= 1.0 && Parabola(t * d, g, q) < 0.0
  {
    var a, b := d * g, q * (d * d);
    assert b >= 0.0 by { assert d * d >= 0.0; }
    if b <= -a {
      t := 1.0;
      assert Parabola(d, g, q) == a + 0.5 * b;
    } else {
      t := -a / b;
      assert t * b == -a;
      ShortGain(d, g, q, t, a, b);
    }
  }

  lemma ShortGain(d: real, g: real, q: real, t: real, a: real, b: real)
    requires a == d * g && b == q * (d * d) && t * b == -a && t > 0.0 && a < 0.0
    ensures Parabola(t * d, g, q) < 0.0
  {
    assert Parabola(t * d, g, q) == t * a + 0.5 * (t * (t * b));
    assert t * (t * b) == t * -a;
    assert t * a < 0.0;
  }

  /** Where a multiplier is best, its gradient does not point against any feasible change. */
  lemma GradientSign(p: Problem, c: Setting, alpha: seq<real>, w: seq<real>, i: nat, b: real, g: real)
    requires Valid(p) && Positive(c) && InStep(p, alpha, w) && Feasible(p, c, alpha) && i < |alpha|
    requires Best(p, c, alpha, i) && InBox(b, Bounds(p, c)[i]) && g == Gradient(p, c, alpha, w, i)
    ensures (b - alpha[i]) * g >= 0.0
  {
    hide Dual, Gradient, WeightAt, Parabola, Curvature, Best, InStep;
    var d := b - alpha[i];
    if d * g < 0.0 {
      var m, e := Gaining(alpha[i], b, d, g, Curvature(p, c, i), Bounds(p, c)[i]);
      assert m - alpha[i] == e;
      DualAlong(p, c, alpha, w, i, m);
      BestHere(p, c, alpha, i, m);
    }
  }

  /** A value of the box that gains, if `b` lies on the side that the gradient falls to. */
  lemma Gaining(a: real, b: real, d: real, g: real, q: real, bound: Ext) returns (m: real, e: real)
    requires d == b - a && d * g < 0.0 && q >= 0.0 && InBox(a, bound) && InBox(b, bound)
    ensures InBox(m, bound) && e == m - a && Parabola(e, g, q) < 0.0
  {
    hide Parabola;
    var t := ShortStep(d, g, q);
    e := t * d;
    m := a + e;
    PartWay(a, b, d, t, e, m, bound);
  }

  lemma BestHere(p: Problem, c: Setting, alpha: seq<real>, i: nat, b: real)
    requires Positive(c) && Feasible(p, c, alpha) && i < |alpha| && Best(p, c, alpha, i) && InBox(b, Bounds(p, c)[i])
    ensures Dual(p, c, alpha) <= Dual(p, c, alpha[i := b])
  {
    hide Dual;
  }

  lemma PartWay(a: real, b: real, d: real, t: real, e: real, m: real, bound: Ext)
    requires InBox(a, bound) && InBox(b, bound) && 0.0 <= t <= 1.0 && d == b - a && e == t * d && m == a + e
    ensures InBox(m, bound)
  {
    var u := 1.0 - t;
    assert e + u * d == d;
    SameSign(t, d);
    SameSign(u, d);
  }

  lemma SameSign(t: real, d: real)
    requires t >= 0.0
    ensures (d >= 0.0 ==> t * d >= 0.0) && (d <= 0.0 ==> t * d <= 0.0)
  {
  }

  /** The product of the weights with a sum of rows. */
  lemma {:induction false} InnerWeights(x: seq<seq<Feature>>, d: seq<real>, w: seq<real>, n: nat, r: seq<real>, k: nat)
    requires k <= |x| == |d| == |r| && |w| == n && Rows(x, n)
    requires forall i :: 0 <= i < |x| ==> r[i] == Mul(d[i], Dot(w, x[i]))
    ensures Inner(w, Weights(x, d, n, k)) == Total(r[..k])
  {
    var v := Weights(x, d, n, k);
    if k == 0 {
      TotalZero(Times(w, v));
    } else {
      var u := Weights(x, d, n, k - 1);
      InnerWeights(x, d, w, n, r, k - 1);
      TotalPrefix(r, k - 1, k);
      WeightsStep(x, d, n, k);
      AddRowIs(u, x[k - 1], d[k - 1], n);
      InnerLinear(v, u, d[k - 1], Dense(x[k - 1], n), w);
      InnerSymmetric(v, w);
      InnerSymmetric(u, w);
      InnerSymmetric(Dense(x[k - 1], n), w);
      DotIsInner(w, x[k - 1], n);
    }
  }

  /** The changes of the multipliers from one point to another. */
  function Minus(b: seq<real>, a: seq<real>): (d: seq<real>)
    requires |a| == |b|
    ensures |d| == |a| && forall i :: 0 <= i < |d| ==> d[i] == b[i] - a[i]
  {
    seq(|a|, i requires 0 <= i < |a| => b[i] - a[i])
  }

  /** What each change contributes to first order. */
  ghost function Gains(p: Problem, c: Setting, alpha: seq<real>, w: seq<real>, beta: seq<real>): (r: seq<real>)
    requires Valid(p) && Positive(c) && |alpha| == |beta| == |p.x| && |w| == p.n
    ensures |r| == |alpha| && forall i :: 0 <= i < |r| ==> r[i] == (beta[i] - alpha[i]) * Gradient(p, c, alpha, w, i)
  {
    seq(|alpha|, i requires 0 <= i < |alpha| => (beta[i] - alpha[i]) * Gradient(p, c, alpha, w, i))
  }

  lemma {:induction false} TotalNonNegative(s: seq<real>)
    requires forall i :: 0 <= i < |s| ==> s[i] >= 0.0
    ensures Total(s) >= 0.0
  {
    if s != [] { TotalNonNegative(s[..|s| - 1]); }
  }

  lemma {:induction false} TotalAdds(r: seq<real>, s: seq<real>, t: seq<real>)
    requires |r| == |s| == |t| && forall i :: 0 <= i < |r| ==> r[i] == s[i] + t[i]
    ensures Total(r) == Total(s) + Total(t)
  {
    if r != [] { TotalAdds(r[..|r| - 1], s[..|r| - 1], t[..|r| - 1]); }
  }

  /** The weights of a sum of multipliers are the sum of the weights. */
  lemma {:induction false} WeightAtAdds(x: seq<seq<Feature>>, d: seq<real>, e: seq<real>, f: seq<real>, j: nat, k: nat)
    requires k <= |x| == |d| == |e| == |f| && forall i :: 0 <= i < |x| ==> f[i] == d[i] + e[i]
    ensures WeightAt(x, f, j, k) == WeightAt(x, d, j, k) + WeightAt(x, e, j, k)
  {
    if k > 0 {
      WeightAtAdds(x, d, e, f, j, k - 1);
      SumTimes(d[k - 1], e[k - 1], Coef(x[k - 1], j), f[k - 1]);
    }
  }

  lemma SumTimes(a: real, b: real, c: real, s: real)
    requires s == a + b
    ensures Mul(s, c) == Mul(a, c) + Mul(b, c)
  {
  }

  /** The signed changes. */
  lemma SignedAdds(p: Problem, alpha: seq<real>, beta: seq<real>, i: nat)
    requires |p.y| == |alpha| == |beta| && i < |alpha|
    ensures Signed(p, beta)[i] == Signed(p, alpha)[i] + Signed(p, Minus(beta, alpha))[i]
  {
    SumTimes(alpha[i], beta[i] - alpha[i], Signs(p)[i], beta[i]);
  }

  /** The weights of the other point. */
  lemma WeightsMove(p: Problem, alpha: seq<real>, w: seq<real>, beta: seq<real>) returns (v: seq<real>, u: seq<real>)
    requires Valid(p) && InStep(p, alpha, w) && |beta| == |alpha|
    ensures v == Weights(p.x, Signed(p, Minus(beta, alpha)), p.n, |p.x|) && InStep(p, beta, u)
    ensures |u| == |v| == |w| && forall j :: 0 <= j < |w| ==> u[j] == w[j] + Mul(1.0, v[j])
  {
    var d, e, f := Signed(p, alpha), Signed(p, Minus(beta, alpha)), Signed(p, beta);
    forall i | 0 <= i < |p.x| ensures f[i] == d[i] + e[i] { SignedAdds(p, alpha, beta, i); }
    v := Weights(p.x, e, p.n, |p.x|);
    u := Weights(p.x, f, p.n, |p.x|);
    forall j | 0 <= j < |w| ensures u[j] == w[j] + Mul(1.0, v[j]) {
      WeightAtAdds(p.x, d, e, f, j, |p.x|);
    }
  }

  /** How the diagonal terms change: a first-order part and a square. */
  function Slopes(a: seq<real>, d: seq<real>, e: seq<real>): (r: seq<real>)
    requires |a| == |d| == |e|
    ensures |r| == |a| && forall i :: 0 <= i < |r| ==> r[i] == Mul(d[i], Mul(a[i], e[i]))
  {
    seq(|a|, i requires 0 <= i < |a| => Mul(d[i], Mul(a[i], e[i])))
  }

  lemma DiagonalMoves(a: seq<real>, b: seq<real>, e: seq<real>)
    requires |a| == |b| == |e|
    ensures Total(Weighted(b, e))
      == Total(Weighted(a, e)) + 2.0 * Total(Slopes(a, Minus(b, a), e)) + Total(Weighted(Minus(b, a), e))
  {
    var d := Minus(b, a);
    var l, q := Slopes(a, d, e), Weighted(d, e);
    var h := seq(|a|, i requires 0 <= i < |a| => Weighted(a, e)[i] + Mul(2.0, l[i]));
    forall i | 0 <= i < |a| ensures Weighted(b, e)[i] == h[i] + q[i] {
      DiagonalMove(a[i], b[i], e[i]);
    }
    TotalLinear(h, Weighted(a, e), 2.0, l);
    TotalAdds(Weighted(b, e), h, q);
  }

  lemma DiagonalMove(a: real, b: real, e: real)
    ensures Mul(b, Mul(b, e)) == Mul(a, Mul(a, e)) + Mul(2.0, Mul(b - a, Mul(a, e))) + Mul(b - a, Mul(b - a, e))
  {
  }

  lemma SquaresNonNegative(v: seq<real>, e: seq<real>)
    requires |v| == |e| && forall i :: 0 <= i < |e| ==> e[i] >= 0.0
    ensures Inner(v, v) >= 0.0 && Total(Weighted(v, e)) >= 0.0
  {
    forall i | 0 <= i < |v| ensures Times(v, v)[i] >= 0.0 && Weighted(v, e)[i] >= 0.0 {
      WeightedSquare(v[i], e[i]);
    }
    TotalNonNegative(Times(v, v));
    TotalNonNegative(Weighted(v, e));
  }

  lemma WeightedSquare(a: real, e: real)
    requires e >= 0.0
    ensures Mul(a, a) >= 0.0 && Mul(a, Mul(a, e)) >= 0.0
  {
    assert a * a >= 0.0;
    assert a * (a * e) == (a * a) * e;
  }

  lemma NormNonNegative(v: seq<real>)
    ensures Inner(v, v) >= 0.0
  {
    SquaresNonNegative(v, Zeros(|v|));
  }

  lemma GainIs(d: real, y: real, t: real, a: real, e: real)
    ensures d * (Mul(t, y) - 1.0 + Mul(a, e)) == Mul(Mul(d, y), t) + Mul(d, Mul(a, e)) - d
  {
  }

  /** The first-order changes add up from the products, the diagonal and the sum. */
  lemma GainsAdd(p: Problem, c: Setting, alpha: seq<real>, w: seq<real>, beta: seq<real>, r: seq<real>)
    requires Valid(p) && Positive(c) && |alpha| == |beta| == |p.x| == |r| && |w| == p.n
    requires forall i :: 0 <= i < |r| ==> r[i] == Mul(Signed(p, Minus(beta, alpha))[i], Dot(w, p.x[i]))
    ensures Total(Gains(p, c, alpha, w, beta))
         == Total(r) + Total(Slopes(alpha, Minus(beta, alpha), Diagonal(p, c))) - Total(Minus(beta, alpha))
  {
    hide Dot, WeightAt, Signs, Diagonal;
    var d, e, g := Minus(beta, alpha), Diagonal(p, c), Gains(p, c, alpha, w, beta);
    var l := Slopes(alpha, d, e);
    var h := seq(|r|, i requires 0 <= i < |r| => r[i] + l[i]);
    forall i | 0 <= i < |r| ensures h[i] == g[i] + d[i] {
      GainIs(d[i], Signs(p)[i], Dot(w, p.x[i]), alpha[i], e[i]);
    }
    TotalAdds(h, r, l);
    TotalAdds(h, g, d);
  }

  /** The objective is convex: no point is lower than its first-order estimate. */
  lemma DualConvex(p: Problem, c: Setting, alpha: seq<real>, w: seq<real>, beta: seq<real>)
    requires Valid(p) && Positive(c) && InStep(p, alpha, w) && |beta| == |alpha|
    ensures Dual(p, c, beta) >= Dual(p, c, alpha) + Total(Gains(p, c, alpha, w, beta))
  {
    hide Dual, Dot, WeightAt, Signs, Total, Mul, Gradient;
    var d, e := Minus(beta, alpha), Diagonal(p, c);
    var v, u := WeightsMove(p, alpha, w, beta);
    var f := Signed(p, d);
    var r := seq(|alpha|, i requires 0 <= i < |alpha| => Mul(f[i], Dot(w, p.x[i])));
    InnerWeights(p.x, f, w, p.n, r, |alpha|);
    assert r[..|alpha|] == r;
    NormMoves(u, w, v);
    DiagonalMoves(alpha, beta, e);
    TotalAdds(beta, alpha, d);
    GainsAdd(p, c, alpha, w, beta, r);
    DualInStep(p, c, alpha, w);
    DualInStep(p, c, beta, u);
    NormNonNegative(v);
    SquaresNonNegative(d, e);
  }

  lemma NormMoves(u: seq<real>, w: seq<real>, v: seq<real>)
    requires |u| == |w| == |v| && forall j :: 0 <= j < |u| ==> u[j] == w[j] + Mul(1.0, v[j])
    ensures Inner(u, u) == Inner(w, w) + 2.0 * Inner(w, v) + Inner(v, v)
  {
    NormLinear(u, w, 1.0, v);
  }

  /** A feasible point that is best in every coordinate is a global minimum. */
  lemma BestIsOptimal(p: Problem, c: Setting, alpha: seq<real>, w: seq<real>)
    requires Valid(p) && Positive(c) && InStep(p, alpha, w) && Feasible(p, c, alpha)
    requires forall i :: 0 <= i < |alpha| ==> Best(p, c, alpha, i)
    ensures Optimal(p, c, alpha)
  {
    hide Dual, WeightAt, Gradient, Best;
    forall beta | Feasible(p, c, beta) ensures Dual(p, c, alpha) <= Dual(p, c, beta) {
      forall i | 0 <= i < |alpha| ensures Gains(p, c, alpha, w, beta)[i] >= 0.0 {
        GradientSign(p, c, alpha, w, i, beta[i], Gradient(p, c, alpha, w, i));
      }
      TotalNonNegative(Gains(p, c, alpha, w, beta));
      DualConvex(p, c, alpha, w, beta);
    }
  }

  // ---------- the loops over a row ----------

  method Product(w: array<real>, row: seq<Feature>) returns (g: real)
    requires ValidRow(row, w.Length)
    ensures g == Dot(w[..], row)
  {
    g := 0.0;
    var k := 0;
    while k < |row|
      invariant k <= |row| && g + Dot(w[..], row[k..]) == Dot(w[..], row)
    {
      g := g + w[row[k].index - 1] * row[k].value;
      assert row[k..][1..] == row[k + 1..];
      k := k + 1;
    }
  }

  method AddInto(w: array<real>, row: seq<Feature>, d: real)
    requires ValidRow(row, w.Length)
    modifies w
    ensures w[..] == AddRow(old(w[..]), row, d)
  {
    var k := 0;
    while k < |row|
      invariant k <= |row| && AddRow(w[..], row[k..], d) == AddRow(old(w[..]), row, d)
    {
      ghost var u := w[..];
      w[row[k].index - 1] := w[row[k].index - 1] + d * row[k].value;
      assert w[..] == u[row[k].index - 1 := u[row[k].index - 1] + Mul(d, row[k].value)];
      assert row[k..][1..] == row[k + 1..];
      k := k + 1;
    }
  }

  /** Adds a row into the weights and its squares into the curvature. */
  method AddExample(w: array<real>, row: seq<Feature>, d: real, q0: real) returns (q: real)
    requires ValidRow(row, w.Length)
    modifies w
    ensures w[..] == AddRow(old(w[..]), row, d) && q == q0 + SquareSum(row)
  {
    var k := 0;
    q := q0;
    while k < |row|
      invariant k <= |row| && AddRow(w[..], row[k..], d) == AddRow(old(w[..]), row, d)
      invariant q + SquareSum(row[k..]) == q0 + SquareSum(row)
    {
      ghost var u := w[..];
      q := q + Mul(row[k].value, row[k].value);
      w[row[k].index - 1] := w[row[k].index - 1] + d * row[k].value;
      assert w[..] == u[row[k].index - 1 := u[row[k].index - 1] + Mul(d, row[k].value)];
      assert row[k..][1..] == row[k + 1..];
      k := k + 1;
    }
  }

  lemma {:induction false} AddRowZero(w: seq<real>, row: seq<Feature>)
    requires ValidRow(row, |w|)
    ensures AddRow(w, row, 0.0) == w
    decreases row
  {
    if row != [] {
      assert w[row[0].index - 1 := w[row[0].index - 1] + Mul(0.0, row[0].value)] == w;
      AddRowZero(w, row[1..]);
    }
  }

  function Zeros(n: nat): (s: seq<real>)
    ensures |s| == n && forall i :: 0 <= i < n ==> s[i] == 0.0
  {
    seq(n, _ => 0.0)
  }

  lemma {:induction false} WeightZero(x: seq<seq<Feature>>, d: seq<real>, j: nat, k: nat)
    requires k <= |x| == |d| && forall i :: 0 <= i < |d| ==> d[i] == 0.0
    ensures WeightAt(x, d, j, k) == 0.0
  {
    if k > 0 { WeightZero(x, d, j, k - 1); }
  }

  lemma StartInStep(p: Problem, c: Setting)
    requires Valid(p) && Positive(c)
    ensures Feasible(p, c, Zeros(|p.x|)) && InStep(p, Zeros(|p.x|), Zeros(p.n))
  {
    var a, w := Zeros(|p.x|), Zeros(p.n);
    forall j | 0 <= j < p.n ensures w[j] == WeightAt(p.x, Signed(p, a), j, |a|) {
      WeightZero(p.x, Signed(p, a), j, |a|);
    }
  }

  /** At the start the objective is zero. */
  lemma NothingYet(p: Problem, c: Setting)
    requires Valid(p) && Positive(c)
    ensures Dual(p, c, Zeros(|p.x|)) == 0.0
  {
    hide Dual, WeightAt, Total, Signs, Diagonal;
    var a, w := Zeros(|p.x|), Zeros(p.n);
    StartInStep(p, c);
    DualInStep(p, c, a, w);
    TotalZero(a);
    TotalZero(Times(w, w));
    TotalZero(Weighted(a, Diagonal(p, c)));
  }
}
