/** From rows to columns: `transpose` of `linear.cpp`. */
module Transpose {
  import opened Sparse
  import opened Buckets

  /** What row number `r` gives to column `j`. */
  function RowPart(row: seq<Feature>, j: nat, r: nat): seq<Feature> {
    if row == [] then []
    else
      var f := row[|row| - 1];
      RowPart(row[..|row| - 1], j, r) + if f.index == j + 1 then [Feature(r, f.value)] else []
  }

  /** Column `j` of the first `i` rows. */
  function Column(x: seq<seq<Feature>>, j: nat, i: nat): seq<Feature>
    requires i <= |x|
  {
    if i == 0 then [] else Column(x, j, i - 1) + RowPart(x[i - 1], j, i)
  }

  function Columns(x: seq<seq<Feature>>, n: nat): (c: seq<seq<Feature>>)
    ensures |c| == n && forall j :: 0 <= j < n ==> c[j] == Column(x, j, |x|)
  {
    seq(n, j requires 0 <= j => Column(x, j, |x|))
  }

  // ---------- the columns are the transpose ----------

  lemma {:induction false} RowPartIs(row: seq<Feature>, n: nat, j: nat, r: nat, v: real)
    requires ValidRow(row, n)
    ensures Feature(r, v) in RowPart(row, j, r) <==> Feature(j + 1, v) in row
    ensures |RowPart(row, j, r)| <= 1 && forall f :: f in RowPart(row, j, r) ==> f.index == r
    ensures RowPart(row, j, r) != [] ==> exists k :: 0 <= k < |row| && row[k].index == j + 1
  {
    if row != [] {
      var m := |row| - 1;
      assert row == row[..m] + [row[m]];
      RowPartIs(row[..m], n, j, r, v);
    }
  }

  /** Column `j` holds (i + 1, v) exactly if row `i` holds (j + 1, v). */
  lemma {:induction false} ColumnExact(x: seq<seq<Feature>>, n: nat, j: nat, m: nat, i: nat, v: real)
    requires Rows(x, n) && m <= |x|
    ensures Feature(i + 1, v) in Column(x, j, m) <==> i < m && Feature(j + 1, v) in x[i]
  {
    if m > 0 {
      ColumnExact(x, n, j, m - 1, i, v);
      RowPartIs(x[m - 1], n, j, m, v);
    }
  }

  /** Every column is in strictly ascending order of rows. */
  lemma {:induction false} ColumnAscending(x: seq<seq<Feature>>, n: nat, j: nat, m: nat)
    requires Rows(x, n) && m <= |x|
    ensures ValidRow(Column(x, j, m), m)
  {
    if m > 0 {
      ColumnAscending(x, n, j, m - 1);
      RowPartIs(x[m - 1], n, j, m, 0.0);
      var c, p := Column(x, j, m - 1), RowPart(x[m - 1], j, m);
      assert forall k :: 0 <= k < |c + p| ==> (c + p)[k] == if k < |c| then c[k] else p[k - |c|];
      assert p != [] ==> p[0] in p;
    }
  }

  lemma FirstIsLeast(a: seq<Feature>, n: nat, f: Feature)
    requires ValidRow(a, n) && f in a
    ensures a[0].index <= f.index && (f.index == a[0].index ==> f == a[0])
  {
  }

  /** Rows with the same features are the same row. */
  lemma {:induction false} AscendingUnique(a: seq<Feature>, b: seq<Feature>, n: nat)
    requires ValidRow(a, n) && ValidRow(b, n) && forall f :: f in a <==> f in b
    ensures a == b
  {
    assert a != [] ==> a[0] in a && a[0] in b;
    assert b != [] ==> b[0] in b && b[0] in a;
    if a != [] && b != [] {
      FirstIsLeast(a, n, b[0]);
      FirstIsLeast(b, n, a[0]);
      forall f ensures f in a[1..] <==> f in b[1..] { TailIs(a, n, f); TailIs(b, n, f); }
      AscendingUnique(a[1..], b[1..], n);
      assert a == [a[0]] + a[1..] && b == [b[0]] + b[1..];
    }
  }

  lemma TailIs(a: seq<Feature>, n: nat, f: Feature)
    requires ValidRow(a, n) && a != []
    ensures f in a[1..] <==> f in a && f != a[0]
  {
    assert a == [a[0]] + a[1..];
    if f in a[1..] {
      var k :| 0 <= k < |a| - 1 && a[1..][k] == f;
      assert a[k + 1] == f;
    }
  }

  lemma SameFeatures(x: seq<seq<Feature>>, n: nat, i: nat, f: Feature)
    requires Rows(x, n) && Rows(Columns(x, n), |x|) && i < |x|
    ensures f in Column(Columns(x, n), i, n) <==> f in x[i]
  {
    hide Column;
    var c := Columns(x, n);
    if f.index >= 1 {
      ColumnExact(c, |x|, i, n, f.index - 1, f.value);
      assert f == Feature(f.index - 1 + 1, f.value);
      if f.index <= n { ColumnExact(x, n, f.index - 1, |x|, i, f.value); }
    } else {
      ColumnAscending(c, |x|, i, n);
    }
  }

  /** Transposing twice gives the rows back. */
  lemma TransposeTwice(x: seq<seq<Feature>>, n: nat)
    requires Rows(x, n)
    ensures Rows(Columns(x, n), |x|) && Columns(Columns(x, n), |x|) == x
  {
    hide Column;
    var c := Columns(x, n);
    forall j | 0 <= j < n ensures ValidRow(c[j], |x|) { ColumnAscending(x, n, j, |x|); }
    forall i | 0 <= i < |x| ensures Columns(c, |x|)[i] == x[i] {
      ColumnAscending(c, |x|, i, n);
      forall f ensures f in Column(c, i, n) <==> f in x[i] { SameFeatures(x, n, i, f); }
      AscendingUnique(Column(c, i, n), x[i], n);
    }
  }

  // ---------- counting ----------

  lemma RowPartStep(row: seq<Feature>, k: nat, j: nat, r: nat)
    requires k < |row|
    ensures RowPart(row[..k + 1], j, r)
         == RowPart(row[..k], j, r) + if row[k].index == j + 1 then [Feature(r, row[k].value)] else []
  {
    assert row[..k + 1][..k] == row[..k];
  }

  lemma RowPartNone(row: seq<Feature>, j: nat, r: nat)
    ensures RowPart(row[..0], j, r) == []
  {
  }

  lemma {:induction false} RowPartGrows(row: seq<Feature>, k: nat, j: nat, r: nat)
    requires k <= |row|
    ensures |RowPart(row[..k], j, r)| <= |RowPart(row, j, r)|
    decreases |row| - k
  {
    if k < |row| {
      RowPartStep(row, k, j, r);
      RowPartGrows(row, k + 1, j, r);
    } else {
      assert row[..k] == row;
    }
  }

  lemma {:induction false} ColumnGrows(x: seq<seq<Feature>>, j: nat, i: nat, m: nat)
    requires i <= m <= |x|
    ensures |Column(x, j, i)| <= |Column(x, j, m)|
  {
    if i < m { ColumnGrows(x, j, i, m - 1); }
  }

  lemma {:induction false} StartPlusOne(caps: seq<nat>, counts: seq<nat>, k: nat)
    requires k <= |counts| <= |caps| && forall j :: 0 <= j < k ==> caps[j] == counts[j] + 1
    ensures Start(caps, k) == Start(counts, k) + k
  {
    if k > 0 { StartPlusOne(caps, counts, k - 1); }
  }

  lemma {:induction false} StartZero(counts: seq<nat>, k: nat)
    requires k <= |counts| && forall j :: 0 <= j < k ==> counts[j] == 0
    ensures Start(counts, k) == 0
  {
    if k > 0 { StartZero(counts, k - 1); }
  }

  /** The features of a row, counted at their columns. */
  method CountRow(ptr: array<nat>, row: seq<Feature>, n: nat, r: nat, nnz0: nat) returns (nnz: nat)
    requires ptr.Length == n + 1 && ValidRow(row, n) && nnz0 == Start(ptr[1..], n)
    modifies ptr
    ensures nnz == Start(ptr[1..], n) == nnz0 + |row| && ptr[0] == old(ptr[0])
    ensures forall c :: 1 <= c <= n ==> ptr[c] == old(ptr[c]) + |RowPart(row, c - 1, r)|
  {
    nnz := nnz0;
    hide RowPart, Start;
    forall j: nat ensures RowPart(row[..0], j, r) == [] { RowPartNone(row, j, r); }
    for k := 0 to |row|
      invariant nnz == Start(ptr[1..], n) == nnz0 + k && ptr[0] == old(ptr[0])
      invariant forall c :: 1 <= c <= n ==> ptr[c] == old(ptr[c]) + |RowPart(row[..k], c - 1, r)|
    {
      forall j | 0 <= j < n
        ensures |RowPart(row[..k + 1], j, r)| == |RowPart(row[..k], j, r)| + if row[k].index == j + 1 then 1 else 0
      {
        RowPartStep(row, k, j, r);
      }
      nnz := nnz + 1;
      StartBump(ptr[1..], row[k].index - 1, n);
      ghost var was := ptr[1..];
      ptr[row[k].index] := ptr[row[k].index] + 1;
      assert ptr[1..] == was[row[k].index - 1 := was[row[k].index - 1] + 1];
    }
    assert row[..|row|] == row;
  }

  /** The room of each column with its end mark; a last segment of none. */
  function Room(x: seq<seq<Feature>>, n: nat): (caps: seq<nat>)
    ensures |caps| == n + 1 && caps[n] == 0
    ensures forall j :: 0 <= j < n ==> caps[j] == |Column(x, j, |x|)| + 1
  {
    seq(n + 1, j requires 0 <= j => if j < n then |Column(x, j, |x|)| + 1 else 0)
  }

  lemma RoomIs(x: seq<seq<Feature>>, n: nat, ptr: seq<nat>)
    requires |ptr| == n + 1 && forall c :: 1 <= c <= n ==> ptr[c] == |Column(x, c - 1, |x|)|
    ensures forall j :: 0 <= j < n ==> Room(x, n)[j] == ptr[1..][j] + 1
    ensures forall c :: 1 <= c <= n ==> ptr[c] + 1 == Room(x, n)[c - 1]
  {
    forall j | 0 <= j < n ensures Room(x, n)[j] == ptr[1..][j] + 1 {
      assert ptr[j + 1] == |Column(x, j + 1 - 1, |x|)|;
    }
  }

  function Total(x: seq<seq<Feature>>, i: nat): nat
    requires i <= |x|
  {
    if i == 0 then 0 else Total(x, i - 1) + |x[i - 1]|
  }

  method Count(x: seq<seq<Feature>>, n: nat) returns (ptr: array<nat>, nnz: nat)
    requires Rows(x, n)
    ensures fresh(ptr) && ptr.Length == n + 1 && ptr[0] == 0 && nnz == Start(ptr[1..], n) == Total(x, |x|)
    ensures forall c :: 1 <= c <= n ==> ptr[c] == |Column(x, c - 1, |x|)|
  {
    ptr := new nat[n + 1];
    nnz := 0;
    for i := 0 to n + 1
      invariant forall j :: 0 <= j < i ==> ptr[j] == 0
    {
      ptr[i] := 0;
    }
    StartZero(ptr[1..], n);
    for i := 0 to |x|
      invariant nnz == Start(ptr[1..], n) == Total(x, i) && ptr[0] == 0
      invariant forall c :: 1 <= c <= n ==> ptr[c] == |Column(x, c - 1, i)|
    {
      nnz := CountRow(ptr, x[i], n, i + 1, nnz);
    }
  }

  /** Each pointer moves up by the counts before it and one end mark for each. */
  method Accumulate(ptr: array<nat>, n: nat, ghost caps: seq<nat>)
    requires ptr.Length == n + 1 == |caps| && ptr[0] == 0
    requires forall c :: 1 <= c <= n ==> ptr[c] + 1 == caps[c - 1]
    modifies ptr
    ensures ptr[..] == Starts(caps)
  {
    hide Start;
    ghost var first := ptr[..];
    StartFirst(caps);
    for i := 1 to n + 1
      invariant forall j :: 0 <= j < i ==> ptr[j] == Start(caps, j)
      invariant forall j :: i <= j <= n ==> ptr[j] == first[j]
    {
      StartNext(caps, i - 1);
      ptr[i] := ptr[i] + (ptr[i - 1] + 1);
    }
  }

  /** Where the columns start, and how many features there are. */
  method Layout(x: seq<seq<Feature>>, n: nat) returns (ptr: array<nat>, nnz: nat)
    requires Rows(x, n)
    ensures fresh(ptr) && ptr[..] == Starts(Room(x, n))
    ensures nnz == Total(x, |x|) && Start(Room(x, n), n) == nnz + n
  {
    hide Column, Total, Room, Start;
    ptr, nnz := Count(x, n);
    RoomIs(x, n, ptr[..]);
    assert ptr[..][1..] == ptr[1..];
    StartPlusOne(Room(x, n), ptr[1..], n);
    Accumulate(ptr, n, Room(x, n));
  }

  // ---------- placing ----------

  /** The columns so far: whole ones of the first `i` rows and, of the next row, the part before `k`. */
  predicate Partial(cols: seq<seq<Feature>>, x: seq<seq<Feature>>, n: nat, i: nat, k: nat)
    requires i <= |x| && k <= if i < |x| then |x[i]| else 0
  {
    && |cols| == n + 1 && cols[n] == []
    && forall j :: 0 <= j < n ==>
         cols[j] == Column(x, j, i) + if i < |x| then RowPart(x[i][..k], j, i + 1) else []
  }

  lemma PartialStep(cols: seq<seq<Feature>>, x: seq<seq<Feature>>, n: nat, i: nat, k: nat, c: nat, v: Feature)
    requires Rows(x, n) && i < |x| && k < |x[i]| && Partial(cols, x, n, i, k)
    requires c + 1 == x[i][k].index && v == Feature(i + 1, x[i][k].value)
    ensures |cols| == n + 1 && c < n && Partial(cols[c := cols[c] + [v]], x, n, i, k + 1)
  {
    hide Column, RowPart;
    var cols' := cols[c := cols[c] + [v]];
    forall j | 0 <= j < n ensures cols'[j] == Column(x, j, i) + RowPart(x[i][..k + 1], j, i + 1) {
      RowPartStep(x[i], k, j, i + 1);
    }
  }

  lemma PartialFits(cols: seq<seq<Feature>>, x: seq<seq<Feature>>, n: nat, i: nat, k: nat, c: nat)
    requires Rows(x, n) && i < |x| && k < |x[i]| && Partial(cols, x, n, i, k) && c + 1 == x[i][k].index
    ensures c < n && |cols[c]| < |Column(x, c, |x|)|
  {
    RowPartStep(x[i], k, c, i + 1);
    RowPartGrows(x[i], k + 1, c, i + 1);
    ColumnGrows(x, c, i + 1, |x|);
  }

  lemma PartialRow(cols: seq<seq<Feature>>, x: seq<seq<Feature>>, n: nat, i: nat)
    requires i < |x| && Partial(cols, x, n, i, |x[i]|)
    ensures Partial(cols, x, n, i + 1, 0)
  {
    assert x[i][..|x[i]|] == x[i];
    if i + 1 < |x| { assert x[i + 1][..0] == []; }
  }

  lemma PartialNone(x: seq<seq<Feature>>, n: nat)
    ensures Partial(seq(n + 1, _ => []), x, n, 0, 0)
  {
    if |x| > 0 { assert x[0][..0] == []; }
  }

  /** Every feature goes to the next free cell of its column. */
  method Place(space: array<Feature>, ptr: array<nat>, x: seq<seq<Feature>>, n: nat)
    returns (ghost cols: seq<seq<Feature>>)
    requires Rows(x, n) && ptr[..] == Starts(Room(x, n)) && space.Length == Start(Room(x, n), n)
    modifies space, ptr
    ensures Partial(cols, x, n, |x|, 0) && Filled(space[..], ptr[..], Starts(Room(x, n)), cols)
  {
    hide Start, Filled, Fits, Laid, Room, Partial;
    ghost var caps, starts := Room(x, n), Starts(Room(x, n));
    cols := seq(n + 1, _ => []);
    BeginPlace(space[..], x, n);
    for i := 0 to |x|
      invariant Laid(starts, caps, space.Length) && Fits(cols, caps) && Filled(space[..], ptr[..], starts, cols)
      invariant Partial(cols, x, n, i, 0)
    {
      for k := 0 to |x[i]|
        invariant Fits(cols, caps) && Filled(space[..], ptr[..], starts, cols)
        invariant Partial(cols, x, n, i, k)
      {
        var ind: nat := x[i][k].index - 1;
        var v := Feature(i + 1, x[i][k].value);
        PartialStep(cols, x, n, i, k, ind, v);
        PartialFits(cols, x, n, i, k, ind);
        HasRoom(x, n, ind);
        Put(space, ptr, ind, v, starts, caps, cols);
        cols := cols[ind := cols[ind] + [v]];
      }
      PartialRow(cols, x, n, i);
    }
  }

  lemma HasRoom(x: seq<seq<Feature>>, n: nat, j: nat)
    requires j < n
    ensures Room(x, n)[j] == |Column(x, j, |x|)| + 1
  {
  }

  lemma BeginPlace(space: seq<Feature>, x: seq<seq<Feature>>, n: nat)
    requires |space| == Start(Room(x, n), n)
    ensures var caps, cols: seq<seq<Feature>> := Room(x, n), seq(n + 1, _ => []);
      Laid(Starts(caps), caps, |space|) && Fits(cols, caps) && Filled(space, Starts(caps), Starts(caps), cols)
      && Partial(cols, x, n, 0, 0)
  {
    hide Filled, Fits, Laid, Starts;
    StartNext(Room(x, n), n);
    EmptyFilled(space, Room(x, n), seq(n + 1, _ => []));
    PartialNone(x, n);
  }

  // ---------- the end marks ----------

  lemma PlacedAll(cols: seq<seq<Feature>>, x: seq<seq<Feature>>, n: nat)
    requires Partial(cols, x, n, |x|, 0)
    ensures cols == Columns(x, n) + [[]]
  {
    forall j | 0 <= j < n ensures cols[j] == Columns(x, n)[j] {
      assert cols[j] == Column(x, j, |x|) + [];
    }
  }

  /** Marking the cell after a column that is not full leaves every column as it is. */
  lemma MarkKeeps(space: seq<Feature>, ptr: seq<nat>, starts: seq<nat>, caps: seq<nat>, cols: seq<seq<Feature>>,
                  j: nat, v: Feature)
    requires Laid(starts, caps, |space|) && Fits(cols, caps) && Filled(space, ptr, starts, cols)
    requires j < |ptr| && |cols[j]| < caps[j]
    ensures ptr[j] < |space| && Filled(space[ptr[j] := v], ptr, starts, cols)
  {
    var space' := space[ptr[j] := v];
    forall k | 0 <= k < |starts| ensures space'[starts[k]..starts[k] + |cols[k]|] == cols[k] {
      var a, b := starts[k], starts[k] + |cols[k]|;
      assert space[a..b] == cols[k];
      assert k < j ==> starts[k] + caps[k] <= starts[j];
      assert space'[a..b] == space[a..b];
    }
  }

  lemma MarksApart(space: seq<Feature>, ptr: seq<nat>, starts: seq<nat>, caps: seq<nat>, cols: seq<seq<Feature>>,
                   n: nat)
    requires Laid(starts, caps, |space|) && Fits(cols, caps) && Filled(space, ptr, starts, cols) && |caps| == n + 1
    requires forall j :: 0 <= j < n ==> |cols[j]| + 1 == caps[j]
    ensures |ptr| == n + 1 && forall j :: 0 <= j < n ==> ptr[j] < |space|
    ensures forall j, k :: 0 <= j < k < n ==> ptr[j] < ptr[k]
  {
    forall j, k | 0 <= j < k < n ensures ptr[j] < ptr[k] {
      assert starts[j] + caps[j] <= starts[k];
    }
  }

  method Mark(space: array<Feature>, ptr: array<nat>, n: nat, ghost starts: seq<nat>, ghost caps: seq<nat>,
              ghost cols: seq<seq<Feature>>)
    requires |caps| == n + 1 && Laid(starts, caps, space.Length) && Fits(cols, caps)
    requires Filled(space[..], ptr[..], starts, cols)
    requires |cols| == n + 1 && forall j :: 0 <= j < n ==> |cols[j]| + 1 == caps[j]
    modifies space
    ensures Filled(space[..], ptr[..], starts, cols)
    ensures |ptr[..]| == n + 1 && forall j :: 0 <= j < n ==> ptr[j] < space.Length && space[ptr[j]].index == -1
  {
    hide Filled, Laid, Fits;
    MarksApart(space[..], ptr[..], starts, caps, cols, n);
    for i := 0 to n
      invariant Filled(space[..], ptr[..], starts, cols)
      invariant forall j :: 0 <= j < i ==> ptr[j] < space.Length && space[ptr[j]].index == -1
    {
      ghost var was := space[..];
      MarkKeeps(was, ptr[..], starts, caps, cols, i, was[ptr[i]].(index := -1));
      space[ptr[i]] := space[ptr[i]].(index := -1);
      assert space[..] == was[ptr[i] := was[ptr[i]].(index := -1)];
    }
  }

  /** A column as its readers walk it: from its start to the first end mark. */
  function Read(space: seq<Feature>, p: nat): seq<Feature>
    requires p <= |space|
    decreases |space| - p
  {
    if p == |space| || space[p].index == -1 then [] else [space[p]] + Read(space, p + 1)
  }

  lemma {:induction false} ReadsColumn(space: seq<Feature>, p: nat, col: seq<Feature>)
    requires p + |col| < |space| && space[p..p + |col|] == col && space[p + |col|].index == -1
    requires forall k :: 0 <= k < |col| ==> col[k].index != -1
    ensures Read(space, p) == col
    decreases |col|
  {
    if col != [] {
      assert space[p] == space[p..p + |col|][0] == col[0];
      assert space[p + 1..p + 1 + |col[1..]|] == space[p..p + |col|][1..] == col[1..];
      ReadsColumn(space, p + 1, col[1..]);
    }
  }

  /** Column `j` lies between its start and the next one's, followed by an end mark, and is what a reader finds. */
  ghost predicate Lies(space: seq<Feature>, x: seq<seq<Feature>>, n: nat, j: nat)
    requires Rows(x, n) && j < n
  {
    var c, s := Column(x, j, |x|), Start(Room(x, n), j);
    && s + |c| + 1 == Start(Room(x, n), j + 1) <= |space|
    && space[s..s + |c|] == c && space[s + |c|].index == -1 && Read(space, s) == c
  }

  /** The columns, laid one after the other, each with its end mark, over all cells there are. */
  method Transpose(x: seq<seq<Feature>>, y: seq<real>, n: nat)
    returns (space: array<Feature>, colStart: seq<nat>, colY: seq<real>)
    requires Rows(x, n) && |y| == |x|
    ensures fresh(space) && space.Length == Total(x, |x|) + n == Start(Room(x, n), n)
    ensures |colStart| == n && colY == y && (n > 0 ==> colStart[0] == 0)
    ensures forall j :: 0 <= j < n ==> colStart[j] == Start(Room(x, n), j) && Lies(space[..], x, n, j)
  {
    hide Start, Total, Column, Filled, Laid, Fits, Partial, Room, Read, Rows;
    colY := y;
    var ptr, nnz := Layout(x, n);
    ghost var caps := Room(x, n);
    space := new Feature[nnz + n] (_ => Feature(0, 0.0));
    colStart := ptr[..n];
    ghost var cols := Place(space, ptr, x, n);
    PlacedAll(cols, x, n);
    EndRoom(x, n, space[..], ptr[..]);
    Mark(space, ptr, n, Starts(caps), caps, cols);
    StartFirst(caps);
    hide Lies;
    forall j | 0 <= j < n ensures Lies(space[..], x, n, j) {
      ColumnPlaced(space[..], ptr[..], x, n, j);
    }
  }

  lemma ColumnRead(space: seq<Feature>, x: seq<seq<Feature>>, n: nat, j: nat, s: nat)
    requires Rows(x, n)
    requires var c := Column(x, j, |x|); s + |c| < |space| && space[s..s + |c|] == c && space[s + |c|].index == -1
    ensures Read(space, s) == Column(x, j, |x|)
  {
    ColumnAscending(x, n, j, |x|);
    ReadsColumn(space, s, Column(x, j, |x|));
  }

  lemma EndRoom(x: seq<seq<Feature>>, n: nat, space: seq<Feature>, ptr: seq<nat>)
    requires |space| == Start(Room(x, n), n)
    ensures var caps, cols := Room(x, n), Columns(x, n) + [[]];
      && |caps| == n + 1 && Laid(Starts(caps), caps, |space|) && Fits(cols, caps)
      && forall j :: 0 <= j < n ==> |cols[j]| + 1 == caps[j]
  {
    var caps, cols := Room(x, n), Columns(x, n) + [[]];
    StartsLaid(caps);
    StartNext(caps, n);
    forall j | 0 <= j < n ensures |cols[j]| + 1 == caps[j] { assert cols[j] == Column(x, j, |x|); }
  }

  lemma ColumnPlaced(space: seq<Feature>, ptr: seq<nat>, x: seq<seq<Feature>>, n: nat, j: nat)
    requires |space| == Start(Room(x, n), n) && j < n && Rows(x, n)
    requires Filled(space, ptr, Starts(Room(x, n)), Columns(x, n) + [[]])
    requires j < |ptr| && ptr[j] < |space| && space[ptr[j]].index == -1
    ensures Lies(space, x, n, j)
  {
    hide Filled, Column, Start, Read;
    var caps, cols, c := Room(x, n), Columns(x, n) + [[]], Column(x, j, |x|);
    assert cols[j] == c;
    ColumnAt(space, ptr, Starts(caps), cols, j, Start(caps, j), Start(caps, j) + |c|);
    StartGrows(caps, j, n);
    StartNext(caps, j);
    ColumnRead(space, x, n, j, Start(caps, j));
  }
}
