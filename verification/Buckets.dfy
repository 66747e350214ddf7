/** Counting-sort buckets: an array cut into segments, each filled from its start up to a pointer. */
module Buckets {

  /** Segments of the given capacities lie one after the other within `size` cells. */
  predicate Laid(starts: seq<nat>, caps: seq<nat>, size: nat) {
    && |starts| == |caps|
    && (forall i, j :: 0 <= i < j < |starts| ==> starts[i] + caps[i] <= starts[j])
    && (forall i :: 0 <= i < |starts| ==> starts[i] + caps[i] <= size)
  }

  /** Each segment begins with its column, and its pointer is just past it. */
  ghost predicate Filled<T>(space: seq<T>, ptr: seq<nat>, starts: seq<nat>, cols: seq<seq<T>>) {
    && |ptr| == |starts| == |cols|
    && (forall j :: 0 <= j < |starts| ==> ptr[j] == starts[j] + |cols[j]| <= |space|)
    && (forall j :: 0 <= j < |starts| ==> space[starts[j]..starts[j] + |cols[j]|] == cols[j])
  }

  ghost predicate Fits<T>(cols: seq<seq<T>>, caps: seq<nat>) {
    |cols| == |caps| && forall j :: 0 <= j < |cols| ==> |cols[j]| <= caps[j]
  }

  /** Appends a value to one column. */
  method Put<T>(space: array<T>, ptr: array<nat>, j: nat, v: T, ghost starts: seq<nat>, ghost caps: seq<nat>,
                ghost cols: seq<seq<T>>)
    requires Laid(starts, caps, space.Length) && Fits(cols, caps) && Filled(space[..], ptr[..], starts, cols)
    requires (space as object) != (ptr as object) && j < ptr.Length && |cols[j]| < caps[j]
    modifies space, ptr
    ensures Filled(space[..], ptr[..], starts, cols[j := cols[j] + [v]]) && Fits(cols[j := cols[j] + [v]], caps)
  {
    ghost var before, was := space[..], ptr[..];
    ghost var at := ptr[j];
    space[ptr[j]] := v;
    ptr[j] := ptr[j] + 1;
    assert space[..] == before[at := v] && ptr[..] == was[j := at + 1];
    PutFills(before, was, j, v, starts, caps, cols);
  }

  lemma PutFills<T>(space: seq<T>, ptr: seq<nat>, j: nat, v: T, starts: seq<nat>, caps: seq<nat>, cols: seq<seq<T>>)
    requires Laid(starts, caps, |space|) && Fits(cols, caps) && Filled(space, ptr, starts, cols)
    requires j < |ptr| && |cols[j]| < caps[j]
    ensures Filled(space[ptr[j] := v], ptr[j := ptr[j] + 1], starts, cols[j := cols[j] + [v]])
  {
    var space', cols' := space[ptr[j] := v], cols[j := cols[j] + [v]];
    forall k | 0 <= k < |starts| ensures space'[starts[k]..starts[k] + |cols'[k]|] == cols'[k] {
      var a, b := starts[k], starts[k] + |cols[k]|;
      assert space[a..b] == cols[k];
      if k == j {
        assert space'[a..b + 1] == space[a..b] + [v];
      } else {
        assert k < j ==> starts[k] + caps[k] <= starts[j];
        assert space'[a..b] == space[a..b];
      }
    }
  }

  /** Where segments of the given capacities start when they are laid one after the other. */
  function Start(caps: seq<nat>, j: nat): nat
    requires j <= |caps|
  {
    if j == 0 then 0 else Start(caps, j - 1) + caps[j - 1]
  }

  lemma StartNext(caps: seq<nat>, j: nat)
    requires j < |caps|
    ensures Start(caps, j + 1) == Start(caps, j) + caps[j]
  {
  }

  lemma StartFirst(caps: seq<nat>)
    ensures Start(caps, 0) == 0
  {
  }

  function Starts(caps: seq<nat>): (s: seq<nat>)
    ensures |s| == |caps| && forall j :: 0 <= j < |s| ==> s[j] == Start(caps, j)
  {
    seq(|caps|, j requires 0 <= j < |caps| => Start(caps, j))
  }

  lemma {:induction false} StartGrows(caps: seq<nat>, i: nat, j: nat)
    requires i < j <= |caps|
    ensures Start(caps, i) + caps[i] <= Start(caps, j)
  {
    if i < j - 1 { StartGrows(caps, i, j - 1); }
  }

  lemma {:induction false} StartBump(caps: seq<nat>, j: nat, k: nat)
    requires j < |caps| && k <= |caps|
    ensures Start(caps[j := caps[j] + 1], k) == Start(caps, k) + if j < k then 1 else 0
  {
    if k > 0 { StartBump(caps, j, k - 1); }
  }

  lemma {:induction false} StartPrefix(a: seq<nat>, b: seq<nat>, k: nat)
    requires k <= |a| && k <= |b| && forall j :: 0 <= j < k ==> a[j] == b[j]
    ensures Start(a, k) == Start(b, k)
  {
    if k > 0 { StartPrefix(a, b, k - 1); }
  }

  lemma StartsLaid(caps: seq<nat>)
    ensures Laid(Starts(caps), caps, Start(caps, |caps|))
  {
    forall i, j | 0 <= i < j <= |caps| ensures Start(caps, i) + caps[i] <= Start(caps, j) {
      StartGrows(caps, i, j);
    }
  }

  /** Before anything is put in. */
  lemma EmptyFilled<T>(space: seq<T>, caps: seq<nat>, cols: seq<seq<T>>)
    requires |space| == Start(caps, |caps|) && |cols| == |caps| && forall j :: 0 <= j < |cols| ==> cols[j] == []
    ensures Laid(Starts(caps), caps, |space|) && Fits(cols, caps) && Filled(space, Starts(caps), Starts(caps), cols)
  {
    hide Start;
    StartsLaid(caps);
    var starts := Starts(caps);
    forall j | 0 <= j < |starts| ensures starts[j] <= |space| && space[starts[j]..starts[j] + |cols[j]|] == cols[j] {
      assert starts[j] + caps[j] <= |space|;
    }
  }

  /** Every cell is in a segment. */
  lemma {:induction false} SegmentOf(caps: seq<nat>, p: nat, k: nat) returns (j: nat)
    requires k <= |caps| && p < Start(caps, k)
    ensures j < k && Start(caps, j) <= p < Start(caps, j) + caps[j]
  {
    if Start(caps, k - 1) <= p {
      j := k - 1;
    } else {
      j := SegmentOf(caps, p, k - 1);
    }
  }

  /** When every column is full the cells are the columns one after the other. */
  function Joined<T>(cols: seq<seq<T>>, k: nat): (s: seq<T>)
    requires k <= |cols|
  {
    if k == 0 then [] else Joined(cols, k - 1) + cols[k - 1]
  }

  lemma {:induction false} FullIsJoined<T>(space: seq<T>, ptr: seq<nat>, caps: seq<nat>, cols: seq<seq<T>>, k: nat)
    requires Filled(space, ptr, Starts(caps), cols) && k <= |caps| == |cols| && Start(caps, k) <= |space|
    requires forall j :: 0 <= j < |caps| ==> |cols[j]| == caps[j]
    ensures space[..Start(caps, k)] == Joined(cols, k)
  {
    hide Filled;
    if k > 0 {
      var a, b := Start(caps, k - 1), Start(caps, k);
      FullIsJoined(space, ptr, caps, cols, k - 1);
      ColumnAt(space, ptr, Starts(caps), cols, k - 1, a, b);
      assert space[..b] == space[..a] + space[a..b];
    }
  }

  lemma ColumnAt<T>(space: seq<T>, ptr: seq<nat>, starts: seq<nat>, cols: seq<seq<T>>, j: nat, a: nat, b: nat)
    requires Filled(space, ptr, starts, cols) && j < |cols| && a == starts[j] && b == a + |cols[j]|
    ensures j < |ptr| && ptr[j] == b <= |space| && space[a..b] == cols[j]
  {
  }
}
