/** The stable grouping of examples by class: `group_classes` of `linear.cpp`. */
module Grouping {
  import opened Seqs
  import opened Permutations
  import opened Buckets

  /** A `double` cast to `int`. */
  function Truncate(y: real): int {
    if y >= 0.0 then y.Floor else -(-y).Floor
  }

  function Labels(y: seq<real>): (d: seq<int>)
    ensures |d| == |y| && forall i :: 0 <= i < |d| ==> d[i] == Truncate(y[i])
  {
    seq(|y|, i requires 0 <= i < |y| => Truncate(y[i]))
  }

  /** The first `i` labels without repetitions, in the order of their first occurrence. */
  function FirstSeen(d: seq<int>, i: nat): seq<int>
    requires i <= |d|
  {
    if i == 0 then []
    else
      var s := FirstSeen(d, i - 1);
      if d[i - 1] in s then s else s + [d[i - 1]]
  }

  /** Of the first `i` examples those with label `v`, in ascending order. */
  function Members(d: seq<int>, v: int, i: nat): seq<nat>
    requires i <= |d|
  {
    if i == 0 then [] else Members(d, v, i - 1) + if d[i - 1] == v then [i - 1] else []
  }

  /** The classes in the order the solver sees them: +1 goes before -1 if those are the two. */
  function Classes(d: seq<int>): seq<int> {
    if FirstSeen(d, |d|) == [-1, 1] then [1, -1] else FirstSeen(d, |d|)
  }

  lemma {:induction false} FirstSeenIs(d: seq<int>, i: nat)
    requires i <= |d|
    ensures NoDup(FirstSeen(d, i))
    ensures forall v :: v in FirstSeen(d, i) <==> exists k :: 0 <= k < i && d[k] == v
  {
    if i > 0 {
      FirstSeenIs(d, i - 1);
      NoDupSnoc(FirstSeen(d, i - 1), d[i - 1]);
    }
  }

  /** The cast cuts off towards zero. */
  lemma TruncateIs(y: real)
    ensures y >= 0.0 ==> 0.0 <= y - Truncate(y) as real < 1.0
    ensures y <= 0.0 ==> 0.0 <= Truncate(y) as real - y < 1.0
  {
  }

  /** Label `v` first occurs at `i`. */
  ghost predicate FirstAt(d: seq<int>, v: int, i: nat) {
    i < |d| && d[i] == v && forall k :: 0 <= k < i ==> d[k] != v
  }

  /** The labels in the order of their first occurrence, which is at `at`. */
  ghost predicate FirstOrder(d: seq<int>, names: seq<int>, at: seq<nat>) {
    && |at| == |names| && (forall j :: 0 <= j < |at| ==> FirstAt(d, names[j], at[j]))
    && (forall j, k :: 0 <= j < k < |at| ==> at[j] < at[k])
  }

  /** The labels are -1 and 1 and no other. */
  ghost predicate PlusMinus(d: seq<int>) {
    -1 in d && 1 in d && forall i :: 0 <= i < |d| ==> d[i] == -1 || d[i] == 1
  }

  /** 1 before -1 if those are the two labels; otherwise as they first occur. */
  ghost predicate ClassOrder(d: seq<int>, names: seq<int>) {
    if PlusMinus(d) then names == [1, -1] else exists at :: FirstOrder(d, names, at)
  }

  lemma {:induction false} FirstSeenOrder(d: seq<int>, i: nat) returns (at: seq<nat>)
    requires i <= |d|
    ensures FirstOrder(d, FirstSeen(d, i), at) && forall j :: 0 <= j < |at| ==> at[j] < i
  {
    at := [];
    if i == 0 { return; }
    hide FirstOrder;
    at := FirstSeenOrder(d, i - 1);
    SeenAll(d, i - 1);
    if d[i - 1] !in FirstSeen(d, i - 1) {
      NextLabel(d, FirstSeen(d, i - 1), at, i - 1);
      at := at + [i - 1];
    }
  }

  lemma {:induction false} SeenAll(d: seq<int>, i: nat)
    requires i <= |d|
    ensures forall k :: 0 <= k < i ==> d[k] in FirstSeen(d, i)
  {
    if i > 0 { SeenAll(d, i - 1); }
  }

  /** A label that was not seen before comes last. */
  lemma NextLabel(d: seq<int>, names: seq<int>, at: seq<nat>, i: nat)
    requires i < |d| && FirstOrder(d, names, at) && (forall j :: 0 <= j < |at| ==> at[j] < i)
    requires d[i] !in names && forall k :: 0 <= k < i ==> d[k] in names
    ensures FirstOrder(d, names + [d[i]], at + [i])
  {
    assert FirstAt(d, d[i], i);
  }

  lemma ClassesInOrder(d: seq<int>)
    ensures ClassOrder(d, Classes(d))
  {
    var s := FirstSeen(d, |d|);
    var at := FirstSeenOrder(d, |d|);
    FirstSeenIs(d, |d|);
    if PlusMinus(d) {
      assert -1 in s && 1 in s && forall j :: 0 <= j < |s| ==> s[j] in s;
      TwoLabels(s);
    } else if s == [-1, 1] {
      assert s[0] in s && s[1] in s;
      forall i | 0 <= i < |d| ensures d[i] == -1 || d[i] == 1 { assert d[i] in s; }
    }
  }

  lemma TwoLabels(s: seq<int>)
    requires NoDup(s) && -1 in s && 1 in s && forall j :: 0 <= j < |s| ==> s[j] == -1 || s[j] == 1
    ensures s == [-1, 1] || s == [1, -1]
  {
    hide NoDup;
    if |s| > 2 {
      Differ(s, 0, 1);
      Differ(s, 0, 2);
      Differ(s, 1, 2);
      assert false;
    }
    if |s| == 2 { Differ(s, 0, 1); }
  }

  lemma Differ(s: seq<int>, i: nat, j: nat)
    requires NoDup(s) && i < j < |s|
    ensures s[i] != s[j]
  {
  }

  lemma {:induction false} MembersAre(d: seq<int>, v: int, i: nat)
    requires i <= |d|
    ensures forall k :: k in Members(d, v, i) <==> 0 <= k < i && d[k] == v
    ensures forall p, q :: 0 <= p < q < |Members(d, v, i)| ==> Members(d, v, i)[p] < Members(d, v, i)[q]
  {
    if i > 0 {
      MembersAre(d, v, i - 1);
      var m := Members(d, v, i - 1);
      assert forall p :: 0 <= p < |m| ==> m[p] in m;
    }
  }

  lemma {:induction false} MembersGrow(d: seq<int>, v: int, i: nat, n: nat)
    requires i <= n <= |d|
    ensures |Members(d, v, i)| <= |Members(d, v, n)|
  {
    if i < n { MembersGrow(d, v, i, n - 1); }
  }

  // ---------- counting ----------

  /** Each example knows its class and each class how many of the first `i` examples it has. */
  ghost predicate Counted(d: seq<int>, i: nat, names: seq<int>, count: seq<nat>, own: seq<nat>)
    requires i <= |d|
  {
    && NoDup(names) && |names| == |count| && |own| == |d| && Start(count, |count|) == i
    && (forall j :: 0 <= j < |names| ==> count[j] == |Members(d, names[j], i)|)
    && (forall k :: 0 <= k < i ==> own[k] < |names| && names[own[k]] == d[k])
  }

  lemma CountOld(d: seq<int>, i: nat, names: seq<int>, count: seq<nat>, own: seq<nat>, j: nat)
    requires i < |d| && Counted(d, i, names, count, own) && j < |names| && names[j] == d[i]
    ensures Counted(d, i + 1, names, count[j := count[j] + 1], own[i := j])
  {
    StartBump(count, j, |count|);
    forall k | 0 <= k < |names| ensures count[j := count[j] + 1][k] == |Members(d, names[k], i + 1)| {
      assert k != j ==> names[k] != names[j];
    }
  }

  lemma {:induction false} NoMembers(d: seq<int>, v: int, i: nat)
    requires i <= |d| && forall k :: 0 <= k < i ==> d[k] != v
    ensures Members(d, v, i) == []
  {
    if i > 0 { NoMembers(d, v, i - 1); }
  }

  lemma CountNew(d: seq<int>, i: nat, names: seq<int>, count: seq<nat>, own: seq<nat>)
    requires i < |d| && Counted(d, i, names, count, own) && d[i] !in names
    ensures Counted(d, i + 1, names + [d[i]], count + [1], own[i := |names|])
  {
    var names', count' := names + [d[i]], count + [1];
    forall k | 0 <= k < i ensures d[k] != d[i] { assert names[own[k]] in names; }
    NoMembers(d, d[i], i);
    NoDupSnoc(names, d[i]);
    StartPrefix(count', count, |count|);
    assert Start(count', |count'|) == i + 1;
    forall j | 0 <= j < |names'| ensures count'[j] == |Members(d, names'[j], i + 1)| {
      OneMember(d, names'[j], i);
      assert j < |names| ==> names[j] in names;
    }
  }

  lemma OneMember(d: seq<int>, v: int, i: nat)
    requires i < |d|
    ensures |Members(d, v, i + 1)| == |Members(d, v, i)| + if d[i] == v then 1 else 0
  {
  }

  method CountClasses(y: seq<real>, own: array<nat>) returns (names: seq<int>, count: seq<nat>)
    requires own.Length == |y|
    modifies own
    ensures names == FirstSeen(Labels(y), |y|) && Counted(Labels(y), |y|, names, count, own[..])
  {
    hide Counted, Members, Truncate;
    ghost var d := Labels(y);
    names, count := [], [];
    CountNone(d, own[..]);
    for i := 0 to |y|
      invariant names == FirstSeen(d, i) && Counted(d, i, names, count, own[..])
    {
      ghost var was := own[..];
      CountedSizes(d, i, names, count, own[..]);
      var thisLabel := Truncate(y[i]);
      var j: nat := 0;
      while j < |names| && thisLabel != names[j]
        invariant j <= |names| && forall k :: 0 <= k < j ==> names[k] != thisLabel
      {
        j := j + 1;
      }
      own[i] := j;
      assert own[..] == was[i := j];
      if j < |names| {
        CountOld(d, i, names, count, was, j);
        count := count[j := count[j] + 1];
      } else {
        CountNew(d, i, names, count, was);
        names, count := names + [thisLabel], count + [1];
      }
    }
  }

  lemma CountNone(d: seq<int>, own: seq<nat>)
    requires |own| == |d|
    ensures Counted(d, 0, [], [], own)
  {
  }

  lemma CountedSizes(d: seq<int>, i: nat, names: seq<int>, count: seq<nat>, own: seq<nat>)
    requires i <= |d| && Counted(d, i, names, count, own)
    ensures |names| == |count|
  {
  }

  // ---------- +1 before -1 ----------

  lemma CountSwapped(d: seq<int>, names: seq<int>, count: seq<nat>, own: seq<nat>, own': seq<nat>)
    requires Counted(d, |d|, names, count, own) && |names| == 2
    requires |own'| == |d| && forall i :: 0 <= i < |d| ==> own'[i] == if own[i] == 0 then 1 else 0
    ensures Counted(d, |d|, [names[1], names[0]], [count[1], count[0]], own')
  {
    assert Start(count, 0) == 0 && Start(count, 1) == count[0] && Start(count, 2) == count[0] + count[1];
    var c := [count[1], count[0]];
    assert Start(c, 0) == 0 && Start(c, 1) == count[1] && Start(c, 2) == count[1] + count[0];
  }

  method SwapClasses(ghost d: seq<int>, own: array<nat>, names0: seq<int>, count0: seq<nat>)
    returns (names: seq<int>, count: seq<nat>)
    requires names0 == FirstSeen(d, |d|) && Counted(d, |d|, names0, count0, own[..])
    modifies own
    ensures names == Classes(d) && Counted(d, |d|, names, count, own[..])
  {
    hide Members;
    names, count := names0, count0;
    if |names| == 2 && names[0] == -1 && names[1] == 1 {
      ghost var was := own[..];
      for i := 0 to own.Length
        invariant forall k :: 0 <= k < i ==> own[k] == if was[k] == 0 then 1 else 0
        invariant forall k :: i <= k < own.Length ==> own[k] == was[k]
      {
        own[i] := if own[i] == 0 then 1 else 0;
      }
      CountSwapped(d, names, count, was, own[..]);
      names, count := [names[1], names[0]], [count[1], count[0]];
    } else {
      assert names != [-1, 1];
    }
  }

  // ---------- placing ----------

  /** `start[0] = 0` and each start past the class before it. */
  method SetStarts(start: array<nat>, count: seq<nat>)
    requires start.Length == |count| > 0
    modifies start
    ensures start[..] == Starts(count)
  {
    hide Start;
    start[0] := 0;
    StartFirst(count);
    for i := 1 to |count|
      invariant forall j :: 0 <= j < i ==> start[j] == Start(count, j)
    {
      StartNext(count, i - 1);
      start[i] := start[i - 1] + count[i - 1];
    }
  }

  function Groups(d: seq<int>, names: seq<int>, i: nat): (g: seq<seq<nat>>)
    requires i <= |d|
    ensures |g| == |names| && forall j :: 0 <= j < |g| ==> g[j] == Members(d, names[j], i)
  {
    seq(|names|, j requires 0 <= j < |names| => Members(d, names[j], i))
  }

  lemma GroupsBegin(d: seq<int>, names: seq<int>, count: seq<nat>, own: seq<nat>, space: seq<nat>)
    requires Counted(d, |d|, names, count, own) && |space| == |d|
    ensures Laid(Starts(count), count, |space|) && Fits(Groups(d, names, 0), count)
    ensures Filled(space, Starts(count), Starts(count), Groups(d, names, 0))
  {
    hide Filled, Fits, Laid, Starts, Start, Members;
    forall j | 0 <= j < |names| ensures Groups(d, names, 0)[j] == [] { NoMembers(d, names[j], 0); }
    EmptyFilled(space, count, Groups(d, names, 0));
  }

  lemma GroupsStep(d: seq<int>, names: seq<int>, count: seq<nat>, own: seq<nat>, i: nat)
    requires i < |d| && Counted(d, |d|, names, count, own)
    ensures i < |own| == |d| && own[i] < |names| == |count| == |Groups(d, names, i)|
      && |Groups(d, names, i)[own[i]]| < count[own[i]]
    ensures Groups(d, names, i + 1) == Groups(d, names, i)[own[i] := Groups(d, names, i)[own[i]] + [i]]
  {
    var j, g := own[i], Groups(d, names, i);
    MembersGrow(d, names[j], i + 1, |d|);
    var r, w := Groups(d, names, i + 1), g[j := g[j] + [i]];
    forall k | 0 <= k < |names| ensures r[k] == w[k] {
      assert k != j ==> names[k] != names[j];
      assert Members(d, names[k], i + 1) == Members(d, names[k], i) + if d[i] == names[k] then [i] else [];
    }
  }

  method PlaceAll(ghost d: seq<int>, perm: array<nat>, start: array<nat>, own: array<nat>, ghost names: seq<int>,
                  ghost count: seq<nat>)
    requires Counted(d, |d|, names, count, own[..]) && perm.Length == |d| && start[..] == Starts(count)
    requires perm != start && perm != own && start != own
    modifies perm, start
    ensures Filled(perm[..], start[..], Starts(count), Groups(d, names, |d|))
  {
    hide Filled, Fits, Laid, Counted, Starts, Groups;
    ghost var was := own[..];
    GroupsBegin(d, names, count, was, perm[..]);
    for i := 0 to perm.Length
      invariant Laid(Starts(count), count, perm.Length) && Fits(Groups(d, names, i), count)
      invariant Filled(perm[..], start[..], Starts(count), Groups(d, names, i)) && own[..] == was
    {
      GroupsStep(d, names, count, was, i);
      FilledSizes(perm[..], start[..], Starts(count), Groups(d, names, i));
      Put(perm, start, own[i], i, Starts(count), count, Groups(d, names, i));
    }
  }

  lemma FilledSizes(space: seq<nat>, ptr: seq<nat>, starts: seq<nat>, cols: seq<seq<nat>>)
    requires Filled(space, ptr, starts, cols)
    ensures |ptr| == |cols|
  {
  }

  // ---------- the whole ----------

  /** Each class lies in one segment of `perm`, its examples in ascending order. */
  ghost predicate Grouped(d: seq<int>, names: seq<int>, start: seq<nat>, count: seq<nat>, perm: seq<nat>) {
    && NoDup(names) && |names| == |count| && start == Starts(count) && Start(count, |count|) == |d| == |perm|
    && (forall i :: 0 <= i < |d| ==> d[i] in names)
    && (forall j :: 0 <= j < |names| ==>
         count[j] == |Members(d, names[j], |d|)| && start[j] + count[j] <= |perm|
         && perm[start[j]..start[j] + count[j]] == Members(d, names[j], |d|))
  }

  lemma GroupedNow(d: seq<int>, names: seq<int>, count: seq<nat>, own: seq<nat>, perm: seq<nat>, ptr: seq<nat>)
    requires Counted(d, |d|, names, count, own) && |perm| == |d|
    requires Filled(perm, ptr, Starts(count), Groups(d, names, |d|))
    ensures Grouped(d, names, Starts(count), count, perm)
  {
    hide Start, Members;
    forall i | 0 <= i < |d| ensures d[i] in names { assert names[own[i]] == d[i]; }
    forall j | 0 <= j < |names|
      ensures Starts(count)[j] + count[j] <= |perm|
      ensures perm[Starts(count)[j]..Starts(count)[j] + count[j]] == Members(d, names[j], |d|)
    {
      ColumnAt(perm, ptr, Starts(count), Groups(d, names, |d|), j, Starts(count)[j], Starts(count)[j] + count[j]);
    }
  }

  /** An example stands in the segment of its class. */
  lemma PlaceOf(d: seq<int>, names: seq<int>, start: seq<nat>, count: seq<nat>, perm: seq<nat>, p: nat) returns (j: nat)
    requires Grouped(d, names, start, count, perm) && p < |perm|
    ensures j < |names| && start[j] <= p < start[j] + count[j]
    ensures perm[p] == Members(d, names[j], |d|)[p - start[j]] && perm[p] < |d| && d[perm[p]] == names[j]
  {
    hide Members, Start;
    j := SegmentOf(count, p, |count|);
    MembersAre(d, names[j], |d|);
    InSlice(perm, start[j], start[j] + count[j], p, Members(d, names[j], |d|));
  }

  lemma InSlice(perm: seq<nat>, a: nat, b: nat, p: nat, m: seq<nat>)
    requires a <= p < b <= |perm| && perm[a..b] == m
    ensures |m| == b - a && perm[p] == m[p - a] && perm[p] in m
  {
    assert perm[p] == perm[a..b][p - a];
  }

  /** A grouping is a permutation of all examples. */
  lemma GroupedIsPermutation(d: seq<int>, names: seq<int>, start: seq<nat>, count: seq<nat>, perm: seq<nat>)
    requires Grouped(d, names, start, count, perm)
    ensures Permutation(perm, |d|)
  {
    forall p, q | 0 <= p < q < |perm| ensures perm[p] != perm[q] {
      var j := PlaceOf(d, names, start, count, perm, p);
      var k := PlaceOf(d, names, start, count, perm, q);
      if j == k {
        MembersAre(d, names[j], |d|);
      } else {
        assert names[j] != names[k];
      }
    }
    forall p | 0 <= p < |perm| ensures perm[p] < |d| {
      var j := PlaceOf(d, names, start, count, perm, p);
    }
  }

  method GroupClasses(y: seq<real>, perm: array<nat>) returns (names: seq<int>, start: array<nat>, count: seq<nat>)
    requires |y| >= 1 && perm.Length == |y|
    modifies perm
    ensures names == Classes(Labels(y)) && fresh(start) && ClassOrder(Labels(y), names)
    ensures Grouped(Labels(y), names, start[..], count, perm[..]) && Permutation(perm[..], |y|)
  {
    hide Counted, Members, Starts, Filled, Groups, Grouped, FirstSeen, Permutation, Truncate;
    ghost var d := Labels(y);
    ClassesInOrder(d);
    hide ClassOrder;
    var own := new nat[|y|];
    names, count := CountClasses(y, own);
    names, count := SwapClasses(d, own, names, count);
    ManyClasses(d, names, count, own[..]);
    start := new nat[|names|];
    SetStarts(start, count);
    PlaceAll(d, perm, start, own, names, count);
    GroupedNow(d, names, count, own[..], perm[..], start[..]);
    SetStarts(start, count);
    GroupedIsPermutation(d, names, start[..], count, perm[..]);
  }

  lemma ManyClasses(d: seq<int>, names: seq<int>, count: seq<nat>, own: seq<nat>)
    requires |d| > 0 && Counted(d, |d|, names, count, own)
    ensures |names| == |count| > 0
  {
    assert own[0] < |names|;
  }
}
