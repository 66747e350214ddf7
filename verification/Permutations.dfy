/** Arrays that hold a permutation of the examples' indices, and the shuffle of `linear.cpp`. */
module Permutations {
  import opened Seqs

  ghost predicate Permutation(s: seq<nat>, l: nat) {
    |s| == l && NoDup(s) && forall i :: 0 <= i < |s| ==> s[i] < l
  }

  method Swap(index: array<nat>, i: nat, j: nat, l: nat)
    requires i <= j < index.Length && Permutation(index[..], l)
    modifies index
    ensures index[..] == old(index[..])[i := old(index[j])][j := old(index[i])]
    ensures Permutation(index[..], l)
  {
    index[i], index[j] := index[j], index[i];
  }

  lemma SwapBag(s: seq<nat>, i: nat, j: nat, k: nat)
    requires i <= j < k <= |s|
    ensures var r := s[i := s[j]][j := s[i]];
      multiset(r[..k]) == multiset(s[..k]) && r[k..] == s[k..]
  {
    var r := s[i := s[j]][j := s[i]];
    assert r[..k] == s[..k][i := s[j]][j := s[i]];
  }

  /** The first `active` entries come out in any order, whatever `rand` gives. */
  method Shuffle(index: array<nat>, active: nat, l: nat)
    requires active <= index.Length && Permutation(index[..], l)
    modifies index
    ensures Permutation(index[..], l)
    ensures multiset(index[..active]) == multiset(old(index[..active])) && index[active..] == old(index[active..])
  {
    for i := 0 to active
      invariant Permutation(index[..], l)
      invariant multiset(index[..active]) == multiset(old(index[..active])) && index[active..] == old(index[active..])
    {
      var j: nat :| i <= j < active;
      SwapBag(index[..], i, j, active);
      assert index[..][..active] == index[..active] && index[..][active..] == index[active..];
      Swap(index, i, j, l);
      assert index[..][..active] == index[..active] && index[..][active..] == index[active..];
    }
  }

  lemma InRange(s: seq<nat>, l: nat, i: nat)
    requires Permutation(s, l) && i < |s|
    ensures s[i] < l == |s|
  {
  }

  // ---------- a permutation has every index ----------

  ghost function Elements(s: seq<nat>): set<nat> {
    set v | v in s
  }

  lemma PermutationCovers(perm: seq<nat>, l: nat, i: nat)
    requires Permutation(perm, l) && i < l
    ensures i in perm
  {
    ElementsSize(perm);
    assert Elements(perm) <= UpTo(l);
    if i !in Elements(perm) { SubsetSmaller(Elements(perm), UpTo(l), i); }
  }

  lemma {:induction false} ElementsSize(s: seq<nat>)
    requires NoDup(s)
    ensures |Elements(s)| == |s|
  {
    if s != [] {
      var m := |s| - 1;
      var t, v := s[..m], s[m];
      assert s == t + [v] && v !in t;
      ElementsSize(t);
      assert Elements(s) == Elements(t) + {v} && v !in Elements(t);
    }
  }

  ghost function UpTo(l: nat): (r: set<nat>)
    ensures |r| == l && forall v: nat :: v in r <==> v < l
  {
    if l == 0 then {} else UpTo(l - 1) + {l - 1}
  }

  lemma SubsetSmaller(s: set<nat>, all: set<nat>, i: nat)
    requires s <= all && i in all && i !in s
    ensures |s| < |all|
  {
    assert all == (all - s) + s;
    assert i in all - s;
  }
}
