/** Sequences without repetitions. */
module Seqs {

  ghost predicate NoDup<T>(s: seq<T>) {
    forall i, j :: 0 <= i < j < |s| ==> s[i] != s[j]
  }

  /** `items` without the first occurrence of `x`. */
  function Without<T(==)>(items: seq<T>, x: T): seq<T> {
    if items == [] then [] else if items[0] == x then items[1..] else [items[0]] + Without(items[1..], x)
  }

  /** One step of a search for `x` from the front. */
  lemma WithoutFrom<T>(items: seq<T>, i: nat, x: T)
    requires i <= |items|
    ensures items[..i] + Without(items[i..], x) ==
      if i == |items| then items
      else if items[i] == x then items[..i] + items[i + 1..]
      else items[..i + 1] + Without(items[i + 1..], x)
  {
    if i < |items| {
      assert items[i..][1..] == items[i + 1..];
      assert items[..i + 1] == items[..i] + [items[i]];
    }
  }

  lemma {:induction false} WithoutAt<T>(items: seq<T>, x: T) returns (k: nat)
    requires x in items
    ensures k < |items| && items[k] == x && Without(items, x) == items[..k] + items[k + 1..]
  {
    if items[0] == x {
      k := 0;
    } else {
      assert items == [items[0]] + items[1..];
      k := WithoutAt(items[1..], x);
      assert [items[0]] + items[1..][..k] == items[..k + 1];
      assert items[1..][k + 1..] == items[k + 2..];
      k := k + 1;
    }
  }

  lemma SkipAt<T>(items: seq<T>, k: nat)
    requires k < |items|
    ensures var w := items[..k] + items[k + 1..];
      && (forall i :: 0 <= i < |w| ==> w[i] == items[if i < k then i else i + 1])
      && (forall i :: 0 <= i < |items| && i != k ==> items[i] == w[if i < k then i else i - 1])
  {
  }

  lemma WithoutIs<T>(items: seq<T>, x: T)
    requires NoDup(items) && x in items
    ensures NoDup(Without(items, x)) && |Without(items, x)| == |items| - 1
    ensures forall y :: y in Without(items, x) <==> y in items && y != x
  {
    hide Without;
    var k := WithoutAt(items, x);
    var w := items[..k] + items[k + 1..];
    SkipAt(items, k);
    forall y | y in w ensures y in items && y != x {
      var i :| 0 <= i < |w| && w[i] == y;
    }
    forall y | y in items && y != x ensures y in w {
      var i :| 0 <= i < |items| && items[i] == y;
      assert items[i] == w[if i < k then i else i - 1];
    }
  }

  lemma NoDupSnoc<T>(s: seq<T>, x: T)
    requires NoDup(s)
    ensures NoDup(s + [x]) <==> x !in s
  {
    assert forall i :: 0 <= i < |s| ==> (s + [x])[i] == s[i];
    assert (s + [x])[|s|] == x;
  }
}
