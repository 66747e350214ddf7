/** Sequences of tree nodes in key order: the abstract value of a search tree.
    A search tree stores a sequence without repetitions; inserting or deleting a
    node replaces one element of that sequence by a short sequence.  */
module Spans {
  import opened Seqs

  /** `s` with every occurrence of `y` replaced by the sequence `w`. */
  ghost function Subst<T>(s: seq<T>, y: T, w: seq<T>): seq<T> {
    if s == [] then []
    else (if s[0] == y then w else [s[0]]) + Subst(s[1..], y, w)
  }

  lemma {:induction false} SubstConcat<T>(a: seq<T>, b: seq<T>, y: T, w: seq<T>)
    ensures Subst(a + b, y, w) == Subst(a, y, w) + Subst(b, y, w)
  {
    if a == [] {
      assert a + b == b;
    } else {
      assert (a + b)[1..] == a[1..] + b;
      SubstConcat(a[1..], b, y, w);
    }
  }

  lemma {:induction false} SubstAbsent<T>(s: seq<T>, y: T, w: seq<T>)
    requires y !in s
    ensures Subst(s, y, w) == s
  {
    if s != [] { SubstAbsent(s[1..], y, w); }
  }

  /** Replacing in the span of a node: once for each of its three parts. */
  lemma SubstNode<T>(a: seq<T>, n: T, b: seq<T>, y: T, w: seq<T>)
    ensures Subst(a + [n] + b, y, w) == Subst(a, y, w) + (if n == y then w else [n]) + Subst(b, y, w)
  {
    SubstConcat(a + [n], b, y, w);
    SubstConcat(a, [n], y, w);
  }

  /** In a sequence without repetitions only one place changes. */
  lemma SubstOnce<T>(a: seq<T>, y: T, b: seq<T>, w: seq<T>)
    requires NoDup(a + [y] + b)
    ensures Subst(a + [y] + b, y, w) == a + w + b
  {
    var s := a + [y] + b;
    assert forall i :: 0 <= i < |a| ==> s[i] == a[i] && s[|a|] == y;
    assert forall i :: 0 <= i < |b| ==> s[|a| + 1 + i] == b[i];
    SubstNode(a, y, b, y, w);
    SubstAbsent(a, y, w);
    SubstAbsent(b, y, w);
  }

  lemma SpanAssoc<T>(a: seq<T>, x: T, b: seq<T>, y: T, c: seq<T>)
    ensures a + [x] + (b + [y] + c) == (a + [x] + b) + [y] + c
  {
  }

  lemma SpanRegroup<T>(pre: seq<T>, a: seq<T>, x: T, b: seq<T>, post: seq<T>)
    ensures pre + (a + [x] + b) + post == (pre + a) + [x] + (b + post)
    ensures pre + (a + [x] + b) + post == pre + a + ([x] + (b + post))
    ensures pre + (a + [x] + b) + post == (pre + a + [x]) + b + post
  {
  }

  lemma SubstBefore<T>(pre: seq<T>, post: seq<T>, x: T)
    requires NoDup(pre + post) && post != []
    ensures Subst(pre + post, post[0], [x, post[0]]) == pre + [x] + post
  {
    var y, rest := post[0], post[1..];
    assert post == [y] + rest && pre + post == pre + [y] + rest;
    SubstOnce(pre, y, rest, [x, y]);
    assert [x, y] + rest == [x] + post;
    assert pre + [x, y] + rest == pre + ([x, y] + rest);
    assert pre + [x] + post == pre + ([x] + post);
  }

  lemma SubstAfter<T>(pre: seq<T>, post: seq<T>, x: T)
    requires NoDup(pre + post) && pre != []
    ensures Subst(pre + post, pre[|pre| - 1], [pre[|pre| - 1], x]) == pre + [x] + post
  {
    var y, rest := pre[|pre| - 1], pre[..|pre| - 1];
    assert pre == rest + [y];
    SubstOnce(rest, y, post, [y, x]);
    assert rest + [y, x] == pre + [x];
  }

  /** `s` with `t` taken out and then put in the place of `z`. */
  ghost function Moved<T>(s: seq<T>, z: T, t: T): seq<T> {
    Subst(Subst(s, t, []), z, [t])
  }

  lemma MovedNode<T>(a: seq<T>, n: T, b: seq<T>, z: T, t: T)
    requires z != t
    ensures Moved(a + [n] + b, z, t)
      == Moved(a, z, t) + (if n == t then [] else if n == z then [t] else [n]) + Moved(b, z, t)
  {
    var a', b' := Subst(a, t, []), Subst(b, t, []);
    SubstNode(a, n, b, t, []);
    if n == t {
      assert a' + [] + b' == a' + b';
      SubstConcat(a', b', z, [t]);
      assert Moved(a, z, t) + [] + Moved(b, z, t) == Moved(a, z, t) + Moved(b, z, t);
    } else {
      SubstNode(a', n, b', z, [t]);
    }
  }

  lemma MovedAbsent<T>(s: seq<T>, z: T, t: T)
    requires z !in s && t !in s
    ensures Moved(s, z, t) == s
  {
    SubstAbsent(s, t, []);
    SubstAbsent(s, z, [t]);
  }

  lemma NoDupAround<T>(a: seq<T>, z: T, b: seq<T>)
    requires NoDup(a + [z] + b)
    ensures z !in a && z !in b && NoDup(a + b) && forall x :: x in b ==> x !in a
  {
    var s := a + [z] + b;
    assert s[|a|] == z;
    assert forall i :: 0 <= i < |a| ==> s[i] == a[i];
    assert forall i :: 0 <= i < |b| ==> s[|a| + 1 + i] == b[i];
  }

  lemma MovedAdjacent<T>(a: seq<T>, z: T, t: T, b: seq<T>)
    requires z != t && z !in a && t !in a && z !in b && t !in b
    ensures Moved(a + [z] + ([] + [t] + b), z, t) == a + [t] + b
  {
    MovedAbsent(a, z, t);
    MovedAbsent(b, z, t);
    MovedNode([], t, b, z, t);
    MovedNode(a, z, [] + [t] + b, z, t);
    assert Moved([], z, t) + [] + b == b;
  }

  /** Moving a node's successor into its place only takes the node out. */
  lemma MovedSuccessor<T>(a: seq<T>, z: T, t: T, b: seq<T>)
    requires NoDup(a + [z] + ([t] + b))
    ensures Moved(a + [z] + ([t] + b), z, t) == a + ([t] + b) == Subst(a + [z] + ([t] + b), z, [])
  {
    hide Moved, Subst;
    var s := a + [z] + ([t] + b);
    assert s[|a|] == z && s[|a| + 1] == t;
    assert forall i :: 0 <= i < |a| ==> s[i] == a[i];
    assert forall i :: 0 <= i < |b| ==> s[|a| + 2 + i] == b[i];
    assert [] + [t] + b == [t] + b;
    MovedAdjacent(a, z, t, b);
    SubstOnce(a, z, [t] + b, []);
    assert a + [] == a;
    assert a + [t] + b == a + ([t] + b);
  }
}
