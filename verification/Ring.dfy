/** Consistent hashing on values: a ring is a map from hash keys to the servers that own
    them, and an object belongs to the owner of the first key at or after its hash.  */
module Ring {
  datatype Option<T> = None | Some(value: T)

  /** `k` is the least key not below `h`, or the least key of all if every key is below `h`. */
  ghost predicate Serves<T>(m: map<int, T>, h: int, k: int) {
    && k in m
    && if h <= k then forall j :: j in m && h <= j ==> k <= j
       else forall j :: j in m ==> k <= j < h
  }

  lemma ServesUnique<T>(m: map<int, T>, h: int, k: int, k': int)
    requires Serves(m, h, k) && Serves(m, h, k')
    ensures k == k'
  {
  }

  lemma {:induction false} LeastKey(s: set<int>) returns (k: int)
    requires s != {}
    ensures k in s && forall j :: j in s ==> k <= j
    decreases |s|
  {
    var first :| first in s;
    var below := set j | j in s && j < first;
    if below == {} {
      k := first;
      assert forall j :: j in s && j < first ==> j in below;
    } else {
      assert below <= s - {first};
      assert |s - {first}| == |s| - 1;
      SubsetSize(below, s - {first});
      k := LeastKey(below);
      assert forall j :: j in s ==> j in below || first <= j;
    }
  }

  lemma {:induction false} SubsetSize<T>(a: set<T>, b: set<T>)
    requires a <= b
    ensures |a| <= |b|
    decreases b
  {
    if x :| x in a {
      SubsetSize(a - {x}, b - {x});
    }
  }

  lemma ServesExists<T>(m: map<int, T>, h: int) returns (k: int)
    requires m != map[]
    ensures Serves(m, h, k)
  {
    var above := set j | j in m && h <= j;
    if above != {} {
      k := LeastKey(above);
      assert forall j :: j in m && h <= j ==> j in above;
    } else {
      assert forall j :: j in m && h <= j ==> j in above;
      assert m.Keys != {} by { var x :| x in m; }
      k := LeastKey(m.Keys);
    }
  }

  /** The owner of hash `h`. */
  ghost function Owner<T>(m: map<int, T>, h: int): (r: Option<T>)
    ensures r == None <==> m == map[]
    ensures forall k :: Serves(m, h, k) ==> r == Some(m[k])
  {
    if m == map[] then None
    else
      assert exists k :: Serves(m, h, k) by { var k := ServesExists(m, h); }
      var k :| Serves(m, h, k);
      assert forall j :: Serves(m, h, j) ==> j == k by {
        forall j | Serves(m, h, j) ensures j == k { ServesUnique(m, h, j, k); }
      }
      Some(m[k])
  }

  /** Adding the replicas `hs` of `s` in turn: a key that is taken keeps its owner. */
  ghost function Added<T>(m: map<int, T>, hs: seq<int>, s: T): map<int, T> {
    if hs == [] then m
    else
      var m' := Added(m, hs[..|hs| - 1], s);
      var h := hs[|hs| - 1];
      if h in m' then m' else m'[h := s]
  }

  /** Deleting the replicas `hs` of `s` in turn: a key of another server stays. */
  ghost function Deleted<T>(m: map<int, T>, hs: seq<int>, s: T): map<int, T> {
    if hs == [] then m
    else
      var m' := Deleted(m, hs[..|hs| - 1], s);
      var h := hs[|hs| - 1];
      if h in m' && m'[h] == s then m' - {h} else m'
  }

  lemma AddedStep<T>(m: map<int, T>, hs: seq<int>, i: int, s: T)
    requires 0 <= i < |hs|
    ensures Added(m, hs[..i + 1], s) == Added(Added(m, hs[..i], s), [hs[i]], s)
  {
    assert hs[..i + 1][..i] == hs[..i];
    assert [hs[i]][..0] == [];
  }

  lemma DeletedStep<T>(m: map<int, T>, hs: seq<int>, i: int, s: T)
    requires 0 <= i < |hs|
    ensures Deleted(m, hs[..i + 1], s) == Deleted(Deleted(m, hs[..i], s), [hs[i]], s)
  {
    assert hs[..i + 1][..i] == hs[..i];
    assert [hs[i]][..0] == [];
  }

  /** The order and the repetitions of the replicas do not matter. */
  lemma {:induction false} AddedWhole<T>(m: map<int, T>, hs: seq<int>, s: T)
    ensures Added(m, hs, s) == (map k | k in hs :: s) + m
  {
    if hs != [] {
      var h := hs[|hs| - 1];
      AddedWhole(m, hs[..|hs| - 1], s);
      assert hs == hs[..|hs| - 1] + [h];
    }
  }

  lemma {:induction false} DeletedWhole<T>(m: map<int, T>, hs: seq<int>, s: T)
    ensures Deleted(m, hs, s) == map k | k in m && !(k in hs && m[k] == s) :: m[k]
  {
    if hs != [] {
      var h := hs[|hs| - 1];
      DeletedWhole(m, hs[..|hs| - 1], s);
      assert hs == hs[..|hs| - 1] + [h];
    }
  }

  /** Adding a server moves objects only to that server. */
  lemma AddMonotone<T>(m: map<int, T>, hs: seq<int>, s: T, h: int)
    ensures Owner(Added(m, hs, s), h) in {Owner(m, h), Some(s)}
  {
    AddedWhole(m, hs, s);
    var m' := Added(m, hs, s);
    assert forall j :: j in m ==> j in m' && m'[j] == m[j];
    if m' != map[] {
      var k' := ServesExists(m', h);
      if k' in m {
        assert Serves(m, h, k');
      }
    }
  }

  /** Deleting a server moves only the objects it owned. */
  lemma DeleteMonotone<T>(m: map<int, T>, hs: seq<int>, s: T, h: int)
    requires Owner(m, h) != Some(s)
    ensures Owner(Deleted(m, hs, s), h) == Owner(m, h)
  {
    DeletedWhole(m, hs, s);
    if m != map[] {
      var k := ServesExists(m, h);
      assert Serves(Deleted(m, hs, s), h, k);
    }
  }

  /** The ring as if `s` had never been there. */
  ghost function Dropping<T>(m: map<int, T>, s: T): map<int, T> {
    map k | k in m && m[k] != s :: m[k]
  }

  /** If the replicas cover all keys of `s`, deleting leaves exactly the other servers' keys. */
  lemma DeleteLeavesOthers<T>(m: map<int, T>, hs: seq<int>, s: T)
    requires forall k :: k in m && m[k] == s ==> k in hs
    ensures Deleted(m, hs, s) == Dropping(m, s)
    ensures s !in Deleted(m, hs, s).Values
  {
    DeletedWhole(m, hs, s);
    var d, w := Deleted(m, hs, s), Dropping(m, s);
    assert forall k :: k in d <==> k in w;
    assert forall k :: k in d ==> d[k] == m[k] && w[k] == m[k];
  }

  /** Deleting undoes adding, whatever keys collide. */
  lemma DeleteUndoesAdd<T>(m: map<int, T>, hs: seq<int>, s: T)
    requires s !in m.Values
    ensures Deleted(Added(m, hs, s), hs, s) == m
  {
    AddedWhole(m, hs, s);
    DeletedWhole(Added(m, hs, s), hs, s);
    assert forall k :: k in m ==> m[k] in m.Values;
  }
}
