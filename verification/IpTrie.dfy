/** The binary trie of `AdIpArea.cpp`, from address prefixes to areas. */
module IpTrie {
  import opened Seqs
  import opened Division

  type Path = seq<bool>
  type address = x: nat | x < 0x1_0000_0000

  datatype Area = Area(country: string, province: string, city: string)

  const NO_AREA := Area("", "", "")

  function Text(a: Area): string {
    a.country + "-" + a.province + "-" + a.city
  }

  function Half(n: nat): nat {
    if n == 0 then 1 else 2 * Half(n - 1)
  }

  lemma {:induction false} HalfPositive(n: nat)
    ensures Half(n) > 0
  {
    if n > 0 { HalfPositive(n - 1); }
  }

  /** `0x80000000 >> i & ip`. */
  predicate Bit(ip: address, i: nat)
    requires i < 32
  {
    HalfPositive(31 - i);
    ip / Half(31 - i) % 2 == 1
  }

  /** The bits of an address, the most significant first. */
  function Bits(ip: address): (p: Path)
    ensures |p| == 32
  {
    seq(32, i requires 0 <= i < 32 => Bit(ip, i))
  }

  lemma HalfOfQuotient(a: nat, h: nat)
    requires h > 0
    ensures a / (2 * h) == a / h / 2
  {
    var q, r := a / h, a % h;
    var s, t := q / 2, q % 2;
    assert a == h * q + r;
    assert h * q == 2 * h * s + h * t;
    QuotientIs(a, 2 * h, s, h * t + r);
  }

  /** Two addresses share their first `k` bits exactly if they are in the same network of that size. */
  lemma {:induction false} SamePrefix(a: address, b: address, k: nat)
    requires k <= 32
    ensures Half(32 - k) > 0 && (Bits(a)[..k] == Bits(b)[..k] <==> a / Half(32 - k) == b / Half(32 - k))
  {
    HalfPositive(32 - k);
    if k == 0 {
      HalfIs32();
    } else {
      var h, x, y := Half(32 - k), Bits(a)[..k], Bits(b)[..k];
      SamePrefix(a, b, k - 1);
      assert Half(33 - k) == 2 * h;
      HalfOfQuotient(a, h);
      HalfOfQuotient(b, h);
      assert x == Bits(a)[..k - 1] + [Bit(a, k - 1)] && y == Bits(b)[..k - 1] + [Bit(b, k - 1)];
      assert x == y <==> Bits(a)[..k - 1] == Bits(b)[..k - 1] && Bit(a, k - 1) == Bit(b, k - 1) by {
        assert x[..k - 1] == Bits(a)[..k - 1] && y[..k - 1] == Bits(b)[..k - 1];
        assert x[k - 1] == Bit(a, k - 1) && y[k - 1] == Bit(b, k - 1);
      }
    }
  }

  lemma HalfIs32()
    ensures Half(32) == 0x1_0000_0000
  {
    assert Half(4) == 16;
    assert Half(8) == 0x100;
    assert Half(12) == 0x1000;
    assert Half(16) == 0x1_0000;
    assert Half(20) == 0x10_0000;
    assert Half(24) == 0x100_0000;
    assert Half(28) == 0x1000_0000;
  }

  // ---------- what is stored ----------

  /** The latest write at each prefix. */
  type Entries = map<Path, Area>

  function At(m: Entries, p: Path): Area {
    if p in m then m[p] else NO_AREA
  }

  /** A stored prefix that has a city. */
  predicate Named(m: Entries, p: Path) {
    p in m && m[p].city != ""
  }

  /** The longest prefix of `bits`, of length 1 to `n`, that is stored with a city; 0 if there is none. */
  function Longest(m: Entries, bits: Path, n: nat): (k: nat)
    requires n <= |bits|
    ensures k <= n && (k > 0 ==> Named(m, bits[..k]))
    ensures forall j :: k < j <= n ==> !Named(m, bits[..j])
  {
    if n == 0 || Named(m, bits[..n]) then n else Longest(m, bits, n - 1)
  }

  /** Where an insertion writes: at the root if the text is that of the zero address. */
  function Prefix(aton: string -> address, addr: string, mask: nat): (p: Path)
    requires mask <= 32
    ensures |p| == if addr == "0.0.0.0" then 0 else mask
  {
    if addr == "0.0.0.0" then [] else Bits(aton(addr))[..mask]
  }

  class TreeNode {
    var left: TreeNode?
    var right: TreeNode?
    var area: Area
    // The bits on the way here from the root.
    ghost const path: Path

    constructor (ghost path: Path)
      ensures left == null && right == null && area == NO_AREA && this.path == path
    {
      left, right, area := null, null, NO_AREA;
      this.path := path;
    }

    function Child(bit: bool): TreeNode?
      reads this
    {
      if bit then right else left
    }
  }

  class IpArea {
    const root: TreeNode
    const aton: string -> address
    var list: seq<TreeNode>
    ghost var at: map<Path, TreeNode>
    ghost var entries: Entries
    // The nodes given back, in order.
    ghost var deleted: seq<TreeNode>

    /** The links of the node at `p` lead to the nodes one bit further. */
    ghost predicate Linked(p: Path)
      requires p in at
      reads this`at, at.Values
    {
      forall b: bool :: at[p].Child(b) == if p + [b] in at then at[p + [b]] else null
    }

    /** The node at `p` knows its place and holds what was written there last. */
    ghost predicate Holds(p: Path)
      requires p in at
      reads this`at, this`entries, at.Values
    {
      && at[p].path == p && at[p].area == At(entries, p)
      && (p != [] ==> p[..|p| - 1] in at)
    }

    ghost predicate Valid()
      reads this, at.Values
    {
      && [] in at && at[[]] == root && entries.Keys <= at.Keys
      && (forall p {:trigger Linked(p)} :: p in at ==> Linked(p))
      && (forall p {:trigger Holds(p)} :: p in at ==> Holds(p))
      && NoDup(list) && (set n | n in list) == at.Values - {root}
    }

    constructor (aton: string -> address)
      ensures Valid() && entries == map[] && list == [] && deleted == [] && fresh(root) && at.Values == {root}
      ensures this.aton == aton
    {
      this.aton := aton;
      root := new TreeNode([]);
      list, entries, deleted := [], map[], [];
      new;
      at := map[[] := root];
    }

    lemma Found(node: TreeNode)
      requires Valid() && node in at.Values
      ensures node.path in at && at[node.path] == node
    {
      var p :| p in at && at[p] == node;
      assert Holds(p);
    }

    /** Makes the missing child of a node. */
    method Grow(node: TreeNode, bit: bool) returns (child: TreeNode)
      requires Valid() && node in at.Values && node.Child(bit) == null
      modifies this`at, this`list, node`left, node`right
      ensures Valid() && child.path == node.path + [bit] && child in at.Values && fresh(child)
      ensures at.Values == old(at.Values) + {child}
    {
      ghost var q := node.path + [bit];
      Found(node);
      assert Linked(node.path);
      child := new TreeNode(q);
      if bit {
        node.right := child;
      } else {
        node.left := child;
      }
      list := list + [child];
      at := at[q := child];
      ValuesGrow(old(at), q, child);
      Grown(node, bit, child);
      NoDupSnoc(old(list), child);
      assert (set n | n in list) == (set n | n in old(list)) + {child};
    }

    /** The child of a node, made if it is missing. */
    method Descend(node: TreeNode, bit: bool) returns (child: TreeNode)
      requires Valid() && node in at.Values
      modifies this`at, this`list, node`left, node`right
      ensures Valid() && child.path == node.path + [bit] && child in at.Values
      ensures old(at.Values) <= at.Values && fresh(at.Values - old(at.Values))
    {
      Found(node);
      assert Linked(node.path);
      var next := node.Child(bit);
      if next == null {
        child := Grow(node, bit);
      } else {
        child := next;
        assert Holds(node.path + [bit]);
      }
    }

    method Write(node: TreeNode, area: Area)
      requires Valid() && node in at.Values
      modifies node`area, this`entries
      ensures Valid() && entries == old(entries)[node.path := area]
    {
      Found(node);
      node.area := area;
      entries := entries[node.path := area];
      forall p | p in at ensures Holds(p) { assert old(Holds(p)); }
      forall p | p in at ensures Linked(p) { assert old(Linked(p)); }
    }

    method AddTree(country: string, province: string, city: string, addr: string, mask: nat) returns (ret: int)
      requires Valid() && mask <= 32
      modifies this`at, this`list, this`entries, at.Values
      ensures Valid() && ret == 0 && entries == old(entries)[Prefix(aton, addr, mask) := Area(country, province, city)]
      ensures old(at.Values) <= at.Values && fresh(at.Values - old(at.Values))
    {
      hide Bit, Linked;
      var node := root;
      assert Holds([]);
      if addr != "0.0.0.0" {
        ghost var bits := Bits(aton(addr));
        for i := 0 to mask
          invariant Valid() && entries == old(entries) && node in at.Values && node.path == bits[..i]
          invariant old(at.Values) <= at.Values && fresh(at.Values - old(at.Values))
        {
          node := Descend(node, Bit(aton(addr), i));
          assert bits[..i + 1] == bits[..i] + [Bit(aton(addr), i)];
        }
      }
      Write(node, Area(country, province, city));
      return 0;
    }

    /** The loop of `Init` over the records of the file. */
    method Init(rs: seq<Record>)
      requires Valid() && entries == map[] && forall j :: 0 <= j < |rs| ==> rs[j].mask <= 32
      modifies this`at, this`list, this`entries, at.Values
      ensures Valid() && entries == Written(Inserts(aton, rs))
    {
      hide Linked, Holds, Prefix;
      for i := 0 to |rs|
        invariant Valid() && fresh(at.Values - old(at.Values)) && entries == Written(Inserts(aton, rs[..i]))
      {
        var r := rs[i];
        InsertsNext(aton, rs, i);
        var ret := AddTree(r.country, r.province, r.city, r.addr, r.mask);
      }
      assert rs[..|rs|] == rs;
    }

    /** No prefix beyond a missing one is stored. */
    lemma {:induction false} MissingBeyond(bits: Path, i: nat, j: nat)
      requires Valid() && i <= j <= |bits| && bits[..i] !in at
      ensures bits[..j] !in at
    {
      if i < j {
        MissingBeyond(bits, i, j - 1);
        assert bits[..j] in at ==> Holds(bits[..j]);
        assert bits[..j][..j - 1] == bits[..j - 1];
      }
    }

    /** Nothing is found beyond a missing prefix. */
    lemma {:induction false} LongestStops(bits: Path, i: nat, n: nat)
      requires Valid() && i < n <= |bits| && bits[..i + 1] !in at
      ensures Longest(entries, bits, n) == Longest(entries, bits, i)
    {
      MissingBeyond(bits, i + 1, n);
      if i + 1 < n { LongestStops(bits, i, n - 1); }
    }

    /** The area of an address: `area` is left as it was if no stored prefix names one. */
    method Get(addr: string, area: string) returns (found: string)
      requires Valid()
      ensures aton(addr) == 0 ==> found == Text(At(entries, []))
      ensures aton(addr) != 0 ==>
        var bits := Bits(aton(addr));
        var k := Longest(entries, bits, 32);
        found == if k == 0 then area else Text(entries[bits[..k]])
    {
      hide Bit;
      var ip := aton(addr);
      var node := root;
      assert Holds([]);
      if ip == 0 {
        return Text(node.area);
      }
      found := area;
      ghost var bits := Bits(ip);
      for i := 0 to 32
        invariant bits[..i] in at && at[bits[..i]] == node
        invariant var k := Longest(entries, bits, i); found == if k == 0 then area else Text(entries[bits[..k]])
      {
        assert bits[..i + 1] == bits[..i] + [Bit(ip, i)];
        assert Linked(bits[..i]);
        var next := node.Child(Bit(ip, i));
        if next == null {
          LongestStops(bits, i, 32);
          return;
        }
        node := next;
        assert Holds(bits[..i + 1]);
        if node.area.city != "" {
          found := Text(node.area);
        }
      }
    }

    /** Every node but the root is given back once, and the root is cleared. */
    method Clear()
      requires Valid()
      modifies this, root
      ensures Valid() && entries == map[] && at.Values == {root} && list == []
      ensures deleted == old(deleted) + old(list)
    {
      for i := 0 to |list|
        invariant list == old(list) && deleted == old(deleted) + list[..i]
      {
        deleted := deleted + [list[i]];
      }
      assert list[..|list|] == list;
      assert old(Holds([]));
      list := [];
      root.left, root.right, root.area := null, null, NO_AREA;
      entries, at := map[], map[[] := root];
    }

    twostate lemma Grown(node: TreeNode, new bit: bool, new child: TreeNode)
      requires old(Valid()) && old(node in at.Values && node.path in at && at[node.path] == node)
      requires node.path + [bit] !in old(at) && at == old(at)[node.path + [bit] := child] && entries == old(entries)
      requires child !in old(at.Values) && child.path == node.path + [bit] && child.area == NO_AREA
      requires child.left == null && child.right == null
      requires forall n :: n in old(at.Values) ==>
        n.area == old(n.area) && (n != node ==> n.left == old(n.left) && n.right == old(n.right))
      requires node.Child(bit) == child && node.Child(!bit) == old(node.Child(!bit))
      ensures forall p {:trigger Linked(p)} :: p in at ==> Linked(p)
      ensures forall p {:trigger Holds(p)} :: p in at ==> Holds(p)
    {
      var q := node.path + [bit];
      forall p | p in at ensures Holds(p) {
        if p != q { assert old(Holds(p)); }
      }
      forall p | p in at ensures Linked(p) {
        forall b: bool ensures at[p].Child(b) == if p + [b] in at then at[p + [b]] else null {
          assert (p + [b])[..|p|] == p && (p + [b])[|p|] == b && q[..|q| - 1] == node.path;
          if p == q {
            assert p + [b] in at ==> old(Holds(p + [b]));
          } else {
            assert old(Linked(p));
            assert p + [b] == q ==> p == node.path && b == bit;
            if at[p] == node { assert old(Holds(p)); }
          }
        }
      }
    }
  }

  lemma ValuesGrow<K, V>(m: map<K, V>, k: K, v: V)
    requires k !in m
    ensures m[k := v].Values == m.Values + {v}
  {
    var r := m[k := v];
    forall x | x in m.Values ensures x in r.Values {
      var j :| j in m && m[j] == x;
      assert r[j] == x;
    }
    assert r[k] == v;
  }

  // ---------- what an address finds ----------

  /** An insertion, in the order of the file. */
  datatype Insert = Insert(path: Path, area: Area)

  /** The entries after a series of insertions. */
  function Written(ws: seq<Insert>): Entries {
    if ws == [] then map[] else Written(ws[..|ws| - 1])[ws[|ws| - 1].path := ws[|ws| - 1].area]
  }

  /** `i` is the latest insertion at prefix `p`. */
  predicate Latest(ws: seq<Insert>, i: nat, p: Path) {
    i < |ws| && ws[i].path == p && forall j :: i < j < |ws| ==> ws[j].path != p
  }

  lemma {:induction false} LatestWins(ws: seq<Insert>, i: nat, p: Path)
    requires Latest(ws, i, p)
    ensures p in Written(ws) && Written(ws)[p] == ws[i].area
  {
    var n := |ws| - 1;
    if i < n {
      assert Latest(ws[..n], i, p);
      LatestWins(ws[..n], i, p);
    }
  }

  lemma {:induction false} LongestIs(m: Entries, bits: Path, n: nat, k: nat)
    requires k <= n <= |bits| && (k > 0 ==> Named(m, bits[..k]))
    requires forall j :: k < j <= n ==> !Named(m, bits[..j])
    ensures Longest(m, bits, n) == k
  {
    if k < n { LongestIs(m, bits, n - 1, k); }
  }

  /** An insertion at a prefix changes only what the addresses under that prefix find; one at the root, none. */
  lemma InsertElsewhere(m: Entries, p: Path, area: Area, bits: Path, n: nat)
    requires n <= |bits| && (p == [] || |p| > n || p != bits[..|p|])
    ensures Longest(m[p := area], bits, n) == Longest(m, bits, n)
  {
    var k := Longest(m, bits, n);
    forall j | 0 < j <= n ensures Named(m[p := area], bits[..j]) == Named(m, bits[..j]) {
      assert |bits[..j]| == j;
    }
    LongestIs(m[p := area], bits, n, k);
  }

  /** Under the prefix the new area is found exactly if nothing longer is, when it has a city. */
  lemma InsertFound(m: Entries, k: nat, area: Area, bits: Path, n: nat)
    requires 0 < k <= n <= |bits| && area.city != ""
    ensures Longest(m[bits[..k] := area], bits, n) == if Longest(m, bits, n) <= k then k else Longest(m, bits, n)
  {
    var old', p := Longest(m, bits, n), bits[..k];
    forall j | 0 < j <= n && j != k ensures Named(m[p := area], bits[..j]) == Named(m, bits[..j]) {
      assert |bits[..j]| == j && |p| == k;
    }
    LongestIs(m[p := area], bits, n, if old' <= k then k else old');
  }

  // ---------- in terms of network numbers ----------

  /** What a record of the file says. */
  datatype Record = Record(country: string, province: string, city: string, addr: string, mask: nat)

  function AreaOf(r: Record): Area {
    Area(r.country, r.province, r.city)
  }

  function Inserts(aton: string -> address, rs: seq<Record>): (ws: seq<Insert>)
    requires forall j :: 0 <= j < |rs| ==> rs[j].mask <= 32
    ensures |ws| == |rs|
    ensures forall j :: 0 <= j < |ws| ==> ws[j] == Insert(Prefix(aton, rs[j].addr, rs[j].mask), AreaOf(rs[j]))
  {
    seq(|rs|, j requires 0 <= j < |rs| => Insert(Prefix(aton, rs[j].addr, rs[j].mask), AreaOf(rs[j])))
  }

  lemma InsertsNext(aton: string -> address, rs: seq<Record>, i: nat)
    requires i < |rs| && forall j :: 0 <= j < |rs| ==> rs[j].mask <= 32
    ensures Written(Inserts(aton, rs[..i + 1]))
         == Written(Inserts(aton, rs[..i]))[Prefix(aton, rs[i].addr, rs[i].mask) := AreaOf(rs[i])]
  {
    var ws := Inserts(aton, rs[..i + 1]);
    assert ws[..|ws| - 1] == Inserts(aton, rs[..i]);
  }

  /** Two addresses are in the same network of `mask` bits. */
  ghost predicate SameNetwork(a: address, b: address, mask: nat)
    requires mask <= 32
  {
    HalfPositive(32 - mask);
    a / Half(32 - mask) == b / Half(32 - mask)
  }

  /** The address is in the record's network; records for the zero address are in no network. */
  ghost predicate Covers(aton: string -> address, r: Record, ip: address) {
    r.addr != "0.0.0.0" && 0 < r.mask <= 32 && SameNetwork(ip, aton(r.addr), r.mask)
  }

  /** No later record is for the same network. */
  ghost predicate Current(aton: string -> address, rs: seq<Record>, j: nat) {
    j < |rs| && forall k :: j < k < |rs| ==>
      !(rs[k].addr != "0.0.0.0" && rs[k].mask == rs[j].mask && Covers(aton, rs[k], aton(rs[j].addr)))
  }

  /** The record has a city for the address. */
  ghost predicate Offers(aton: string -> address, rs: seq<Record>, ip: address, j: nat) {
    j < |rs| && Covers(aton, rs[j], ip) && Current(aton, rs, j) && rs[j].city != ""
  }

  /** And no other one that has is for a smaller network. */
  ghost predicate Wins(aton: string -> address, rs: seq<Record>, ip: address, j: nat) {
    Offers(aton, rs, ip, j) && forall k: nat :: Offers(aton, rs, ip, k) ==> rs[k].mask <= rs[j].mask
  }

  /** An insertion writes at the first `n` bits of an address exactly if that is in its network of `n` bits. */
  lemma PrefixIs(aton: string -> address, r: Record, ip: address, n: nat)
    requires r.mask <= 32 && 0 < n <= 32
    ensures Prefix(aton, r.addr, r.mask) == Bits(ip)[..n] <==> r.mask == n && Covers(aton, r, ip)
  {
    hide Bit;
    if r.addr != "0.0.0.0" && r.mask == n { SamePrefix(ip, aton(r.addr), n); }
  }

  lemma {:induction false} WrittenIs(ws: seq<Insert>, p: Path) returns (i: nat)
    requires p in Written(ws)
    ensures Latest(ws, i, p) && Written(ws)[p] == ws[i].area
  {
    var n := |ws| - 1;
    if ws[n].path == p {
      i := n;
    } else {
      i := WrittenIs(ws[..n], p);
    }
  }

  /** The record that offers a city is the latest insertion at its prefix of the address. */
  lemma OfferIsLatest(aton: string -> address, rs: seq<Record>, ip: address, j: nat)
    requires j < |rs| && Covers(aton, rs[j], ip) && forall k :: 0 <= k < |rs| ==> rs[k].mask <= 32
    ensures Current(aton, rs, j) <==> Latest(Inserts(aton, rs), j, Bits(ip)[..rs[j].mask])
  {
    hide Bit, Prefix, SameNetwork, Bits;
    var n, ws := rs[j].mask, Inserts(aton, rs);
    PrefixIs(aton, rs[j], ip, n);
    forall k | j < k < |rs|
      ensures ws[k].path == Bits(ip)[..n]
        <==> rs[k].addr != "0.0.0.0" && rs[k].mask == n && Covers(aton, rs[k], aton(rs[j].addr))
    {
      PrefixIs(aton, rs[k], ip, n);
      SameTransitive(ip, aton(rs[j].addr), aton(rs[k].addr), n);
    }
  }

  lemma SameTransitive(a: address, b: address, c: address, n: nat)
    requires n <= 32 && SameNetwork(a, b, n)
    ensures SameNetwork(a, c, n) <==> SameNetwork(b, c, n)
  {
  }

  /** A stored prefix of the address with a city is that of a record that offers one. */
  lemma NamedIsOffer(aton: string -> address, rs: seq<Record>, ip: address, n: nat) returns (j: nat)
    requires 0 < n <= 32 && forall k :: 0 <= k < |rs| ==> rs[k].mask <= 32
    requires Named(Written(Inserts(aton, rs)), Bits(ip)[..n])
    ensures Offers(aton, rs, ip, j) && rs[j].mask == n
    ensures Written(Inserts(aton, rs))[Bits(ip)[..n]] == AreaOf(rs[j])
  {
    hide Bit, Prefix, Bits, Covers, Current;
    j := WrittenIs(Inserts(aton, rs), Bits(ip)[..n]);
    PrefixIs(aton, rs[j], ip, n);
    OfferIsLatest(aton, rs, ip, j);
  }

  lemma OfferIsNamed(aton: string -> address, rs: seq<Record>, ip: address, j: nat)
    requires Offers(aton, rs, ip, j) && forall k :: 0 <= k < |rs| ==> rs[k].mask <= 32
    ensures 0 < rs[j].mask <= 32 && Named(Written(Inserts(aton, rs)), Bits(ip)[..rs[j].mask])
    ensures Written(Inserts(aton, rs))[Bits(ip)[..rs[j].mask]] == AreaOf(rs[j])
  {
    hide Bit, Prefix, Bits, SameNetwork;
    OfferIsLatest(aton, rs, ip, j);
    LatestWins(Inserts(aton, rs), j, Bits(ip)[..rs[j].mask]);
  }

  /** What is found for an address: the area of the smallest network that has a city, in its latest record. */
  lemma FoundIs(aton: string -> address, rs: seq<Record>, ip: address)
    requires forall k :: 0 <= k < |rs| ==> rs[k].mask <= 32
    ensures var m, bits := Written(Inserts(aton, rs)), Bits(ip);
      var n := Longest(m, bits, 32);
      if n == 0 then forall j: nat :: !Offers(aton, rs, ip, j)
      else exists j: nat :: Wins(aton, rs, ip, j) && j < |rs| && m[bits[..n]] == AreaOf(rs[j])
  {
    hide Bit, Prefix, Bits, Offers;
    var m, bits := Written(Inserts(aton, rs)), Bits(ip);
    assert |bits| == 32;
    var n := Longest(m, bits, 32);
    forall j: nat | Offers(aton, rs, ip, j) ensures j < |rs| && 0 < rs[j].mask <= n {
      OfferBounds(aton, rs, ip, j);
      OfferIsNamed(aton, rs, ip, j);
    }
    if n > 0 {
      var j := NamedIsOffer(aton, rs, ip, n);
      assert Wins(aton, rs, ip, j);
    }
  }

  lemma OfferBounds(aton: string -> address, rs: seq<Record>, ip: address, j: nat)
    requires Offers(aton, rs, ip, j)
    ensures j < |rs| && 0 < rs[j].mask <= 32
  {
  }

  /** The record is for the zero address or for no bits, so it writes at the root. */
  ghost predicate ForRoot(r: Record) {
    r.addr == "0.0.0.0" || r.mask == 0
  }

  /** It is the last of those. */
  ghost predicate LastForRoot(rs: seq<Record>, j: nat) {
    j < |rs| && ForRoot(rs[j]) && forall k :: j < k < |rs| ==> !ForRoot(rs[k])
  }

  /** What is found for the zero address: the latest record for it or for no bits. */
  lemma RootIs(aton: string -> address, rs: seq<Record>)
    requires forall k :: 0 <= k < |rs| ==> rs[k].mask <= 32
    ensures var a := At(Written(Inserts(aton, rs)), []);
      if exists j :: 0 <= j < |rs| && ForRoot(rs[j]) then exists j: nat :: LastForRoot(rs, j) && a == AreaOf(rs[j])
      else a == NO_AREA
  {
    hide Bits;
    var ws := Inserts(aton, rs);
    assert forall j :: 0 <= j < |rs| ==> (ws[j].path == [] <==> ForRoot(rs[j]));
    if [] in Written(ws) {
      var j := WrittenIs(ws, []);
      assert LastForRoot(rs, j);
    } else if j :| 0 <= j < |rs| && ForRoot(rs[j]) {
      NotWritten(ws, j);
    }
  }

  lemma {:induction false} NotWritten(ws: seq<Insert>, j: nat)
    requires j < |ws|
    ensures ws[j].path in Written(ws)
  {
    if j < |ws| - 1 { NotWritten(ws[..|ws| - 1], j); }
  }

  /** The answer for an address, from the records alone. */
  ghost predicate Answer(aton: string -> address, rs: seq<Record>, ip: address, area: string, found: string) {
    if ip != 0 then
      if exists j: nat :: Offers(aton, rs, ip, j)
      then exists j: nat :: Wins(aton, rs, ip, j) && found == Text(AreaOf(rs[j]))
      else found == area
    else
      if exists j :: 0 <= j < |rs| && ForRoot(rs[j])
      then exists j: nat :: LastForRoot(rs, j) && found == Text(AreaOf(rs[j]))
      else found == Text(NO_AREA)
  }

  lemma AnswerIs(aton: string -> address, rs: seq<Record>, ip: address, area: string, found: string)
    requires forall k :: 0 <= k < |rs| ==> rs[k].mask <= 32
    requires var m, bits := Written(Inserts(aton, rs)), Bits(ip);
      var n := Longest(m, bits, 32);
      found == if ip == 0 then Text(At(m, [])) else if n == 0 then area else Text(m[bits[..n]])
    ensures Answer(aton, rs, ip, area, found)
  {
    hide Offers, Bits, Text, ForRoot, LastForRoot;
    if ip == 0 {
      RootIs(aton, rs);
    } else {
      FoundIs(aton, rs, ip);
      var m, bits := Written(Inserts(aton, rs)), Bits(ip);
      var n := Longest(m, bits, 32);
      assert |bits| == 32;
      if n > 0 {
        var j: nat :| Wins(aton, rs, ip, j) && j < |rs| && m[bits[..n]] == AreaOf(rs[j]);
        assert Offers(aton, rs, ip, j);
      }
    }
  }

  /** A trie filled from the records, and what it finds for an address. */
  method FillThenGet(aton: string -> address, rs: seq<Record>, addr: string, area: string) returns (found: string)
    requires forall k :: 0 <= k < |rs| ==> rs[k].mask <= 32
    ensures Answer(aton, rs, aton(addr), area, found)
  {
    hide Answer, Bits, Text;
    var trie := new IpArea(aton);
    trie.Init(rs);
    found := trie.Get(addr, area);
    AnswerIs(aton, rs, aton(addr), area, found);
  }

  /** What one more insertion changes. */
  method AddThenGet(trie: IpArea, r: Record, addr: string, area: string) returns (before: string, after: string)
    requires trie.Valid() && r.mask <= 32 && r.city != ""
    modifies trie, trie.at.Values
    ensures var ip := trie.aton(addr);
      var longer := exists n :: r.mask < n <= 32 && Named(old(trie.entries), Bits(ip)[..n]);
      && (ip != 0 ==> after == if Covers(trie.aton, r, ip) && !longer then Text(AreaOf(r)) else before)
      && (ip == 0 ==> after == if ForRoot(r) then Text(AreaOf(r)) else before)
  {
    before := trie.Get(addr, area);
    ghost var m := trie.entries;
    var ret := trie.AddTree(r.country, r.province, r.city, r.addr, r.mask);
    after := trie.Get(addr, area);
    InsertChanges(trie.aton, m, r, trie.aton(addr));
  }

  lemma InsertChanges(aton: string -> address, m: Entries, r: Record, ip: address)
    requires r.mask <= 32 && r.city != ""
    ensures var p, bits, n := Prefix(aton, r.addr, r.mask), Bits(ip), Longest(m, Bits(ip), 32);
      var m' := m[p := AreaOf(r)];
      var longer := exists k :: r.mask < k <= 32 && Named(m, bits[..k]);
      && (if Covers(aton, r, ip) && !longer then p == bits[..r.mask] && Longest(m', bits, 32) == r.mask > 0
          else Longest(m', bits, 32) == n && (n > 0 ==> m'[bits[..n]] == m[bits[..n]]))
      && (p == [] <==> ForRoot(r))
  {
    hide Bit, Bits;
    var p, bits, n := Prefix(aton, r.addr, r.mask), Bits(ip), Longest(m, Bits(ip), 32);
    assert |bits| == 32;
    if Covers(aton, r, ip) {
      PrefixIs(aton, r, ip, r.mask);
      InsertFound(m, r.mask, AreaOf(r), bits, 32);
      assert n > r.mask <==> exists k :: r.mask < k <= 32 && Named(m, bits[..k]);
    } else {
      if p != [] { PrefixIs(aton, r, ip, |p|); }
      InsertElsewhere(m, p, AreaOf(r), bits, 32);
    }
  }
}
