/** The consistent-hash ring of `conhash.c` and `conhash_inter.c`: a red-black tree of
    virtual nodes, each holding its hash and the server it belongs to.  */
module ConHash {
  import opened RbTree
  import opened Seqs
  import opened Spans
  import opened Ring

  const NODE_FLAG_INIT: bv32 := 0x01
  const NODE_FLAG_IN: bv32 := 0x02

  class ServerNode {
    var iden: string
    var replicas: nat
    var flag: bv32

    constructor ()
    {
      iden, replicas, flag := "", 0, 0;
    }
  }

  class VirtualNode {
    const hash: int
    const node: ServerNode

    constructor (hash: int, node: ServerNode)
      ensures this.hash == hash && this.node == node
    {
      this.hash, this.node := hash, node;
    }
  }

  // ---------- a sequence of tree nodes as a ring ----------

  ghost predicate IsVnode(n: Node)
    reads n`key, n`data
  {
    n.data is VirtualNode && (n.data as VirtualNode).hash == n.key
  }

  ghost predicate Vnodes(s: seq<Node>)
    reads s`key, s`data
  {
    forall n :: n in s ==> IsVnode(n)
  }

  /** No node twice and no key twice. */
  ghost predicate KeysDistinct(s: seq<Node>)
    reads s`key
  {
    NoDup<Node>(s) && forall a, b :: a in s && b in s && a.key == b.key ==> a == b
  }

  ghost function ServerOf(n: Node): ServerNode
    requires IsVnode(n)
    reads n`key, n`data
  {
    (n.data as VirtualNode).node
  }

  /** The owners by key. */
  ghost function RingOf(s: seq<Node>): map<int, ServerNode>
    requires Vnodes(s)
    reads s`key, s`data
  {
    if s == [] then map[]
    else RingOf(s[1..])[s[0].key := ServerOf(s[0])]
  }

  lemma {:induction false} RingHas(s: seq<Node>, n: Node)
    requires Vnodes(s) && KeysDistinct(s) && n in s
    ensures n.key in RingOf(s) && RingOf(s)[n.key] == ServerOf(n)
  {
    if n != s[0] {
      assert s == [s[0]] + s[1..];
      DistinctTail(s);
      RingHas(s[1..], n);
    }
  }

  lemma DistinctTail(s: seq<Node>)
    requires KeysDistinct(s) && s != []
    ensures KeysDistinct(s[1..]) && s[0] !in s[1..]
  {
    assert forall i :: 0 <= i < |s[1..]| ==> s[1..][i] == s[i + 1];
  }

  lemma {:induction false} RingFrom(s: seq<Node>, k: int) returns (n: Node)
    requires Vnodes(s) && k in RingOf(s)
    ensures n in s && n.key == k
  {
    if s[0].key == k {
      n := s[0];
    } else {
      n := RingFrom(s[1..], k);
    }
  }

  lemma {:induction false} RingSize(s: seq<Node>)
    requires Vnodes(s) && KeysDistinct(s)
    ensures |RingOf(s)| == |s|
  {
    if s != [] {
      DistinctTail(s);
      RingSize(s[1..]);
      if s[0].key in RingOf(s[1..]) {
        var n := RingFrom(s[1..], s[0].key);
        assert false;
      }
    }
  }

  lemma {:induction false} InsertedElements(s: seq<Node>, node: Node)
    ensures node in Inserted(s, node)
    ensures forall n :: n in s ==> n in Inserted(s, node)
    ensures forall n :: n in Inserted(s, node) ==> n == node || n in s
  {
    if s != [] && s[0].key <= node.key {
      InsertedElements(s[1..], node);
      assert s == [s[0]] + s[1..];
    }
  }

  lemma {:induction false} InsertedOnce(s: seq<Node>, node: Node)
    requires NoDup<Node>(s) && node !in s
    ensures NoDup<Node>(Inserted(s, node))
  {
    if s != [] && s[0].key <= node.key {
      var r := s[1..];
      assert NoDup<Node>(r) && s[0] !in r by { assert forall i :: 0 <= i < |r| ==> r[i] == s[i + 1]; }
      InsertedOnce(r, node);
      InsertedElements(r, node);
      assert s[0] !in Inserted(r, node);
    }
  }

  /** Two sequences of virtual nodes that differ in `x` only give rings that differ in its key only. */
  lemma RingDiffers(s: seq<Node>, t: seq<Node>, x: Node)
    requires Vnodes(s) && KeysDistinct(s) && NoDup<Node>(t) && IsVnode(x) && x in t && x !in s
    requires (forall n :: n in s ==> n in t) && (forall n :: n in t ==> n == x || n in s)
    requires forall n :: n in s ==> n.key != x.key
    ensures Vnodes(t) && KeysDistinct(t)
    ensures x.key !in RingOf(s) && RingOf(t) == RingOf(s)[x.key := ServerOf(x)]
  {
    var m, m' := RingOf(s), RingOf(t);
    RingHas(t, x);
    if x.key in m { var n := RingFrom(s, x.key); }
    forall k | k in m ensures k in m' && m'[k] == m[k] {
      var n := RingFrom(s, k);
      RingHas(s, n);
      RingHas(t, n);
    }
    forall k | k in m' ensures k == x.key || k in m {
      var n := RingFrom(t, k);
      if n != x { RingHas(s, n); }
    }
  }

  /** Inserting a virtual node with a new key adds its entry to the ring. */
  lemma RingInserted(s: seq<Node>, node: Node)
    requires Vnodes(s) && KeysDistinct(s) && node !in s && IsVnode(node)
    requires forall n :: n in s ==> n.key != node.key
    ensures Vnodes(Inserted(s, node)) && KeysDistinct(Inserted(s, node))
    ensures node.key !in RingOf(s) && RingOf(Inserted(s, node)) == RingOf(s)[node.key := ServerOf(node)]
  {
    InsertedElements(s, node);
    InsertedOnce(s, node);
    RingDiffers(s, Inserted(s, node), node);
  }

  /** Deleting a virtual node removes its entry from the ring. */
  lemma RingDeleted(s: seq<Node>, node: Node)
    requires Vnodes(s) && KeysDistinct(s) && node in s
    ensures var t := Subst<Node>(s, node, []);
      Vnodes(t) && KeysDistinct(t) && RingOf(t) == RingOf(s) - {node.key}
  {
    DeletedNodes(s, node);
    var t := Subst<Node>(s, node, []);
    assert Vnodes(t) && KeysDistinct(t);
    RingDiffers(t, s, node);
    PutAndTaken(RingOf(t), node.key, ServerOf(node));
  }

  lemma PutAndTaken(m: map<int, ServerNode>, k: int, v: ServerNode)
    requires k !in m
    ensures m[k := v] - {k} == m
  {
  }

  /** Nodes that keep their keys and data stand for the same ring. */
  twostate lemma RingKept(s: seq<Node>)
    requires forall n :: n in s ==> n.key == old(n.key) && n.data == old(n.data)
    ensures Vnodes(s) == old(Vnodes(s)) && KeysDistinct(s) == old(KeysDistinct(s))
    ensures Vnodes(s) ==> RingOf(s) == old(RingOf(s))
  {
  }

  /** The tree's successor search finds the key that serves the hash. */
  lemma RingServes(s: seq<Node>, h: int, i: int)
    requires Vnodes(s) && KeysDistinct(s) && KeySorted(s) && IsSuccessor(s, h, i)
    ensures Owner(RingOf(s), h) == Some(ServerOf(s[i]))
  {
    var m := RingOf(s);
    RingHas(s, s[i]);
    forall j | j in m ensures (s[i].key < h ==> s[i].key <= j < h) && (h <= s[i].key && h <= j ==> s[i].key <= j) {
      var n := RingFrom(s, j);
      var x :| 0 <= x < |s| && s[x] == n;
      if h <= s[i].key && x < i { assert s[..i][x] == s[x]; }
    }
    assert Serves(m, h, s[i].key);
  }

  // ---------- the ring itself ----------

  class ConHash {
    const tree: Tree
    var ivnodes: int
    const hashFunction: string -> int
    const node2string: (string, nat) -> string
    // The servers that are in the ring, with or without a virtual node.
    ghost var servers: set<ServerNode>

    /** The key of replica `i` of a server of that name. */
    function Key(iden: string, i: nat): int {
      hashFunction(node2string(iden, i))
    }

    /** The keys of the replicas of `node`, in order. */
    ghost function Replicas(node: ServerNode): (hs: seq<int>)
      reads node`iden, node`replicas
      ensures |hs| == node.replicas && forall i :: 0 <= i < |hs| ==> hs[i] == Key(node.iden, i)
    {
      var iden := node.iden;
      seq(node.replicas, i requires 0 <= i => Key(iden, i))
    }

    ghost function Owners(): map<int, ServerNode>
      requires Vnodes(tree.Elements())
      reads tree`root, tree.root, tree.Elements()`key, tree.Elements()`data
    {
      RingOf(tree.Elements())
    }

    ghost predicate In(s: ServerNode)
      reads s
    {
      s.flag & NODE_FLAG_INIT != 0 && s.flag & NODE_FLAG_IN != 0
    }

    /** Every key belongs to a server of the ring, at one of its replica keys. */
    ghost predicate Covered(m: map<int, ServerNode>)
      reads this`servers, servers`iden, servers`replicas
    {
      forall k :: k in m ==> m[k] in servers && k in Replicas(m[k])
    }

    /** No link of the tree leads to a released node. */
    ghost predicate Anchored()
      reads tree`stale
    {
      tree.stale == tree.nil
    }

    /** The memory that the allocator hands out for the replicas of `node`, one cell each. It is not in use, but it may
        have been used and released before, by any server and under any key. */
    ghost predicate Memory(node: ServerNode, cells: seq<Node>)
      reads node`replicas, tree`nodes
    {
      |cells| == node.replicas && NoDup<Node>(cells) && forall c :: c in cells ==> c !in tree.nodes && c != tree.nil
    }

    /** The tree stands for a ring of the servers. */
    ghost predicate Ringed()
      reads this`servers, servers`iden, servers`replicas, tree, tree.root, tree.nodes, tree.nil, tree.stale
    {
      tree.Valid() && Vnodes(tree.Elements()) && KeysDistinct(tree.Elements()) && Covered(Owners())
    }

    /** All of the invariant but the flags. */
    ghost predicate Sound()
      reads this, servers`iden, servers`replicas, tree, tree.root, tree.nodes, tree.nil, tree.stale
    {
      Ringed() && ivnodes == tree.size && (ivnodes == 0 ==> Anchored())
    }

    ghost predicate Valid()
      reads this, servers, tree, tree.root, tree.nodes, tree.nil, tree.stale
    {
      Sound() && forall s :: s in servers ==> In(s)
    }

    /** `conhash_init`: the given hash function, or the default one. */
    constructor (hash: Option<string -> int>, default: string -> int, node2string: (string, nat) -> string)
      ensures Valid() && Anchored() && Owners() == map[] && servers == {} && tree.nodes == {}
      ensures fresh(tree) && fresh(tree.nil)
      ensures hashFunction == (if hash.Some? then hash.value else default) && this.node2string == node2string
    {
      tree := new Tree();
      ivnodes := 0;
      var chosen: string -> int := if hash.Some? then hash.value else default;
      hashFunction := chosen;
      this.node2string := node2string;
      servers := {};
    }

    /** `__conhash_get_rbnode`: a cell is filled in, whatever it held before. */
    method FillCell(node: ServerNode, hash: int, cell: Node)
      modifies cell`key, cell`data
      ensures cell.key == hash && IsVnode(cell) && ServerOf(cell) == node
    {
      cell.key := hash;
      cell.data := new VirtualNode(hash, node);
    }

    /** Lines 52-55: the tree stays valid unless the cell is the released node that the root's parent link leads to. */
    method PutVnode(node: ServerNode, hash: int, cell: Node)
      requires tree.Valid() && Vnodes(tree.Elements()) && KeysDistinct(tree.Elements())
      requires cell !in tree.nodes && cell != tree.nil
      requires forall n :: n in tree.Elements() ==> n.key != hash
      modifies tree, tree.nodes, cell
      ensures tree.Shaped() && tree.nodes == old(tree.nodes) + {cell} && tree.size == old(tree.size) + 1
      ensures tree.Valid() <==> old(tree.root) == tree.nil || cell != old(tree.stale)
      ensures tree.stale == if old(tree.root) == tree.nil then tree.nil else old(tree.stale)
      ensures tree.root.parent == tree.stale
      ensures Vnodes(tree.Elements()) && KeysDistinct(tree.Elements())
      ensures hash !in old(Owners()) && Owners() == old(Owners())[hash := node]
      ensures cell.key == hash && forall n :: n in old(tree.nodes) ==> n.key == old(n.key)
      ensures old(tree.size) == 1 ==> tree.root == old(tree.root)
    {
      ghost var s := tree.Elements();
      FillCell(node, hash, cell);
      RingKept(s);
      PutFilled(node, cell);
    }

    method PutFilled(node: ServerNode, cell: Node)
      requires tree.Valid() && Vnodes(tree.Elements()) && KeysDistinct(tree.Elements())
      requires cell !in tree.nodes && cell != tree.nil && IsVnode(cell) && ServerOf(cell) == node
      requires forall n :: n in tree.Elements() ==> n.key != cell.key
      modifies tree, tree.nodes, cell
      ensures tree.Shaped() && tree.nodes == old(tree.nodes) + {cell} && tree.size == old(tree.size) + 1
      ensures tree.Valid() <==> old(tree.root) == tree.nil || cell != old(tree.stale)
      ensures tree.stale == if old(tree.root) == tree.nil then tree.nil else old(tree.stale)
      ensures tree.root.parent == tree.stale
      ensures Vnodes(tree.Elements()) && KeysDistinct(tree.Elements())
      ensures cell.key !in old(Owners()) && Owners() == old(Owners())[cell.key := node]
      ensures cell.key == old(cell.key) && forall n :: n in old(tree.nodes) ==> n.key == old(n.key)
      ensures old(tree.size) == 1 ==> tree.root == old(tree.root)
    {
      ghost var t := Inserted(tree.Elements(), cell);
      RingInserted(tree.Elements(), cell);
      hide *;
      InsertCell(cell);
      RingKept(t);
    }

    method InsertCell(cell: Node)
      requires tree.Valid() && cell !in tree.nodes && cell != tree.nil
      modifies tree, tree.nodes, cell
      ensures tree.Shaped() && tree.nodes == old(tree.nodes) + {cell} && tree.size == old(tree.size) + 1
      ensures tree.Valid() <==> old(tree.root) == tree.nil || cell != old(tree.stale)
      ensures tree.stale == if old(tree.root) == tree.nil then tree.nil else old(tree.stale)
      ensures tree.root.parent == tree.stale && tree.Elements() == old(Inserted(tree.Elements(), cell))
      ensures forall n :: n in tree.nodes ==> n.key == old(n.key) && n.data == old(n.data)
      ensures forall n :: n in tree.Elements() ==> n in tree.nodes
      ensures old(tree.size) == 1 ==> tree.root == old(tree.root)
    {
      tree.Insert(cell);
    }

    /** The virtual node of a key, null if the key is free. */
    method Find(hash: int) returns (r: Node?)
      requires Sound()
      ensures Sound() && Owners() == old(Owners()) && Vnodes(tree.Elements())
      ensures r == null ==> hash !in Owners() && forall n :: n in tree.Elements() ==> n.key != hash
      ensures r != null ==> r in tree.nodes && IsVnode(r) && r.key == hash
      ensures r != null ==> hash in Owners() && Owners()[hash] == ServerOf(r)
    {
      ghost var steps;
      r, steps := tree.Search(hash);
      RingKept(tree.Elements());
      if r != null {
        RingHas(tree.Elements(), r);
      } else if hash in Owners() {
        ghost var n := RingFrom(tree.Elements(), hash);
      }
    }

    /** Lines 52-57: a free key gets a virtual node. */
    method PutReplica(node: ServerNode, hash: int, cell: Node)
      requires Sound() && node in servers && hash in Replicas(node)
      requires cell !in tree.nodes && cell !in {tree.nil, tree.stale}
      requires forall n :: n in tree.Elements() ==> n.key != hash
      modifies this`ivnodes, tree, tree.nodes, cell
      ensures Sound() && tree.nodes == old(tree.nodes) + {cell}
      ensures old(Anchored()) ==> Anchored()
      ensures tree.stale == old(tree.stale) || Anchored()
      ensures hash !in old(Owners()) && Owners() == old(Owners())[hash := node]
      ensures cell.key == hash && forall n :: n in old(tree.nodes) ==> n.key == old(n.key)
      ensures old(tree.size) == 1 ==> tree.root == old(tree.root)
    {
      hide RingOf, Vnodes, KeysDistinct, Replicas, Tree.Linked, Tree.Spanned, Tree.AllFine, Tree.Whole, KeySorted;
      assert Covered(Owners()[hash := node]);
      PutVnode(node, hash, cell);
      ivnodes := ivnodes + 1;
    }

    /** The loop body of `__conhash_add_replicas`. */
    method AddReplica(node: ServerNode, i: nat, cell: Node)
      requires Sound() && node in servers && i < node.replicas
      requires cell !in tree.nodes && cell !in {tree.nil, tree.stale}
      modifies this`ivnodes, tree, tree.nodes, cell
      ensures Sound() && old(tree.nodes) <= tree.nodes <= old(tree.nodes) + {cell}
      ensures tree.stale == old(tree.stale) || Anchored()
      ensures Owners() == Added<ServerNode>(old(Owners()), [Key(node.iden, i)], node)
    {
      var hash := hashFunction(node2string(node.iden, i));
      assert hash == Replicas(node)[i];
      var found := Find(hash);
      hide Sound, Owners, Replicas;
      if found == null {
        PutReplica(node, hash, cell);
      }
    }

    /** `__conhash_add_replicas`. */
    method AddReplicas(node: ServerNode, cells: seq<Node>)
      requires Sound() && node in servers && Memory(node, cells) && tree.stale !in cells
      modifies this`ivnodes, tree, tree.nodes, cells
      ensures Sound() && old(tree.nodes) <= tree.nodes <= old(tree.nodes) + set c | c in cells
      ensures tree.stale == old(tree.stale) || Anchored()
      ensures Owners() == Added<ServerNode>(old(Owners()), Replicas(node), node)
    {
      hide RingOf, KeysDistinct, Replicas, Added, Covered, Tree.Shaped, Tree.Rooted;
      AddedNone(Owners(), node);
      ghost var m, hs := Owners(), Replicas(node);
      var i := 0;
      while i < node.replicas
        invariant 0 <= i <= |hs| && hs == Replicas(node)
        invariant Sound() && old(tree.nodes) <= tree.nodes <= old(tree.nodes) + set c | c in cells[..i]
        invariant tree.stale == old(tree.stale) || Anchored()
        invariant Owners() == Added<ServerNode>(m, hs[..i], node)
      {
        AddedStep<ServerNode>(m, hs, i, node);
        NotYetUsed(cells, i, old(tree.nodes), tree.nodes);
        AddReplica(node, i, cells[i]);
        i := i + 1;
      }
      assert hs[..i] == hs;
    }

    /** Line 82 in terms of the ring. */
    method TakeVnode(rbnode: Node)
      requires Ringed() && rbnode in tree.nodes
      modifies tree, tree.nodes, tree.nil
      ensures Ringed() && tree.nodes == old(tree.nodes) - {rbnode} && tree.size == old(tree.size) - 1
      ensures tree.stale == tree.LeftAt(rbnode, old(tree.root), old(tree.stale), old(tree.size))
      ensures forall n :: n in old(tree.nodes) ==> n.key == old(n.key)
      ensures Owners() == old(Owners()) - {old(rbnode.key)}
    {
      assert Covered(Owners() - {rbnode.key});
      hide RingOf, Vnodes, KeysDistinct;
      Unlink(rbnode);
    }

    method Unlink(rbnode: Node)
      requires tree.Valid() && Vnodes(tree.Elements()) && KeysDistinct(tree.Elements()) && rbnode in tree.nodes
      modifies tree, tree.nodes, tree.nil
      ensures tree.Valid() && tree.nodes == old(tree.nodes) - {rbnode} && tree.size == old(tree.size) - 1
      ensures tree.stale == tree.LeftAt(rbnode, old(tree.root), old(tree.stale), old(tree.size))
      ensures forall n :: n in old(tree.nodes) ==> n.key == old(n.key)
      ensures Vnodes(tree.Elements()) && KeysDistinct(tree.Elements())
      ensures Owners() == old(Owners()) - {old(rbnode.key)}
    {
      ghost var t := Subst<Node>(tree.Elements(), rbnode, []);
      RingDeleted(tree.Elements(), rbnode);
      DeletedNodes(tree.Elements(), rbnode);
      hide *;
      DeleteCell(rbnode);
      RingKept(t);
    }

    method DeleteCell(rbnode: Node)
      requires tree.Valid() && rbnode in tree.nodes
      modifies tree, tree.nodes, tree.nil
      ensures tree.Valid() && tree.nodes == old(tree.nodes) - {rbnode} && tree.size == old(tree.size) - 1
      ensures tree.stale == tree.LeftAt(rbnode, old(tree.root), old(tree.stale), old(tree.size))
      ensures tree.Elements() == Subst<Node>(old(tree.Elements()), rbnode, [])
      ensures forall n :: n in old(tree.nodes) ==> n.key == old(n.key) && n.data == old(n.data)
      ensures forall n :: n in tree.Elements() ==> n in old(tree.nodes)
    {
      tree.Delete(rbnode);
    }

    /** Lines 81-83: a virtual node leaves the tree and is released. */
    method DropVnode(rbnode: Node)
      requires Sound() && rbnode in tree.nodes
      modifies this`ivnodes, tree, tree.nodes, tree.nil
      ensures Sound() && tree.nodes == old(tree.nodes) - {rbnode} && ivnodes == old(ivnodes) - 1
      ensures tree.stale == tree.LeftAt(rbnode, old(tree.root), old(tree.stale), old(tree.size))
      ensures forall n :: n in old(tree.nodes) ==> n.key == old(n.key)
      ensures old(Anchored()) && ivnodes != 1 ==> Anchored()
      ensures Owners() == old(Owners()) - {old(rbnode.key)}
    {
      hide Ringed, Owners;
      ivnodes := ivnodes - 1;
      TakeVnode(rbnode);
    }

    /** The loop body of `__conhash_del_replicas`. */
    method DelReplica(node: ServerNode, i: nat)
      requires Sound() && i < node.replicas
      modifies this`ivnodes, tree, tree.nodes, tree.nil
      ensures Sound() && tree.nodes <= old(tree.nodes) && ivnodes <= old(ivnodes)
      ensures old(Anchored()) && ivnodes != 1 ==> Anchored()
      ensures Owners() == Deleted<ServerNode>(old(Owners()), [Key(node.iden, i)], node)
    {
      hide Covered, Replicas, Tree.Rooted;
      var hash := hashFunction(node2string(node.iden, i));
      DeletedOne(Owners(), hash, node);
      var rbnode := Find(hash);
      hide Sound, Owners, Deleted;
      if rbnode != null {
        assert IsVnode(rbnode);
        var vnode := rbnode.data as VirtualNode;
        if vnode.hash == hash && vnode.node == node {
          DropVnode(rbnode);
        }
      }
    }

    /** `__conhash_del_replicas`. */
    method DelReplicas(node: ServerNode)
      requires Sound()
      modifies this`ivnodes, tree, tree.nodes, tree.nil
      ensures Sound() && tree.nodes <= old(tree.nodes) && ivnodes <= old(ivnodes)
      ensures old(Anchored()) && ivnodes != 1 ==> Anchored()
      ensures Owners() == Deleted<ServerNode>(old(Owners()), Replicas(node), node)
    {
      ghost var m, hs := Owners(), Replicas(node);
      var i := 0;
      while i < node.replicas
        invariant 0 <= i <= |hs| && hs == Replicas(node)
        invariant Sound() && tree.nodes <= old(tree.nodes) && ivnodes <= old(ivnodes)
        invariant old(Anchored()) && ivnodes != 1 ==> Anchored()
        invariant Owners() == Deleted<ServerNode>(m, hs[..i], node)
      {
        DeletedStep<ServerNode>(m, hs, i, node);
        DelReplica(node, i);
        i := i + 1;
      }
      assert hs[..i] == hs;
    }

    /** The flag is set before the replicas go in. */
    method MarkIn(node: ServerNode)
      requires Sound() && node.flag & NODE_FLAG_INIT != 0
      modifies node`flag, this`servers
      ensures Sound() && Owners() == old(Owners()) && servers == old(servers) + {node}
      ensures In(node) && Replicas(node) == old(Replicas(node))
    {
      hide RingOf, Vnodes, KeysDistinct, Replicas;
      ghost var m := Owners();
      SetIn(node.flag);
      node.flag := node.flag | NODE_FLAG_IN;
      servers := servers + {node};
      assert Owners() == m && Covered(m);
    }

    /** The flag is cleared before the replicas come out. */
    method MarkOut(node: ServerNode)
      requires Sound() && node.flag & NODE_FLAG_INIT != 0
      modifies node`flag
      ensures Sound() && Owners() == old(Owners()) && Replicas(node) == old(Replicas(node))
      ensures !In(node) && node.flag & NODE_FLAG_INIT != 0
    {
      hide RingOf, Vnodes, KeysDistinct, Replicas;
      ghost var m := Owners();
      ClearIn(node.flag);
      node.flag := node.flag & !NODE_FLAG_IN;
      assert Owners() == m && Covered(m);
    }

    /** A server that owns no key leaves the ring. */
    ghost method Forget(node: ServerNode)
      requires Sound() && forall k :: k in Owners() ==> Owners()[k] != node
      modifies this`servers
      ensures Sound() && Owners() == old(Owners()) && servers == old(servers) - {node}
    {
      hide RingOf, Vnodes, KeysDistinct, Replicas;
      ghost var m := Owners();
      servers := servers - {node};
      assert Owners() == m && Covered(m);
    }

    /** The key that the hash gives for replica `i` is in the ring, and the server's if it was free before. */
    ghost predicate HasReplica(before: map<int, ServerNode>, now: map<int, ServerNode>, node: ServerNode, i: nat)
      reads node`iden
    {
      var k := hashFunction(node2string(node.iden, i));
      k in now && now[k] == if k in before then before[k] else node
    }

    lemma AllReplicas(m: map<int, ServerNode>, node: ServerNode)
      ensures forall i :: 0 <= i < node.replicas ==>
        HasReplica(m, Added<ServerNode>(m, Replicas(node), node), node, i)
    {
      AddedWhole<ServerNode>(m, Replicas(node), node);
      forall i | 0 <= i < node.replicas
        ensures HasReplica(m, Added<ServerNode>(m, Replicas(node), node), node, i)
      {
        assert Replicas(node)[i] in Replicas(node);
      }
    }

    /** A server that is in no ring comes in. */
    method Enter(node: ServerNode, cells: seq<Node>)
      requires Valid() && node.flag & NODE_FLAG_INIT != 0 && node.flag & NODE_FLAG_IN == 0
      requires Memory(node, cells) && tree.stale !in cells
      modifies this, node, tree, tree.nodes, cells
      ensures Valid() && old(tree.nodes) <= tree.nodes <= old(tree.nodes) + set c | c in cells
      ensures tree.stale == old(tree.stale) || Anchored()
      ensures In(node) && node !in old(servers) && servers == old(servers) + {node}
      ensures node.iden == old(node.iden) && node.replicas == old(node.replicas)
      ensures Owners() == Added<ServerNode>(old(Owners()), Replicas(node), node)
      ensures forall h :: Owner<ServerNode>(Owners(), h) in {Owner<ServerNode>(old(Owners()), h), Some(node)}
    {
      ghost var m, hs := Owners(), Replicas(node);
      hide Sound, Owners, Replicas, Added, Owner, Covered, RingOf, Vnodes, KeysDistinct, Memory, NoDup;
      assert node !in servers;
      MarkIn(node);
      assert forall s :: s in servers ==> In(s);
      AddReplicas(node, cells);
      assert Replicas(node) == hs && forall s :: s in servers ==> In(s);
      MovesToNew(m, hs, node);
    }

    /** `conhash_add_node`: 0 if the server is taken in, -1 if it is not initialised or already in. */
    method AddNode(node: ServerNode?, cells: seq<Node>) returns (ret: int)
      requires Valid()
      requires node != null && node.flag & NODE_FLAG_INIT != 0 && node.flag & NODE_FLAG_IN == 0 ==>
        Memory(node, cells) && (!Anchored() ==> tree.stale !in cells)
      modifies this, node, tree, tree.nodes, cells
      ensures Valid() && (old(Anchored()) ==> Anchored())
      ensures old(tree.nodes) <= tree.nodes <= old(tree.nodes) + set c | c in cells
      ensures ret == 0 <==> node != null && old(node.flag & NODE_FLAG_INIT != 0 && node.flag & NODE_FLAG_IN == 0)
      ensures ret == 0 ==> In(node) && node !in old(servers) && servers == old(servers) + {node}
      ensures ret == 0 ==> node.iden == old(node.iden) && node.replicas == old(node.replicas)
      ensures ret == 0 ==> Owners() == Added<ServerNode>(old(Owners()), Replicas(node), node)
      ensures ret == 0 ==> forall i :: 0 <= i < node.replicas ==> HasReplica(old(Owners()), Owners(), node, i)
      ensures ret == 0 ==>
        forall h :: Owner<ServerNode>(Owners(), h) in {Owner<ServerNode>(old(Owners()), h), Some(node as ServerNode)}
      ensures ret != 0 ==> ret == -1 && Owners() == old(Owners()) && servers == old(servers)
      ensures ret != 0 && node != null ==> unchanged(node)
    {
      if node == null {
        return -1;
      }
      if node.flag & NODE_FLAG_INIT == 0 || node.flag & NODE_FLAG_IN != 0 {
        return -1;
      }
      ghost var m := Owners();
      Enter(node, cells);
      hide *;
      AllReplicas(m, node);
      return 0;
    }

    /** The flag and the replicas of a server. */
    method TakeOut(node: ServerNode)
      requires Valid() && In(node)
      modifies this`ivnodes, node`flag, tree, tree.nodes, tree.nil
      ensures Sound() && tree.nodes <= old(tree.nodes) && (old(Anchored()) && ivnodes != 1 ==> Anchored())
      ensures !In(node) && node.flag & NODE_FLAG_INIT != 0 && forall s :: s in servers && s != node ==> In(s)
      ensures Replicas(node) == old(Replicas(node))
        && Owners() == Deleted<ServerNode>(old(Owners()), Replicas(node), node)
    {
      ghost var m, hs := Owners(), Replicas(node);
      hide Sound, Owners, Replicas, Deleted, Covered, RingOf, Vnodes, KeysDistinct;
      MarkOut(node);
      DelReplicas(node);
    }

    /** A server that is in the ring goes out. */
    method Leave(node: ServerNode)
      requires Valid() && In(node) && node in servers
      modifies this, node, tree, tree.nodes, tree.nil
      ensures Valid() && tree.nodes <= old(tree.nodes) && (old(Anchored()) && ivnodes != 1 ==> Anchored())
      ensures !In(node) && node.flag & NODE_FLAG_INIT != 0 && servers == old(servers) - {node}
      ensures node.iden == old(node.iden) && node.replicas == old(node.replicas)
      ensures Owners() == Deleted<ServerNode>(old(Owners()), Replicas(node), node)
        == Dropping<ServerNode>(old(Owners()), node)
      ensures forall h :: Owner<ServerNode>(old(Owners()), h) != Some(node) ==>
        Owner<ServerNode>(Owners(), h) == Owner<ServerNode>(old(Owners()), h)
    {
      ghost var m, hs := Owners(), Replicas(node);
      DeleteLeavesOthers<ServerNode>(m, hs, node);
      TakeOut(node);
      hide Sound, Owners, Replicas, Deleted, Dropping, Owner, RingOf, Vnodes, KeysDistinct;
      MovesFromOld(m, hs, node);
      Forget(node);
    }

    /** `conhash_del_node`. A server that is in must be in this ring. */
    method DelNode(node: ServerNode?) returns (ret: int)
      requires Valid()
      requires node != null && In(node) ==> node in servers
      modifies this, node, tree, tree.nodes, tree.nil
      ensures Valid() && tree.nodes <= old(tree.nodes) && (old(Anchored()) && ivnodes != 1 ==> Anchored())
      ensures ret == 0 <==> node != null && old(In(node))
      ensures ret == 0 ==> !In(node) && node.flag & NODE_FLAG_INIT != 0 && servers == old(servers) - {node}
      ensures ret == 0 ==> node.iden == old(node.iden) && node.replicas == old(node.replicas)
      ensures ret == 0 ==>
        Owners() == Deleted<ServerNode>(old(Owners()), Replicas(node), node)
          == Dropping<ServerNode>(old(Owners()), node)
      ensures ret == 0 ==> forall h :: Owner<ServerNode>(old(Owners()), h) != Some(node as ServerNode) ==>
        Owner<ServerNode>(Owners(), h) == Owner<ServerNode>(old(Owners()), h)
      ensures ret != 0 ==> ret == -1 && Owners() == old(Owners()) && servers == old(servers)
      ensures ret != 0 && node != null ==> unchanged(node)
    {
      if node == null {
        return -1;
      }
      if node.flag & NODE_FLAG_INIT == 0 || node.flag & NODE_FLAG_IN == 0 {
        return -1;
      }
      Leave(node);
      return 0;
    }

    /** `conhash_lookup`: the server that owns the object's hash, null only in an empty ring. */
    method Lookup(name: string) returns (r: ServerNode?)
      requires Valid()
      ensures r == null ==> Owner<ServerNode>(Owners(), hashFunction(name)) == None
      ensures r != null ==> r in servers && Owner<ServerNode>(Owners(), hashFunction(name)).Some?
      ensures r != null ==> Owner<ServerNode>(Owners(), hashFunction(name)).value == r
    {
      if ivnodes == 0 {
        return null;
      }
      var hash := hashFunction(name);
      var rbnode, steps := tree.Lookup(hash);
      if rbnode != null {
        ghost var i :| IsSuccessor(tree.Elements(), hash, i) && rbnode == tree.Elements()[i];
        RingServes(tree.Elements(), hash, i);
        RingHas(tree.Elements(), rbnode);
        assert IsVnode(rbnode);
        var vnode := rbnode.data as VirtualNode;
        return vnode.node;
      }
      return null;
    }

    /** When the ring is anchored its tree has links to nodes in use and to the sentinel only. */
    lemma LinksInside(n: Node)
      requires Valid() && Anchored() && n in tree.nodes
      ensures {n.left, n.right, n.parent} <= tree.nodes + {tree.nil}
    {
      assert tree.Down(n) && (n != tree.root ==> tree.Up(n));
    }

    /** The count of virtual nodes is the number of distinct keys. */
    lemma CountsKeys()
      requires Valid()
      ensures ivnodes == |tree.Elements()| == |Owners()|
    {
      RingSize(tree.Elements());
    }

    /** `conhash_fini`: empties the ring and releases every virtual node exactly once. */
    method Fini() returns (ghost released: seq<Node>)
      requires Valid()
      modifies tree, tree.nodes, tree.nil
      ensures tree.Valid() && tree.Elements() == []
      ensures NoDup<Node>(released) && |released| == old(ivnodes)
      ensures forall n :: n in released ==> n in old(tree.nodes)
      ensures forall n :: n in old(tree.nodes) ==> n in released
    {
      released := [];
      while tree.root != tree.nil
        invariant tree.Valid() && tree.nodes <= old(tree.nodes)
        invariant NoDup<Node>(released) && |released| + tree.size == old(tree.size)
        invariant forall n :: n in released ==> n in old(tree.nodes) && n !in tree.nodes
        invariant forall n :: n in old(tree.nodes) ==> n in released || n in tree.nodes
        decreases tree.size
      {
        var rbnode := tree.root;
        NoDupSnoc<Node>(released, rbnode);
        tree.Delete(rbnode);
        released := released + [rbnode];
      }
    }

    lemma NotAnOwner(node: ServerNode)
      requires Valid() && !In(node)
      ensures node !in servers && node !in Owners().Values
    {
      assert forall k :: k in Owners() ==> Owners()[k] in servers;
    }

    /** Taking a new server in and out again leaves every object where it was. */
    method AddThenDelete(node: ServerNode, cells: seq<Node>)
      requires Valid() && node.flag & NODE_FLAG_INIT != 0 && node.flag & NODE_FLAG_IN == 0
      requires Memory(node, cells) && (!Anchored() ==> tree.stale !in cells)
      modifies this, node, tree, tree.nodes, tree.nil, cells
      ensures Valid() && Owners() == old(Owners()) && servers == old(servers)
    {
      NotAnOwner(node);
      DeleteUndoesAdd<ServerNode>(Owners(), Replicas(node), node);
      hide *;
      var added := AddNode(node, cells);
      var deleted := DelNode(node);
    }
  }

  lemma NotYetUsed(cells: seq<Node>, i: nat, before: set<Node>, now: set<Node>)
    requires i < |cells| && NoDup<Node>(cells) && cells[i] !in before
    requires now <= before + set c | c in cells[..i]
    ensures cells[i] !in now
  {
  }

  lemma AddedNone(m: map<int, ServerNode>, s: ServerNode)
    ensures Added<ServerNode>(m, [], s) == m
  {
  }

  lemma DeletedOne(m: map<int, ServerNode>, h: int, s: ServerNode)
    ensures Deleted<ServerNode>(m, [h], s) == if h in m && m[h] == s then m - {h} else m
  {
    assert [h][..0] == [];
  }

  /** Adding a server moves objects only to that server. */
  lemma MovesToNew(m: map<int, ServerNode>, hs: seq<int>, s: ServerNode)
    ensures forall h :: Owner<ServerNode>(Added<ServerNode>(m, hs, s), h) in {Owner<ServerNode>(m, h), Some(s)}
  {
    forall h ensures Owner<ServerNode>(Added<ServerNode>(m, hs, s), h) in {Owner<ServerNode>(m, h), Some(s)} {
      AddMonotone<ServerNode>(m, hs, s, h);
    }
  }

  /** Deleting a server moves only the objects it owned. */
  lemma MovesFromOld(m: map<int, ServerNode>, hs: seq<int>, s: ServerNode)
    ensures forall h :: Owner<ServerNode>(m, h) != Some(s) ==>
      Owner<ServerNode>(Deleted<ServerNode>(m, hs, s), h) == Owner<ServerNode>(m, h)
  {
    forall h | Owner<ServerNode>(m, h) != Some(s)
      ensures Owner<ServerNode>(Deleted<ServerNode>(m, hs, s), h) == Owner<ServerNode>(m, h)
    {
      DeleteMonotone<ServerNode>(m, hs, s, h);
    }
  }

  lemma SetIn(f: bv32)
    requires f & NODE_FLAG_INIT != 0
    ensures (f | NODE_FLAG_IN) & NODE_FLAG_INIT != 0 && (f | NODE_FLAG_IN) & NODE_FLAG_IN != 0
  {
  }

  lemma ClearIn(f: bv32)
    requires f & NODE_FLAG_INIT != 0
    ensures (f & !NODE_FLAG_IN) & NODE_FLAG_INIT != 0 && (f & !NODE_FLAG_IN) & NODE_FLAG_IN == 0
  {
  }
}
