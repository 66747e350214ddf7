/** A ring whose allocator hands out the memory of a released tree node. */
module RingExamples {
  import opened RbTree
  import opened Seqs
  import opened Spans
  import opened Ring
  import opened ConHash
  import opened RbExamples

  function Names(iden: string, i: nat): string {
    if i == 0 then iden else if i == 1 then iden + "#" else iden + "##"
  }

  function Hash(s: string): int {
    if s == "A" then 100 else if s == "B" then 500
    else if s == "C" then 383 else if s == "C#" then 274 else 142
  }

  lemma Keys()
    ensures Hash(Names("A", 0)) == 100 && Hash(Names("B", 0)) == 500
    ensures Hash(Names("C", 0)) == 383 && Hash(Names("C", 1)) == 274 && Hash(Names("C", 2)) == 142
  {
    assert "C" + "#" == "C#";
    assert |"C" + "##"| == 3;
  }

  /** `conhash_add_node` of a server with one replica whose key is free. */
  method AddOne(ring: ConHash, node: ServerNode, hash: int, cell: Node)
    requires ring.Sound() && node.flag & NODE_FLAG_INIT != 0
    requires node.replicas == 1 && hash == ring.Key(node.iden, 0)
    requires cell !in ring.tree.nodes && cell !in {ring.tree.nil, ring.tree.stale}
    requires forall n :: n in ring.tree.Elements() ==> n.key != hash
    modifies ring, node, ring.tree, ring.tree.nodes, cell
    ensures ring.Sound() && (old(ring.Anchored()) ==> ring.Anchored())
    ensures ring.tree.nodes == old(ring.tree.nodes) + {cell} && cell.key == hash
    ensures ring.Owners() == old(ring.Owners())[hash := node] && node.flag & NODE_FLAG_INIT != 0
    ensures forall n :: n in old(ring.tree.nodes) ==> n.key == old(n.key)
    ensures old(ring.tree.size) == 1 ==> ring.tree.root == old(ring.tree.root)
  {
    ring.MarkIn(node);
    assert ring.Replicas(node)[0] == hash;
    ring.PutReplica(node, hash, cell);
  }

  /** `conhash_del_node` of such a server. */
  method DelOne(ring: ConHash, node: ServerNode, hash: int, cell: Node)
    requires ring.Sound() && node.flag & NODE_FLAG_INIT != 0
    requires cell in ring.tree.nodes && cell.key == hash && hash in ring.Owners() && ring.Owners()[hash] == node
    modifies ring, node`flag, ring.tree, ring.tree.nodes, ring.tree.nil
    ensures ring.Sound() && ring.tree.nodes == old(ring.tree.nodes) - {cell}
    ensures ring.tree.stale == ring.tree.LeftAt(cell, old(ring.tree.root), old(ring.tree.stale), old(ring.tree.size))
    ensures forall n :: n in old(ring.tree.nodes) ==> n.key == old(n.key)
  {
    ring.MarkOut(node);
    var rbnode := ring.Find(hash);
    assert rbnode == cell && (rbnode.data as VirtualNode).node == node;
    ring.DropVnode(rbnode);
  }

  lemma {:induction false} CoversSize(s: seq<Node>, nodes: set<Node>)
    requires Covers(s, nodes)
    ensures |s| == |nodes|
  {
    if s == [] {
      assert nodes == {};
    } else {
      assert s == [s[0]] + s[1..] && forall i :: 0 <= i < |s[1..]| ==> s[1..][i] == s[i + 1];
      CoversSize(s[1..], nodes - {s[0]});
    }
  }

  lemma Sized(tree: Tree)
    requires tree.Shaped()
    ensures tree.size == |tree.nodes| && (tree.nodes != {} ==> tree.root in tree.nodes)
  {
    CoversSize(tree.Elements(), tree.nodes);
    tree.EmptySpan(tree.root);
  }

  /** The ring holds the node `f` of the server `a` only. */
  ghost predicate HoldsOne(ring: ConHash, a: ServerNode, f: Node)
    reads ring, ring.servers, ring.tree, ring.tree.root, ring.tree.nodes, ring.tree.nil, ring.tree.stale, a`flag, f
  {
    && ring.Sound() && ring.Anchored() && ring.tree.nodes == {f} && ring.tree.root == f && ring.tree.size == 1
    && f.key == 100 && ring.Owners() == map[100 := a] && a.flag & NODE_FLAG_INIT != 0
  }

  /** It holds another node, and the first one is the root. */
  ghost predicate HoldsTwo(ring: ConHash, a: ServerNode, f: Node, g: Node)
    reads ring, ring.servers, ring.tree, ring.tree.root, ring.tree.nodes, ring.tree.nil, ring.tree.stale, a`flag, f, g
  {
    && ring.Sound() && ring.tree.nodes == {f, g} && f != g && ring.tree.root == f && ring.tree.size == 2
    && f.key == 100 && g.key == 500 && 100 in ring.Owners() && ring.Owners()[100] == a && a.flag & NODE_FLAG_INIT != 0
  }

  /** The first one is released, and it is where the root's parent link leads. */
  ghost predicate LeftBehind(ring: ConHash, f: Node, g: Node)
    reads ring, ring.servers, ring.tree, ring.tree.root, ring.tree.nodes, ring.tree.nil, ring.tree.stale, g
  {
    && ring.Sound() && ring.tree.nodes == {g} && ring.tree.root == g && ring.tree.size == 1
    && ring.tree.stale == f && f !in {g, ring.tree.nil} && g.key == 500
  }

  method OneServer(ring: ConHash, a: ServerNode, f: Node)
    requires ring.Sound() && ring.Anchored() && ring.tree.nodes == {} && f != ring.tree.nil
    requires ring.hashFunction == Hash && ring.node2string == Names
    requires a.iden == "A" && a.replicas == 1 && a.flag == NODE_FLAG_INIT
    modifies ring, a, ring.tree, ring.tree.nodes, f
    ensures HoldsOne(ring, a, f)
  {
    Keys();
    Sized(ring.tree);
    AddOne(ring, a, 100, f);
    Sized(ring.tree);
  }

  method TwoServers(ring: ConHash, a: ServerNode, b: ServerNode, f: Node, g: Node)
    requires HoldsOne(ring, a, f) && b != a && g !in {f, ring.tree.nil}
    requires ring.hashFunction == Hash && ring.node2string == Names
    requires b.iden == "B" && b.replicas == 1 && b.flag == NODE_FLAG_INIT
    modifies ring, b, ring.tree, ring.tree.nodes, g
    ensures HoldsTwo(ring, a, f, g)
  {
    FreeKey(ring, b, f);
    AddOne(ring, b, 500, g);
    Sized(ring.tree);
  }

  lemma FreeKey(ring: ConHash, b: ServerNode, f: Node)
    requires ring.hashFunction == Hash && ring.node2string == Names && b.iden == "B"
    requires ring.tree.Shaped() && ring.tree.nodes == {f} && f.key == 100
    ensures ring.Key(b.iden, 0) == 500 && forall n :: n in ring.tree.Elements() ==> n.key != 500
  {
    Keys();
    assert forall n :: n in ring.tree.Elements() ==> n in ring.tree.nodes;
  }

  method FirstLeaves(ring: ConHash, a: ServerNode, f: Node, g: Node)
    requires HoldsTwo(ring, a, f, g)
    modifies ring, a`flag, ring.tree, ring.tree.nodes, ring.tree.nil
    ensures LeftBehind(ring, f, g)
  {
    DelOne(ring, a, 100, f);
    Sized(ring.tree);
  }

  /** The key of a replica is free, and a cell is filled in for it. */
  method NextCell(ring: ConHash, c: ServerNode, hash: int, cell: Node)
    requires ring.tree.Shaped() && cell !in ring.tree.nodes && cell != ring.tree.nil
    requires forall n :: n in ring.tree.Elements() ==> n.key != hash
    modifies cell`key, cell`data
    ensures ring.tree.Shaped() && cell.key == hash
  {
    var found, steps := ring.tree.Search(hash);
    assert found == null;
    ring.FillCell(c, hash, cell);
  }

  /** The third server's first key goes to the cell just released. */
  method CellReturns(ring: ConHash, c: ServerNode, f: Node, g: Node)
    requires LeftBehind(ring, f, g) && c.flag & NODE_FLAG_INIT != 0
    modifies ring, c`flag, ring.tree, ring.tree.nodes, f
    ensures UnderOwnChild(ring.tree, f, g) && !ring.tree.Valid() && f.key == 383 && g.key == 500
  {
    ring.MarkIn(c);
    var found := ring.Find(383);
    assert found == null;
    ReturnCell(ring, c, f, g);
    ring.ivnodes := ring.ivnodes + 1;
  }

  method ReturnCell(ring: ConHash, c: ServerNode, f: Node, g: Node)
    requires LeftBehind(ring, f, g)
    modifies ring.tree, ring.tree.nodes, f
    ensures UnderOwnChild(ring.tree, f, g) && !ring.tree.Valid() && f.key == 383 && g.key == 500
  {
    Sized(ring.tree);
    ring.PutVnode(c, 383, f);
    SecondShape(ring.tree, f, g);
  }

  /** Its second key goes to a cell that was never used. */
  method SecondReplica(ring: ConHash, c: ServerNode, f: Node, g: Node, x: Node)
    requires UnderOwnChild(ring.tree, f, g) && f.key == 383 && g.key == 500 && x !in {f, g, ring.tree.nil}
    modifies ring`ivnodes, ring.tree, ring.tree.nodes, x
    ensures OwnParent(ring.tree, x, f, g) && x.key == 274 && f.key == 383 && g.key == 500
  {
    NextCell(ring, c, 274, x);
    ring.ivnodes := ring.ivnodes + 1;
    hide *;
    ThirdReused(ring.tree, f, g, x);
  }

  /** And so does its third. */
  method ThirdReplica(ring: ConHash, c: ServerNode, f: Node, g: Node, x: Node, y: Node)
    requires OwnParent(ring.tree, x, f, g) && x.key == 274 && f.key == 383 && g.key == 500
    requires y !in {f, g, x, ring.tree.nil}
    modifies ring`ivnodes, ring.tree, ring.tree.nodes, y
    ensures ring.tree.Linked() && ring.tree.Spanned() && !ring.tree.Balanced() && !ring.tree.Valid()
  {
    NextCell(ring, c, 142, y);
    ring.ivnodes := ring.ivnodes + 1;
    hide *;
    FourthReused(ring.tree, x, f, g, y);
    ring.tree.RoundAtSelf();
    ring.tree.ValidBalanced();
  }

  /** Two servers go in, and the one whose node is the root goes out. */
  method BothServers(ring: ConHash, a: ServerNode, b: ServerNode, f: Node, g: Node)
    requires ring.Sound() && ring.Anchored() && ring.tree.nodes == {}
    requires ring.hashFunction == Hash && ring.node2string == Names
    requires a.iden == "A" && a.replicas == 1 && a.flag == NODE_FLAG_INIT
    requires b != a && b.iden == "B" && b.replicas == 1 && b.flag == NODE_FLAG_INIT
    requires ring.tree.nil !in {f, g} && f != g
    modifies ring, a, b, ring.tree, ring.tree.nodes, ring.tree.nil, f, g
    ensures LeftBehind(ring, f, g)
  {
    OneServer(ring, a, f);
    TwoServers(ring, a, b, f, g);
    FirstLeaves(ring, a, f, g);
  }

  lemma ThreeKeys(ring: ConHash, c: ServerNode)
    requires ring.hashFunction == Hash && ring.node2string == Names && c.iden == "C"
    ensures ring.Key(c.iden, 0) == 383 && ring.Key(c.iden, 1) == 274 && ring.Key(c.iden, 2) == 142
  {
    Keys();
  }

  /** A third server comes in, with three keys, and its first one gets the memory just released. */
  method LastServer(ring: ConHash, c: ServerNode, f: Node, g: Node, x: Node, y: Node)
    requires LeftBehind(ring, f, g) && c.flag & NODE_FLAG_INIT != 0
    requires x !in {f, g, ring.tree.nil} && y !in {f, g, x, ring.tree.nil}
    requires ring.hashFunction == Hash && ring.node2string == Names && c.iden == "C"
    modifies ring, c`flag, ring.tree, ring.tree.nodes, f, x, y
    ensures ring.tree.Linked() && ring.tree.Spanned() && !ring.tree.Balanced() && !ring.tree.Valid()
  {
    ThreeKeys(ring, c);
    CellReturns(ring, c, f, g);
    MoreReplicas(ring, c, f, g, x, y);
  }

  method MoreReplicas(ring: ConHash, c: ServerNode, f: Node, g: Node, x: Node, y: Node)
    requires UnderOwnChild(ring.tree, f, g) && f.key == 383 && g.key == 500
    requires x !in {f, g, ring.tree.nil} && y !in {f, g, x, ring.tree.nil}
    modifies ring`ivnodes, ring.tree, ring.tree.nodes, x, y
    ensures ring.tree.Linked() && ring.tree.Spanned() && !ring.tree.Balanced() && !ring.tree.Valid()
  {
    SecondReplica(ring, c, f, g, x);
    ThirdReplica(ring, c, f, g, x, y);
  }

  /** Two servers go in, the one whose node is the root goes out, and the allocator hands its node's memory out again
      for the first key of a third server: with that server's third key the tree is no red-black tree any more. */
  method ReusedRoot() returns (ring: ConHash)
    ensures ring.tree.Linked() && ring.tree.Spanned() && !ring.tree.Balanced() && !ring.tree.Valid()
  {
    var a := NewServer("A", 1);
    var b := NewServer("B", 1);
    var c := NewServer("C", 3);
    var f, g, x, y := NewCells();
    ring := new ConHash(Some(Hash), Hash, Names);
    BothServers(ring, a, b, f, g);
    LastServer(ring, c, f, g, x, y);
  }

  /** `conhash_set_node` for a name that fits. */
  method NewServer(iden: string, replicas: nat) returns (s: ServerNode)
    ensures fresh(s) && s.iden == iden && s.replicas == replicas && s.flag == NODE_FLAG_INIT
  {
    s := new ServerNode();
    s.iden, s.replicas, s.flag := iden, replicas, NODE_FLAG_INIT;
  }

  /** Memory that was never used. */
  method NewCells() returns (f: Node, g: Node, x: Node, y: Node)
    ensures fresh({f, g, x, y}) && f !in {g, x, y} && g !in {x, y} && x != y
  {
    f := new Node(0, null);
    g := new Node(0, null);
    x := new Node(0, null);
    y := new Node(0, null);
  }
}
