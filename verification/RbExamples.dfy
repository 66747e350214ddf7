/** Concrete trees on which the tree's promises fail. */
module RbExamples {
  import opened RbTree
  import opened Seqs
  import opened Spans

  /** Two nodes, the second the right child of the first. */
  method LoneRight(color: int) returns (tree: Tree)
    requires color == RED || color == BLACK
    ensures fresh(tree) && tree.Linked() && tree.Spanned() && tree.root in tree.nodes && tree.root.color == BLACK
    ensures tree.root.left == tree.nil && tree.root.right != tree.nil && tree.nil.bh == 0
    ensures tree.root.right.color == color && (color == RED ==> tree.Valid())
    ensures tree.nodes == {tree.root, tree.root.right} && tree.Elements() == [tree.root, tree.root.right]
      && fresh(tree.nodes) && fresh(tree.nil)
  {
    tree := new Tree();
    var a := new Node(1, null);
    var b := new Node(2, null);
    var nil := tree.nil;
    a.Place(nil, nil, b, BLACK, [a, b]);
    b.Place(a, nil, nil, color, [b]);
    a.bh := 1;
    tree.root, tree.size, tree.nodes := a, 2, {a, b};
    tree.LoneRightLinked(a, b);
    if color == RED { tree.LoneRightValid(a, b); }
  }

  /** The check is content with such a tree but reports a depth of 1. */
  method DepthMissed() returns (tree: Tree, result: int, blackHeight: int, maxDepth: int)
    ensures tree.Valid() && tree.root in tree.nodes
    ensures result == 0 && maxDepth == 1 && tree.Depth(tree.root) == 2
  {
    tree := LoneRight(RED);
    tree.LoneRightMissed(tree.root);
    result, blackHeight, maxDepth := tree.SelfCheck();
  }

  /** The check is also content when the lone child is black and the tree is unbalanced. */
  method CheckFooled() returns (tree: Tree, result: int, blackHeight: int, maxDepth: int)
    ensures tree.Linked() && tree.Spanned() && !tree.Valid() && result == 0
  {
    tree := LoneRight(BLACK);
    tree.Unbalanced();
    tree.SeenHeightIs(tree.root);
    result, blackHeight, maxDepth := tree.SelfCheck();
  }

  /** Five nodes with the key 20 on the left of 10. */
  method FiveNodes(nil: Node) returns (a: Node, b: Node, c: Node, d: Node, e: Node)
    ensures fresh({a, b, c, d, e}) && a !in {b, c, d, e} && b !in {c, d, e} && c !in {d, e} && d != e
    ensures a.key == 10 && b.key == 5 && c.key == 3 && d.key == 20 && e.key == 15
    ensures a.parent == nil && a.left == b && a.right == e && a.color == BLACK && a.span == [c, b, d, a, e]
    ensures b.parent == a && b.left == c && b.right == d && b.color == BLACK && b.span == [c, b, d]
    ensures c.parent == b && c.left == nil && c.right == nil && c.color == RED && c.span == [c]
    ensures d.parent == b && d.left == nil && d.right == nil && d.color == RED && d.span == [d]
    ensures e.parent == a && e.left == nil && e.right == nil && e.color == BLACK && e.span == [e]
  {
    a := new Node(10, null);
    b := new Node(5, null);
    c := new Node(3, null);
    d := new Node(20, null);
    e := new Node(15, null);
    a.Place(nil, b, e, BLACK, [c, b, d, a, e]);
    b.Place(a, c, d, BLACK, [c, b, d]);
    c.Place(b, nil, nil, RED, [c]);
    d.Place(b, nil, nil, RED, [d]);
    e.Place(a, nil, nil, BLACK, [e]);
  }

  /** The check compares each node with its parent only: a key of 20 on the left of the root's 10 escapes it. */
  method OrderFooled() returns (tree: Tree, result: int, blackHeight: int, maxDepth: int)
    ensures tree.Linked() && tree.Spanned() && tree.LonesFine() && !KeySorted(tree.Elements()) && result == 0
  {
    tree := new Tree();
    var a, b, c, d, e := FiveNodes(tree.nil);
    tree.root, tree.nodes := a, {a, b, c, d, e};
    tree.FiveLinked(a, b, c, d, e);
    tree.FiveSeen(a, b, c, d, e);
    hide KeySorted;
    result, blackHeight, maxDepth := tree.SelfCheck();
    tree.FiveAstray(a, b, c, d, e);
  }

  // ---------- a released node that comes back ----------

  /** Two nodes, and the root's parent link leads to its left child. */
  ghost predicate UnderOwnChild(tree: Tree, f: Node, c: Node)
    reads tree, tree.nodes, tree.nil, c
  {
    && tree.Shaped() && tree.nodes == {f, c} && tree.Elements() == [f, c]
    && tree.root == c && c.left == f && c.right == tree.nil && c.parent == f
  }

  /** Three nodes, and the root is its own parent. */
  ghost predicate OwnParent(tree: Tree, a: Node, f: Node, c: Node)
    reads tree, tree.nodes, tree.nil, a, f, c
  {
    && tree.Shaped() && tree.nodes == {a, f, c} && tree.Elements() == [a, f, c]
    && tree.root == f && f.parent == f && a.color == RED && c.color == RED
  }

  /** Two nodes in order, the second the root: the first hangs on its left. */
  lemma SecondShape(tree: Tree, f: Node, c: Node)
    requires tree.Shaped() && tree.nodes == {f, c} && tree.size == 2 && tree.root == c && f.key < c.key
    ensures f != c && tree.Elements() == [f, c] && c.left == f && c.right == tree.nil
  {
    var s := tree.Elements();
    assert s[0] in s && s[1] in s && s[0] != s[1] && s[0].key <= s[1].key;
    assert s == [f, c];
    tree.AroundRoot(1);
    tree.OneBelow(tree.root.left);
    assert [tree.root.left][0] == tree.Elements()[..1][0];
  }

  /** `a` goes below the reused node. */
  method ThirdLeaf(tree: Tree, f: Node, c: Node, a: Node)
    requires UnderOwnChild(tree, f, c) && a !in {f, c, tree.nil} && a.key < f.key
    modifies tree`root, tree`nodes, tree`stale,
             tree.nodes`left, tree.nodes`right, tree.nodes`parent, tree.nodes`color, tree.nodes`span, tree.nodes`bh,
             a`left, a`right, a`parent, a`color, a`span, a`bh
    ensures tree.InsertInv(a) && tree.Whole() && KeySorted(tree.Elements())
    ensures tree.nodes == {f, c, a} && tree.Elements() == [a, f, c] && tree.root == c && c.parent == f
    ensures c.left == f && f.left == a && c.right == tree.nil && a.parent == f && f.parent == c && f.color == RED
    ensures c.left != null && c.right != null
  {
    tree.OnlyLeft();
    InsertedFirst(tree.Elements(), a);
    assert Inserted(tree.Elements(), a) == [a, f, c];
    tree.InsertLeaf(a);
    HangsBelow(tree, a, f, c);
  }

  /** The loop takes one round. */
  method ThirdTurn(tree: Tree, f: Node, c: Node, a: Node) returns (node: Node)
    requires UnderOwnChild(tree, f, c) && a !in {f, c, tree.nil} && a.key < f.key
    modifies tree`root, tree`nodes, tree`stale,
             tree.nodes`left, tree.nodes`right, tree.nodes`parent, tree.nodes`color, tree.nodes`span, tree.nodes`bh,
             a`left, a`right, a`parent, a`color, a`span, a`bh
    ensures tree.InsertInv(node) && tree.Whole() && KeySorted(tree.Elements()) && node.parent.color != RED
    ensures tree.nodes == {a, f, c} && tree.Elements() == [a, f, c] && tree.root.parent == f
  {
    ThirdLeaf(tree, f, c, a);
    assert a.parent.color == RED && !tree.UncleRed(a);
    ghost var t := tree.Elements();
    hide KeySorted;
    node := tree.InsertStep(a);
    assert KeySorted(t);
  }

  /** It is rotated up to the root, where it becomes its own parent. */
  method ThirdReused(tree: Tree, f: Node, c: Node, a: Node)
    requires UnderOwnChild(tree, f, c) && a !in {f, c, tree.nil} && a.key < f.key
    modifies tree,
             tree.nodes`left, tree.nodes`right, tree.nodes`parent, tree.nodes`color, tree.nodes`span, tree.nodes`bh,
             a`left, a`right, a`parent, a`color, a`span, a`bh
    ensures OwnParent(tree, a, f, c) && tree.size == old(tree.size) + 1
  {
    var node := ThirdTurn(tree, f, c, a);
    assert node in {a, f, c};
    EndInsertion(tree, node);
    tree.ThreeShape(a, f, c);
  }

  /** Line 142 and 83. */
  method EndInsertion(tree: Tree, node: Node)
    requires tree.InsertInv(node) && tree.Whole() && KeySorted(tree.Elements()) && node.parent.color != RED
    requires |tree.Elements()| == tree.size + 1
    modifies tree`size, tree.nodes`color, tree.nodes`bh
    ensures tree.Shaped() && tree.Elements() == old(tree.Elements()) && tree.LinksKept()
    ensures forall n :: n in tree.nodes && n != tree.root ==> n.color == old(n.color)
  {
    hide KeySorted;
    tree.BlackenRoot(node);
    tree.size := tree.size + 1;
  }

  lemma InsertedFirst(s: seq<Node>, node: Node)
    requires s != [] && node.key < s[0].key
    ensures Inserted(s, node) == [node] + s
  {
  }

  /** Where the third node hangs. */
  lemma HangsBelow(tree: Tree, a: Node, f: Node, c: Node)
    requires tree.Linked() && tree.Spanned() && tree.Whole() && tree.root == c && c in tree.nodes
      && tree.Elements() == [a, f, c]
    requires a.left == tree.nil && a.right == tree.nil
    ensures c.left == f && f.left == a && c.right == tree.nil && f.right == tree.nil && a.parent == f && f.parent == c
    ensures c.parent != null && a in tree.nodes && f in tree.nodes
  {
    tree.AroundRoot(2);
    assert c.left.span == [a, f] && tree.Elements()[0] != tree.Elements()[1];
    tree.LeafFirst(c.left, a, f);
    assert tree.Down(f) && tree.Down(c);
  }

  /** Where the fourth node hangs. */
  lemma HangsBelowAgain(tree: Tree, b: Node, a: Node, f: Node, c: Node)
    requires tree.Linked() && tree.Spanned() && tree.Whole() && tree.root == f && f in tree.nodes
    requires tree.Elements() == [b, a, f, c] && b.left == tree.nil && b.right == tree.nil
    ensures f.left == a && a.left == b && a.right == tree.nil && f.right == c && c.left == tree.nil
      && c.right == tree.nil
    ensures b.parent == a && a.parent == f && {a, b, c} <= tree.nodes && f.parent != null
  {
    tree.AroundRoot(2);
    assert f.left.span == [b, a] && tree.Elements()[0] != tree.Elements()[1];
    tree.LeafFirst(f.left, b, a);
    assert f.right.span == [c];
    tree.OneBelow(f.right);
    assert [f.right][0] == [c][0];
    assert tree.Down(a) && tree.Down(f);
  }

  /** `b` goes below `a`. */
  method FourthLeaf(tree: Tree, a: Node, f: Node, c: Node, b: Node)
    requires OwnParent(tree, a, f, c) && b !in {a, f, c, tree.nil} && b.key < a.key
    modifies tree`root, tree`nodes, tree`stale,
             tree.nodes`left, tree.nodes`right, tree.nodes`parent, tree.nodes`color, tree.nodes`span, tree.nodes`bh,
             b`left, b`right, b`parent, b`color, b`span, b`bh
    ensures tree.InsertInv(b) && tree.Whole() && tree.nodes == old(tree.nodes) + {b} && tree.Elements() == [b, a, f, c]
    ensures tree.root == f && f.parent == f && f.left == a && f.right == c && a.parent == f && b.parent == a
    ensures c.right == tree.nil && c.left == tree.nil && a.color == RED && c.color == RED
  {
    InsertedFirst(tree.Elements(), b);
    assert Inserted(tree.Elements(), b) == [b, a, f, c];
    tree.InsertLeaf(b);
    HangsBelowAgain(tree, b, a, f, c);
  }

  /** Recolouring comes to the root, whose parent is now itself, and red: the loop goes on. */
  method FourthReused(tree: Tree, a: Node, f: Node, c: Node, b: Node)
    requires OwnParent(tree, a, f, c) && b !in {a, f, c, tree.nil} && b.key < a.key
    modifies tree`root, tree`nodes, tree`stale,
             tree.nodes`left, tree.nodes`right, tree.nodes`parent, tree.nodes`color, tree.nodes`span, tree.nodes`bh,
             b`left, b`right, b`parent, b`color, b`span, b`bh
    ensures tree.InsertInv(f) && tree.nodes == old(tree.nodes) + {b} && tree.root == f && f.parent == f
    ensures f.left != tree.nil && f.right != tree.nil
  {
    FourthLeaf(tree, a, f, c, b);
    assert b.parent.color == RED && tree.UncleRed(b);
    var node := tree.InsertStep(b);
    assert node == f && node.parent.color == RED;
  }
}
