/** The red-black tree of `util_rbtree.c`. */
module RbTree {
  import opened Seqs
  import opened Spans

  const RED := 0
  const BLACK := 1

  class Node {
    var key: int
    var data: object?
    var parent: Node?
    var right: Node?
    var left: Node?
    var color: int

    // The nodes of the subtree rooted here, in key order, and its black height.
    ghost var span: seq<Node>
    ghost var bh: nat

    constructor (key: int, data: object?)
      ensures this.key == key && this.data == data && span == [] && bh == 0
    {
      this.key, this.data := key, data;
      parent, left, right := null, null, null;
      span, bh := [], 0;
    }

    /** Sets links and colour at once, to build a tree by hand. */
    method Place(parent: Node, left: Node, right: Node, color: int, ghost span: seq<Node>)
      modifies this`parent, this`left, this`right, this`color, this`span
      ensures this.parent == parent && this.left == left && this.right == right && this.color == color
        && this.span == span
    {
      this.parent, this.left, this.right, this.color, this.span := parent, left, right, color, span;
    }
  }

  ghost function Pow2(n: nat): nat {
    if n == 0 then 1 else 2 * Pow2(n - 1)
  }

  ghost predicate KeySorted(s: seq<Node>)
    reads s`key
  {
    forall i, j :: 0 <= i < j < |s| ==> s[i].key <= s[j].key
  }

  /** `s` lists exactly the nodes of a set, each once. */
  ghost predicate Covers(s: seq<Node>, nodes: set<Node>) {
    NoDup(s) && (forall n :: n in nodes ==> n in s) && (forall n :: n in s ==> n in nodes)
  }

  ghost predicate UpTo(s: seq<Node>, key: int)
    reads s`key
  {
    forall i :: 0 <= i < |s| ==> s[i].key <= key
  }

  ghost predicate Above(s: seq<Node>, key: int)
    reads s`key
  {
    forall i :: 0 <= i < |s| ==> key < s[i].key
  }

  /** `s` with `node` put after every node whose key is not greater. */
  ghost function Inserted(s: seq<Node>, node: Node): seq<Node>
    reads s`key, node`key
  {
    if s == [] || node.key < s[0].key then [node] + s
    else [s[0]] + Inserted(s[1..], node)
  }

  lemma {:induction false} InsertedBetween(pre: seq<Node>, post: seq<Node>, node: Node)
    requires UpTo(pre, node.key) && Above(post, node.key)
    ensures Inserted(pre + post, node) == pre + [node] + post
  {
    if pre == [] {
      assert pre + post == post;
    } else {
      assert (pre + post)[1..] == pre[1..] + post;
      InsertedBetween(pre[1..], post, node);
    }
  }

  /** In a sorted sequence the new node comes after every key up to its own and before every greater one. */
  lemma {:induction false} InsertedSplits(s: seq<Node>, node: Node) returns (k: nat)
    requires KeySorted(s)
    ensures k <= |s| && Inserted(s, node) == s[..k] + [node] + s[k..]
    ensures forall i :: 0 <= i < |s| ==> (s[i].key <= node.key <==> i < k)
  {
    if s == [] || node.key < s[0].key {
      k := 0;
      assert s[..0] + [node] + s[0..] == [node] + s;
    } else {
      var r := s[1..];
      assert forall i :: 0 <= i < |r| ==> r[i] == s[i + 1];
      k := InsertedSplits(r, node);
      assert s[..k + 1] == [s[0]] + r[..k] && s[k + 1..] == r[k..];
      assert forall i :: 1 <= i < |s| ==> s[i] == r[i - 1];
      hide KeySorted, Inserted;
      assert [s[0]] + (r[..k] + [node] + r[k..]) == s[..k + 1] + [node] + s[k + 1..];
      k := k + 1;
    }
  }

  class Tree {
    var root: Node
    const nil: Node
    var size: int
    // The nodes of the tree, and what the root's parent link was left at.
    ghost var nodes: set<Node>
    ghost var stale: Node

    constructor ()
      ensures Valid() && Elements() == [] && nodes == {} && stale == nil && fresh(nil)
    {
      nil := new Node(0, null);
      root := nil;
      size := 0;
      nodes, stale := {}, nil;
      new;
      nil.color := BLACK;
    }

    // ---------- links ----------

    ghost predicate Down(n: Node)
      requires n.left != null && n.right != null
      reads this`root, this`nodes, nodes, n
    {
      && (n.left != nil ==> n.left in nodes && n.left != root && n.left.parent == n && n.left != n.right)
      && (n.right != nil ==> n.right in nodes && n.right != root && n.right.parent == n)
    }

    ghost predicate Up(n: Node)
      requires n.parent != null
      reads this`root, this`nodes, nodes, n
    {
      n.parent in nodes && (n.parent.left == n || n.parent.right == n)
    }

    ghost predicate Linked()
      reads this`root, this`nodes, nodes
    {
      && nil !in nodes
      && (root == nil || root in nodes)
      && (forall n :: n in nodes ==> n.left != null && n.right != null && n.parent != null)
      && (forall n {:trigger Down(n)} :: n in nodes ==> Down(n))
      && (forall n {:trigger Up(n)} :: n in nodes && n != root ==> Up(n))
    }

    ghost predicate Sentinel()
      reads nil
    {
      nil.color == BLACK && nil.bh == 0
    }

    /** The root's parent is outside the tree and black: the sentinel or a deleted root. */
    ghost predicate Rooted()
      reads this`root, this`nodes, this`stale, nodes, nil, stale`color
    {
      && Sentinel()
      && stale !in nodes && stale.color == BLACK
      && (root != nil ==> root in nodes && root.parent == stale)
    }

    // ---------- order ----------

    ghost predicate SpanOk(n: Node)
      requires n.left != null && n.right != null
      reads n, n.left, n.right
    {
      n.span == n.left.span + [n] + n.right.span
    }

    ghost predicate Spanned()
      requires Linked()
      reads this`root, this`nodes, nil, nodes
    {
      && nil.span == []
      && (forall n {:trigger SpanOk(n)} :: n in nodes ==> Down(n) && SpanOk(n))
    }

    /** A node is not its own child and, below the root, neither its own parent nor the child of its child. */
    ghost predicate Apart(n: Node)
      reads this`root, this`nodes, nodes, n
    {
      && n.left != n && n.right != n
      && (n != root ==>
        && n.parent != n
        && (n.left != nil ==> n.left != n.parent)
        && (n.right != nil ==> n.right != n.parent))
    }

    lemma SpansApart(n: Node)
      requires Linked() && Spanned() && n in nodes
      ensures Apart(n)
      ensures Rooted() ==>
        n.parent != n && (n.left != nil ==> n.left != n.parent) && (n.right != nil ==> n.right != n.parent)
      ensures n.left != nil ==> |n.left.span| < |n.span|
      ensures n.right != nil ==> |n.right.span| < |n.span|
    {
      assert Down(n) && SpanOk(n);
      if n != root { assert Up(n) && Down(n.parent) && SpanOk(n.parent); }
      assert n.left != nil ==> Down(n.left) && SpanOk(n.left);
      assert n.right != nil ==> Down(n.right) && SpanOk(n.right);
    }

    /** The nodes of the tree are exactly those below the root. */
    ghost predicate Whole()
      reads this`root, this`nodes, root
    {
      Covers(root.span, nodes)
    }

    lemma SpanWithin(m: Node, k: Node)
      requires Linked() && Spanned() && m in nodes && k in m.span
      ensures k in nodes && |k.span| <= |m.span|
      decreases |m.span|
    {
      assert Down(m) && SpanOk(m);
      if k in m.left.span {
        SpanWithin(m.left, k);
      } else if k in m.right.span {
        SpanWithin(m.right, k);
      }
    }

    // ---------- colours ----------

    /** The colour and height rules at `n`; a red child is excused only if it is `e`. */
    ghost predicate Fine(n: Node, e: Node)
      requires n.left != null && n.right != null
      reads n, n.left, n.right
    {
      && n.left.bh == n.right.bh && n.bh == n.left.bh + (if n.color == BLACK then 1 else 0)
      && (n.color == BLACK || n.color == RED)
      && (n.color == RED ==> (n.left == e || n.left.color == BLACK) && (n.right == e || n.right.color == BLACK))
    }

    /** The rules hold everywhere but at the nodes `ex`. */
    ghost predicate AllFine(e: Node, ex: set<Node>)
      requires Linked()
      reads this`root, this`nodes, nil, nodes
    {
      forall n {:trigger Fine(n, e)} :: n in nodes && n !in ex ==> Down(n) && Fine(n, e)
    }

    // ---------- rotations ----------

    twostate predicate LinksKept()
      reads this, nodes
    {
      && nodes == old(nodes) && root == old(root)
      && (forall n :: n in nodes ==> n.left == old(n.left) && n.right == old(n.right) && n.parent == old(n.parent))
    }

    twostate lemma LinkedKept()
      requires old(Linked()) && LinksKept()
      ensures Linked()
    {
      forall n | n in nodes ensures Down(n) {
        assert old(Down(n));
      }
      forall n | n in nodes && n != root ensures Up(n) {
        assert old(Up(n));
      }
    }

    twostate lemma ShapeKept()
      requires old(Linked() && Spanned()) && LinksKept() && nil.span == old(nil.span)
      requires forall n :: n in nodes ==> n.span == old(n.span)
      ensures Linked() && Spanned()
    {
      LinkedKept();
      forall n | n in nodes ensures Down(n) && SpanOk(n) {
        assert old(Down(n)) && old(SpanOk(n)) && Down(n);
      }
    }

    /** The part of a rotation's effect that is the same on both sides. */
    twostate predicate Rotated(x: Node, new y: Node)
      reads this, nodes
    {
      && nodes == old(nodes) && x in nodes && y in nodes && x != y && (y.left == x || y.right == x)
      && root == (if x == old(root) then y else old(root))
      && y.parent == old(x.parent) && x.parent == y && old(y.parent) == x
      && (forall n :: n in nodes && n != x && n != y ==>
        && n.left == (if old(n.left) == x then y else old(n.left))
        && n.right == (if old(n.right) == x then y else old(n.right)))
    }

    /** What `LeftRotate(x)` does to the links, where `y` was the right child of `x`. */
    twostate predicate LeftRotated(x: Node, y: Node)
      reads this, nodes
    {
      && nodes == old(nodes)
      && root == (if x == old(root) then y else old(root))
      && (forall n :: n in nodes ==>
        && n.left == (if n == y then x else if n != x && old(n.left) == x then y else old(n.left))
        && n.right == (if n == x then old(y.left) else if n != y && old(n.right) == x then y else old(n.right))
        && n.parent == (if n == x then y else if n == y then old(x.parent)
                          else if n == old(y.left) then x else old(n.parent)))
    }

    twostate lemma LeftRotateLinked(x: Node, new y: Node)
      requires old(Linked()) && x in nodes && y == old(x.right) && y != nil
      requires old(Apart(x) && Apart(y))
      requires LeftRotated(x, y)
      ensures Linked()
    {
      assert old(Down(x)) && old(Down(y));
      assert x != old(root) ==> old(Up(x)) && old(Down(x.parent));
      forall n | n in nodes ensures Down(n) {
        assert old(Down(n));
        assert old(n.left) != nil ==> old(Down(n.left));
        assert old(n.right) != nil ==> old(Down(n.right));
      }
      forall n | n in nodes && n != root ensures Up(n) {
        assert n != old(root) ==> old(Up(n)) && old(Down(n.parent));
      }
    }

    method LeftRotateLinks(node: Node)
      requires Linked()
      requires node in nodes && node.right != nil && Apart(node) && Apart(node.right)
      modifies this`root, nodes`left, nodes`right, nodes`parent
      ensures LeftRotated(node, old(node.right))
    {
      forall n | n in nodes
        ensures n.left == node ==> node != root && n == node.parent && n.right != node
        ensures n.right == node ==> node != root && n == node.parent && n.left != node
      {
        assert Down(n);
      }
      assert node != root ==> Up(node) && Down(node.parent);
      var rc := node.right;
      assert Down(node);
      var rclc := rc.left;
      assert Down(rc);
      // make rc take node's position
      rc.parent := node.parent;
      if node == root {
        root := rc;
      } else {
        if node.parent.left == node {
          node.parent.left := rc;
        } else {
          node.parent.right := rc;
        }
      }
      // make node rc's left child
      node.parent := rc;
      rc.left := node;
      // rc's left child becomes node's right child
      node.right := rclc;
      if rclc != nil {
        rclc.parent := node;
      }
    }

    /** What `RightRotate(x)` does to the links, where `y` was the left child of `x`. */
    twostate predicate RightRotated(x: Node, y: Node)
      reads this, nodes
    {
      && nodes == old(nodes)
      && root == (if x == old(root) then y else old(root))
      && (forall n :: n in nodes ==>
        && n.right == (if n == y then x else if n != x && old(n.right) == x then y else old(n.right))
        && n.left == (if n == x then old(y.right) else if n != y && old(n.left) == x then y else old(n.left))
        && n.parent == (if n == x then y else if n == y then old(x.parent)
                          else if n == old(y.right) then x else old(n.parent)))
    }

    twostate lemma RightRotateLinked(x: Node, new y: Node)
      requires old(Linked()) && x in nodes && y == old(x.left) && y != nil
      requires old(Apart(x) && Apart(y))
      requires RightRotated(x, y)
      ensures Linked()
    {
      assert old(Down(x)) && old(Down(y));
      assert x != old(root) ==> old(Up(x)) && old(Down(x.parent));
      forall n | n in nodes ensures Down(n) {
        assert old(Down(n));
        assert old(n.right) != nil ==> old(Down(n.right));
        assert old(n.left) != nil ==> old(Down(n.left));
      }
      forall n | n in nodes && n != root ensures Up(n) {
        assert n != old(root) ==> old(Up(n)) && old(Down(n.parent));
      }
    }

    method RightRotateLinks(node: Node)
      requires Linked()
      requires node in nodes && node.left != nil && Apart(node) && Apart(node.left)
      modifies this`root, nodes`right, nodes`left, nodes`parent
      ensures RightRotated(node, old(node.left))
    {
      forall n | n in nodes
        ensures n.right == node ==> node != root && n == node.parent && n.left != node
        ensures n.left == node ==> node != root && n == node.parent && n.right != node
      {
        assert Down(n);
      }
      assert node != root ==> Up(node) && Down(node.parent);
      var lc := node.left;
      assert Down(node);
      var lcrc := lc.right;
      assert Down(lc);
      // make lc take node's position
      lc.parent := node.parent;
      if node == root {
        root := lc;
      } else {
        if node.parent.right == node {
          node.parent.right := lc;
        } else {
          node.parent.left := lc;
        }
      }
      // make node lc's right child
      node.parent := lc;
      lc.right := node;
      // lc's right child becomes node's left child
      node.left := lcrc;
      if lcrc != nil {
        lcrc.parent := node;
      }
    }

    /** The spans just after a rotation: only those of `x` and `y` have to change. */
    ghost predicate SpanRotatedOk(n: Node, x: Node, y: Node)
      requires n.left != null && n.right != null
      reads n, n.left, n.right, x, y
    {
      && n.left != x && n.right != x
      && n.span == (if n.left == y then x.span else n.left.span) + [n] + (if n.right == y then x.span else n.right.span)
    }

    ghost predicate SpansRotated(x: Node, y: Node, sx: seq<Node>)
      requires Linked()
      reads this`root, this`nodes, nil, nodes
    {
      && nil.span == [] && x in nodes && y in nodes && x != y
      && x.left != x && x.right != x && x.left != y && x.right != y && y.left != y && y.right != y
      && Down(x) && Down(y)
      && sx == x.left.span + [x] + x.right.span
      && x.span == (if y.left == x then sx else y.left.span) + [y] + (if y.right == x then sx else y.right.span)
      && (forall n {:trigger SpanRotatedOk(n, x, y)} ::
        n in nodes && n != x && n != y ==> Down(n) && SpanRotatedOk(n, x, y))
    }

    ghost method RespanRotated(x: Node, y: Node, sx: seq<Node>)
      requires Linked() && SpansRotated(x, y, sx)
      modifies x`span, y`span
      ensures Linked() && Spanned()
      ensures x.span == sx && y.span == old(x.span)
    {
      y.span := x.span;
      x.span := sx;
      LinkedKept();
      forall n | n in nodes ensures SpanOk(n) {
        assert n != x && n != y ==> old(Down(n)) && old(SpanRotatedOk(n, x, y));
      }
    }

    twostate lemma LeftRotateSpans(x: Node, new y: Node, new sx: seq<Node>)
      requires old(Linked()) && Linked() && old(Spanned()) && nil.span == []
      requires x in nodes && y == old(x.right) && y != nil && LeftRotated(x, y)
      requires old(Apart(x) && Apart(y))
      requires forall n :: n in nodes ==> n.span == old(n.span)
      requires sx == old(x.left.span) + [x] + old(y.left.span)
      ensures SpansRotated(x, y, sx)
    {
      assert old(Down(x)) && old(Down(y)) && Down(x) && Down(y) && old(SpanOk(x)) && old(SpanOk(y));
      SpanAssoc(old(x.left.span), x, old(y.left.span), y, old(y.right.span));
      forall n | n in nodes && n != x && n != y ensures Down(n) && SpanRotatedOk(n, x, y) {
        assert old(Down(n)) && old(SpanOk(n)) && Down(n);
      }
    }

    method LeftRotate(node: Node)
      requires Linked() && Spanned()
      requires node in nodes && node.right != nil
      modifies this`root, nodes`left, nodes`right, nodes`parent, nodes`span
      ensures LeftRotated(node, old(node.right)) && Rotated(node, old(node.right))
      ensures Linked() && Spanned() && root.parent == old(root.parent) && (old(Rooted()) ==> Rooted())
      ensures root.span == old(root.span)
      ensures forall n :: n in nodes && n != node && n != old(node.right) ==> n.span == old(n.span)
    {
      SpansApart(node);
      assert Down(node);
      var rc := node.right;
      SpansApart(rc);
      ghost var sx := node.left.span + [node] + rc.left.span;
      LeftRotateLinks(node);
      LeftRotateLinked(node, rc);
      LeftRotateSpans(node, rc, sx);
      RespanRotated(node, rc, sx);
    }

    twostate lemma RightRotateSpans(x: Node, new y: Node, new sx: seq<Node>)
      requires old(Linked()) && Linked() && old(Spanned()) && nil.span == []
      requires x in nodes && y == old(x.left) && y != nil && RightRotated(x, y)
      requires old(Apart(x) && Apart(y))
      requires forall n :: n in nodes ==> n.span == old(n.span)
      requires sx == old(y.right.span) + [x] + old(x.right.span)
      ensures SpansRotated(x, y, sx)
    {
      assert old(Down(x)) && old(Down(y)) && Down(x) && Down(y) && old(SpanOk(x)) && old(SpanOk(y));
      SpanAssoc(old(y.left.span), y, old(y.right.span), x, old(x.right.span));
      forall n | n in nodes && n != x && n != y ensures Down(n) && SpanRotatedOk(n, x, y) {
        assert old(Down(n)) && old(SpanOk(n)) && Down(n);
      }
    }

    method RightRotate(node: Node)
      requires Linked() && Spanned()
      requires node in nodes && node.left != nil
      modifies this`root, nodes`right, nodes`left, nodes`parent, nodes`span
      ensures RightRotated(node, old(node.left)) && Rotated(node, old(node.left))
      ensures Linked() && Spanned() && root.parent == old(root.parent) && (old(Rooted()) ==> Rooted())
      ensures root.span == old(root.span)
      ensures forall n :: n in nodes && n != node && n != old(node.left) ==> n.span == old(n.span)
    {
      SpansApart(node);
      assert Down(node);
      var lc := node.left;
      SpansApart(lc);
      ghost var sx := lc.right.span + [node] + node.right.span;
      RightRotateLinks(node);
      RightRotateLinked(node, lc);
      RightRotateSpans(node, lc, sx);
      RespanRotated(node, lc, sx);
    }

    // ---------- what a rotation does to the colour and height rules ----------

    lemma Excused(e: Node, ex: set<Node>)
      requires Linked() && Sentinel() && AllFine(nil, ex)
      requires forall n :: n in ex && n in nodes ==> Fine(n, e)
      ensures AllFine(e, {})
    {
      forall n | n in nodes ensures Down(n) && Fine(n, e) {
        assert Down(n) && (n !in ex ==> Fine(n, nil));
      }
    }

    /** A rotation that lets `y` take over the height of `x` and does not leave it redder
        keeps the rules at every other node. A child `d` of the two may change as well. */
    twostate lemma RotatedOthers(x: Node, new y: Node, new d: Node, new ex: set<Node>)
      requires ex <= old(nodes) && old(Linked()) && Linked() && Rotated(x, y) && old(AllFine(nil, {x, y} + ex))
      requires nil.bh == old(nil.bh) && nil.color == old(nil.color) == BLACK
      requires forall n :: n in nodes && n != x && n != y && n != d ==> n.bh == old(n.bh) && n.color == old(n.color)
      requires d in nodes ==> d != x && d != y && d.parent in {x, y} && Fine(d, nil)
      requires y.bh == old(x.bh) && (y.color == BLACK || y.color == old(x.color))
      ensures AllFine(nil, {x, y} + ex)
    {
      assert Down(y);
      forall n | n in nodes && n !in {x, y} + ex ensures Down(n) && Fine(n, nil) {
        assert old(Down(n)) && old(Fine(n, nil)) && Down(n);
      }
    }

    // ---------- insertion ----------

    /** The invariant of the insertion loop: only the edge above `node` may be red at both ends. */
    ghost predicate InsertInv(node: Node)
      reads this`root, this`nodes, nodes, nil
    {
      && Linked() && Sentinel() && Spanned() && AllFine(node, {})
      && node in nodes && root in nodes && node.color == RED && (root == node || root.color == BLACK)
    }

    /** The root's parent link leads to a red leaf deep in the tree, the only child of a black node. */
    ghost predicate StrayLeaf()
      reads this`root, this`nodes, nodes
    {
      Linked() && root in nodes &&
      var f := root.parent;
      && f in nodes && f.color == RED && f.left == nil && f.right == nil
      && f.parent in nodes && f.parent != root && f.parent.color == BLACK
      && (f.parent.left, f.parent.right) in {(f, nil), (nil, f)}
    }

    /** What holds in the loop if the node just inserted is the one that the root's parent link leads to. */
    ghost predicate Stray(node: Node)
      reads this`root, this`nodes, nodes, node
    {
      Linked() && root in nodes
        && (StrayLeaf() || (root.parent == node && node != root && node.left == nil && node.right == nil))
    }

    /** Lines 98-100 and 122-124: the parent and the uncle become black, the grandparent red. */
    method InsertRecolor(node: Node, p: Node, u: Node)
      requires InsertInv(node) && p == node.parent && p in nodes && p.color == RED && node != root
      requires p.parent in nodes && p.parent.left != null && p.parent.right != null
      requires (p == p.parent.left && u == p.parent.right) || (p == p.parent.right && u == p.parent.left)
      requires u.color == RED
      modifies nodes`color, nodes`bh
      ensures InsertInv(p.parent) && LinksKept() && p.color == BLACK && u.color == BLACK
      ensures forall n :: n in nodes && n != p && n != u && n != p.parent ==> n.color == old(n.color)
      ensures forall n :: n in nodes ==> n.span == old(n.span)
    {
      assert Down(p.parent) && Fine(p.parent, node) && Down(p) && Fine(p, node);
      u.color := BLACK;
      p.color := BLACK;
      p.parent.color := RED;
      p.bh := p.bh + 1;
      u.bh := u.bh + 1;
      ShapeKept();
      RecolorFine(node, p, u, p.parent);
    }

    twostate lemma RecolorFine(node: Node, new p: Node, new u: Node, new g: Node)
      requires old(InsertInv(node)) && Linked() && LinksKept()
      requires {p, u, g} <= nodes && p == node.parent && g == p.parent && (g.left, g.right) in {(p, u), (u, p)}
      requires old(p.color == RED && u.color == RED)
      requires p.color == BLACK && u.color == BLACK && g.color == RED && nil.color == BLACK && nil.bh == 0
      requires p.bh == old(p.bh) + 1 && u.bh == old(u.bh) + 1
      requires forall n :: n in nodes && n != p && n != u ==> n.bh == old(n.bh)
      requires forall n :: n in nodes && n != p && n != u && n != g ==> n.color == old(n.color)
      ensures AllFine(g, {})
    {
      assert old(Down(g)) && old(Fine(g, node));
      forall n | n in nodes ensures Down(n) && Fine(n, g) {
        assert old(Down(n)) && old(Fine(n, node)) && Down(n);
      }
    }

    /** Lines 112-114: the parent becomes black, the grandparent red and is rotated down. If the loop came to
        the root, the parent is the stray leaf. */
    method InsertRotateRight(node: Node, p: Node)
      requires InsertInv(node) && p == node.parent && p in nodes && p.color == RED && p != root
      requires p.parent in nodes && p == p.parent.left && p.parent.right != null && p.parent.right.color == BLACK
      requires if node == root then StrayLeaf() else node == p.left
      modifies this`root, nodes`left, nodes`right, nodes`parent, nodes`color, nodes`span, nodes`bh
      ensures InsertInv(node) && node.parent == p && p.color == BLACK && root.parent == old(root.parent)
      ensures root.span == old(root.span) && (old(node != root) ==> node != root)
    {
      ghost var g := p.parent;
      SpansApart(p);
      SpansApart(g);
      p.color := BLACK;
      p.parent.color := RED;
      p.bh, g.bh := g.bh, p.bh;
      ShapeKept();
      RightRotate(p.parent);
      assert Down(p);
      if old(node == root) {
        StrayRotatedFine(node, g, p);
      } else {
        InsertRotatedFine(node, g, p, old(p.right), old(g.right));
      }
    }

    /** Lines 135-137: the parent becomes black, the grandparent red and is rotated down. If the loop came to
        the root, the parent is the stray leaf. */
    method InsertRotateLeft(node: Node, p: Node)
      requires InsertInv(node) && p == node.parent && p in nodes && p.color == RED && p != root
      requires p.parent in nodes && p == p.parent.right && p.parent.left != null && p.parent.left.color == BLACK
      requires if node == root then StrayLeaf() else node == p.right
      modifies this`root, nodes`left, nodes`right, nodes`parent, nodes`color, nodes`span, nodes`bh
      ensures InsertInv(node) && node.parent == p && p.color == BLACK && root.parent == old(root.parent)
      ensures root.span == old(root.span) && (old(node != root) ==> node != root)
    {
      ghost var g := p.parent;
      SpansApart(p);
      SpansApart(g);
      p.color := BLACK;
      p.parent.color := RED;
      p.bh, g.bh := g.bh, p.bh;
      ShapeKept();
      LeftRotate(p.parent);
      assert Down(p);
      if old(node == root) {
        StrayRotatedFine(node, g, p);
      } else {
        InsertRotatedFine(node, g, p, old(p.left), old(g.left));
      }
    }

    /** Lines 107-109: an inner child is rotated up first, and the loop goes on from the old parent. */
    method InsertTurnLeft(node: Node, p: Node)
      requires InsertInv(node) && p == node.parent && p in nodes && p.color == RED && node == p.right && p != root
      requires p.parent in nodes && p == p.parent.left
      modifies this`root, nodes`left, nodes`right, nodes`parent, nodes`span
      ensures InsertInv(p) && p.parent == node && p == node.left && node.color == RED && root == old(root)
      ensures root.parent == old(root.parent)
      ensures node.parent == old(p.parent) && node.parent.left == node && node.parent.right == old(p.parent.right)
      ensures root.span == old(root.span)
    {
      ghost var g := p.parent;
      assert Down(p) && Up(p) && Down(g);
      SpansApart(p);
      SpansApart(node);
      SpansApart(g);
      LeftRotate(p);
      InsertTurnedFine(node, p);
    }

    /** Lines 131-133: an inner child is rotated up first, and the loop goes on from the old parent. */
    method InsertTurnRight(node: Node, p: Node)
      requires InsertInv(node) && p == node.parent && p in nodes && p.color == RED && node == p.left && p != root
      requires p.parent in nodes && p == p.parent.right
      modifies this`root, nodes`right, nodes`left, nodes`parent, nodes`span
      ensures InsertInv(p) && p.parent == node && p == node.right && node.color == RED && root == old(root)
      ensures root.parent == old(root.parent)
      ensures node.parent == old(p.parent) && node.parent.right == node && node.parent.left == old(p.parent.left)
      ensures root.span == old(root.span)
    {
      ghost var g := p.parent;
      assert Down(p) && Up(p) && Down(g);
      SpansApart(p);
      SpansApart(node);
      SpansApart(g);
      RightRotate(p);
      InsertTurnedFine(node, p);
    }

    twostate lemma InsertTurnedFine(node: Node, new p: Node)
      requires old(InsertInv(node)) && Linked() && Sentinel() && p in nodes && p in old(nodes) && Rotated(p, node)
      requires p == old(node.parent) && old(p.color) == RED && old(p != root && node != root && Apart(p) && Apart(node))
      requires forall n :: n in nodes ==> n.bh == old(n.bh) && n.color == old(n.color)
      requires p.left in {old(p.left), old(node.right)} && p.right in {old(p.right), old(node.left)}
      requires (node.left == p && node.right == old(node.right)) || (node.right == p && node.left == old(node.left))
      requires p.left != node && p.right != node
      ensures AllFine(p, {})
    {
      assert old(Up(node)) && Down(p) && Down(node);
      assert old(Down(p)) && old(Fine(p, node)) && old(Down(node)) && old(Fine(node, node));
      forall n | n in nodes && n != p && n != node ensures old(Down(n)) && old(Fine(n, nil)) {
        assert old(Down(n)) && old(Fine(n, node));
      }
      RotatedOthers(p, node, nil, {});
      Excused(p, {p, node});
    }

    twostate lemma InsertRotatedFine(node: Node, new x: Node, new y: Node, new c: Node, new u: Node)
      requires old(InsertInv(node)) && Linked() && Sentinel()
      requires x in old(nodes) && y in old(nodes) && Rotated(x, y)
      requires y == old(node.parent) && old(y.color) == RED && old(Apart(x) && Apart(y))
      requires y.color == BLACK && x.color == RED && y.bh == old(x.bh) && x.bh == old(y.bh)
      requires forall n :: n in nodes && n != x && n != y ==> n.bh == old(n.bh) && n.color == old(n.color)
      requires (old(y.left), old(y.right)) in {(node, c), (c, node)}
      requires (old(x.left), old(x.right)) in {(y, u), (u, y)} && old(u.color) == BLACK
      requires (y.left, y.right) in {(node, x), (x, node)}
      requires (x.left, x.right) in {(c, u), (u, c)}
      ensures AllFine(node, {})
    {
      assert old(Down(x)) && old(Fine(x, node)) && old(Down(y)) && old(Fine(y, node)) && Down(x) && Down(y);
      forall n | n in nodes && n != x && n != y ensures old(Down(n)) && old(Fine(n, nil)) {
        assert old(Down(n)) && old(Fine(n, node));
      }
      RotatedOthers(x, y, nil, {});
      Excused(node, {x, y});
    }

    /** The stray leaf takes the place of its parent, which becomes its red child. */
    twostate lemma StrayRotatedFine(node: Node, new x: Node, new y: Node)
      requires old(InsertInv(node)) && Linked() && Sentinel() && old(StrayLeaf()) && node == old(root) == root
      requires y == old(node.parent) && x == old(y.parent) && x in nodes && y in nodes && Rotated(x, y)
      requires y.color == BLACK && x.color == RED && y.bh == old(x.bh) && x.bh == old(y.bh)
      requires forall n :: n in nodes && n != x && n != y ==> n.bh == old(n.bh) && n.color == old(n.color)
      requires (y.left, y.right) in {(nil, x), (x, nil)} && x.left == nil && x.right == nil
      ensures AllFine(node, {})
    {
      assert old(Down(x)) && old(Fine(x, node)) && old(Down(y)) && old(Fine(y, node)) && Down(x) && Down(y);
      forall n | n in nodes && n != x && n != y ensures old(Down(n)) && old(Fine(n, nil)) {
        assert old(Down(n)) && old(Fine(n, node));
      }
      RotatedOthers(x, y, nil, {});
      Excused(node, {x, y});
    }

    /** Recolouring above the stray leaf leaves it as it is; recolouring at it makes its parent black. */
    twostate lemma StrayRecoloured(start: Node, new p: Node, new u: Node)
      requires old(InsertInv(start)) && old(Stray(start)) && LinksKept() && Linked()
      requires start != root && p == start.parent && p in nodes && p.parent in nodes && p != root
      requires (p == p.parent.left && u == p.parent.right) || (p == p.parent.right && u == p.parent.left)
      requires (start == p.left || start == p.right) && old(p.color) == RED && old(u.color) == RED && p.color == BLACK
      requires forall n :: n in nodes && n != p && n != u && n != p.parent ==> n.color == old(n.color)
      ensures StrayLeaf()
    {
      var f, g := root.parent, p.parent;
      assert old(Down(p)) && old(Fine(p, start)) && old(Down(g)) && old(Down(start)) && old(Fine(start, start));
      assert old(p.left) != nil ==> old(Down(p.left)) && old(Fine(p.left, start));
      assert old(p.right) != nil ==> old(Down(p.right)) && old(Fine(p.right, start));
      if old(StrayLeaf()) {
        assert old(Down(f.parent));
      }
    }

    /** Lines 95-115: the parent is a left child. */
    method InsertStepLeft(start: Node) returns (node: Node)
      requires InsertInv(start) && Whole() && start.parent.color == RED && (start == root ==> StrayLeaf())
      requires start.parent.parent != null && start.parent == start.parent.parent.left
      modifies this`root, nodes`left, nodes`right, nodes`parent, nodes`color, nodes`span, nodes`bh
      ensures InsertInv(node) && root.span == old(root.span) && Whole() && |node.span| <= |root.span|
      ensures root.parent == old(root.parent)
      ensures node.parent.color == RED ==> |node.span| > old(|start.span|)
      ensures old(Stray(start)) && node.parent.color == RED ==> Stray(node)
      ensures if old(UncleRed(start)) then Recoloured(start, node)
              else node.parent.color == BLACK && (old(start != root) ==> node != root)
    {
      node := start;
      var p := node.parent;
      GrandparentExists(node);
      var u := p.parent.right;
      assert Down(p.parent) && (u != nil ==> Fine(u, node));
      if u.color == RED {
        InsertRecolor(node, p, u);
        if old(Stray(start)) { StrayRecoloured(start, p, u); }
        node := p.parent;
      } else {
        if node == p.right {
          InsertTurnLeft(node, p);
          node := p;
          p := node.parent;
        }
        InsertRotateRight(node, p);
      }
      SpanWithin(root, node);
    }

    /** Lines 119-138: the parent is a right child. */
    method InsertStepRight(start: Node) returns (node: Node)
      requires InsertInv(start) && Whole() && start.parent.color == RED && (start == root ==> StrayLeaf())
      requires start.parent.parent != null && start.parent == start.parent.parent.right
      modifies this`root, nodes`left, nodes`right, nodes`parent, nodes`color, nodes`span, nodes`bh
      ensures InsertInv(node) && root.span == old(root.span) && Whole() && |node.span| <= |root.span|
      ensures root.parent == old(root.parent)
      ensures node.parent.color == RED ==> |node.span| > old(|start.span|)
      ensures old(Stray(start)) && node.parent.color == RED ==> Stray(node)
      ensures if old(UncleRed(start)) then Recoloured(start, node)
              else node.parent.color == BLACK && (old(start != root) ==> node != root)
    {
      node := start;
      var p := node.parent;
      GrandparentExists(node);
      var u := p.parent.left;
      assert Down(p.parent) && (u != nil ==> Fine(u, node));
      if u.color == RED {
        InsertRecolor(node, p, u);
        if old(Stray(start)) { StrayRecoloured(start, p, u); }
        node := p.parent;
      } else {
        if node == p.left {
          InsertTurnRight(node, p);
          node := p;
          p := node.parent;
        }
        InsertRotateLeft(node, p);
      }
      SpanWithin(root, node);
    }

    /** One round of the loop of lines 90-140. It comes to the root only if the root's parent link leads
        to the node just inserted. */
    method InsertStep(start: Node) returns (node: Node)
      requires InsertInv(start) && Whole() && start.parent.color == RED && (start == root ==> StrayLeaf())
      modifies this`root, nodes`left, nodes`right, nodes`parent, nodes`color, nodes`span, nodes`bh
      ensures InsertInv(node) && root.span == old(root.span) && Whole() && |node.span| <= |root.span|
      ensures root.parent == old(root.parent)
      ensures node.parent.color == RED ==> |node.span| > old(|start.span|)
      ensures old(Stray(start)) && node.parent.color == RED ==> Stray(node)
      ensures if old(UncleRed(start)) then Recoloured(start, node)
              else node.parent.color == BLACK && (old(start != root) ==> node != root)
    {
      GrandparentExists(start);
      assert Linked();
      hide InsertInv, StrayLeaf, Stray, UncleRed, Recoloured, Whole;
      if start.parent == start.parent.parent.left {
        node := InsertStepLeft(start);
      } else {
        node := InsertStepRight(start);
      }
    }

    /** Both children of the grandparent are red. */
    ghost predicate UncleRed(start: Node)
      reads start, start.parent, if start.parent != null then Relatives(start.parent.parent) else {}
    {
      start.parent != null && start.parent.parent != null &&
      var g := start.parent.parent;
      g.left != null && g.left.color == RED && g.right != null && g.right.color == RED
    }

    ghost function Relatives(g: Node?): set<Node?>
      reads g
    {
      if g == null then {} else {g, g.left, g.right}
    }

    /** What a round with a red uncle does: the links stay, and the loop goes on from the grandparent. */
    twostate predicate Recoloured(start: Node, new node: Node)
      reads this, nodes, start
    {
      && LinksKept() && start in nodes && start != root && start.parent in nodes && start.parent.parent == node
      && node in nodes && node.left in nodes && node.right in nodes
      && old(node.left.color) == RED && old(node.right.color) == RED && node.left.color == BLACK
      && node.right.color == BLACK
      && forall n :: n in nodes && n != node && n != node.left && n != node.right ==> n.color == old(n.color)
    }

    /** Lines 89-141. The parent link of the root is never written, so the loop ends with the root it can trust exactly
        if it began with one. */
    method InsertRounds(start: Node) returns (node: Node)
      requires InsertInv(start) && Whole() && (Rooted() || Stray(start))
      modifies this`root, nodes`left, nodes`right, nodes`parent, nodes`color, nodes`span, nodes`bh
      ensures InsertInv(node) && node.parent.color != RED
      ensures root.parent == old(root.parent) && root.span == old(root.span)
      ensures old(start.parent.color) != RED ==> root == old(root)
    {
      node := start;
      SpanWithin(root, node);
      while node.parent.color == RED
        invariant InsertInv(node) && Whole()
        invariant root.span == old(root.span) && root.parent == old(root.parent)
        invariant old(Rooted()) ==> Rooted()
        invariant old(Stray(start)) && node.parent.color == RED ==> Stray(node)
        invariant |node.span| <= |root.span|
        invariant old(start.parent.color) != RED ==> root == old(root) && node == start && node.parent.color != RED
        decreases if node.parent.color == RED then |root.span| + 1 - |node.span| else 0
      {
        node := InsertStep(node);
      }
    }

    /** Lines 87-143. */
    method InsertFixup(start: Node)
      requires InsertInv(start) && Whole() && (Rooted() || Stray(start))
      modifies this`root, nodes`left, nodes`right, nodes`parent, nodes`color, nodes`span, nodes`bh
      ensures Linked() && Sentinel() && Spanned() && AllFine(nil, {})
      ensures root in nodes && root.color == BLACK && root.parent == old(root.parent)
      ensures root.span == old(root.span)
      ensures old(start.parent.color) != RED ==> root == old(root)
    {
      var node := InsertRounds(start);
      BlackenRoot(node);
    }

    /** Line 142. */
    method BlackenRoot(node: Node)
      requires InsertInv(node) && node.parent.color != RED
      modifies nodes`color, nodes`bh
      ensures Linked() && Sentinel() && Spanned() && AllFine(nil, {}) && LinksKept()
      ensures root in nodes && root.color == BLACK && forall n :: n in nodes && n != root ==> n.color == old(n.color)
      ensures root.span == old(root.span)
    {
      assert node != root ==> Up(node);
      assert Down(root) && Fine(root, node);
      ghost var red := root.color == RED;
      root.color := BLACK;
      if red {
        root.bh := root.bh + 1;
      }
      ShapeKept();
      forall n | n in nodes ensures Down(n) && Fine(n, nil) {
        assert old(Down(n)) && old(Fine(n, node)) && Down(n);
      }
    }

    lemma GrandparentExists(node: Node)
      requires InsertInv(node) && Whole() && node.parent.color == RED && (node == root ==> StrayLeaf())
      ensures node.parent in nodes && node.parent != root && node.parent.parent in nodes
      ensures node.parent == node.parent.parent.left || node.parent == node.parent.parent.right
      ensures node != root ==> node == node.parent.left || node == node.parent.right
      ensures node != root ==> |node.span| < |node.parent.span| < |node.parent.parent.span| <= |root.span|
    {
      if node != root { assert Up(node); }
      assert Down(node.parent) && Fine(node.parent, node) && Fine(root, node);
      assert Up(node.parent);
      SpansApart(node.parent);
      SpansApart(node.parent.parent);
      SpanWithin(root, node.parent.parent);
    }

    // ---------- the tree as a sequence ----------

    /** The nodes of the tree in key order. */
    ghost function Elements(): seq<Node>
      reads this`root, root
    {
      root.span
    }

    /** All rules of a red-black tree, without the count and the parent link of the root. */
    ghost predicate Formed()
      reads this`root, this`nodes, nodes, nil
    {
      && Linked() && Sentinel() && Spanned() && AllFine(nil, {}) && Whole() && KeySorted(Elements())
      && (root == nil || (root in nodes && root.color == BLACK))
    }

    ghost predicate Shaped()
      reads this`root, this`size, this`nodes, nodes, nil
    {
      Formed() && size == |Elements()|
    }

    /** The shape of a red-black tree, and a parent link of the root that leads out of it to a black node. */
    ghost predicate Valid()
      reads this, root, nodes, nil, stale`color
    {
      Shaped() && Rooted()
    }

    /** The walk for `key` has come to `x` below `y`, between the nodes `pre` and the nodes `post`. */
    ghost predicate Walked(x: Node, y: Node, pre: seq<Node>, post: seq<Node>, key: int)
      reads this`root, root, x, y, pre`key, post`key
    {
      && root.span == pre + x.span + post && UpTo(pre, key) && Above(post, key)
      && (x != root ==> if key < y.key then y.left == x && post != [] && post[0] == y
                                       else y.right == x && pre != [] && pre[|pre| - 1] == y)
    }

    lemma WalkOn(x: Node, y: Node, pre: seq<Node>, post: seq<Node>, key: int)
      requires Linked() && Spanned() && KeySorted(root.span) && x in nodes && Walked(x, y, pre, post, key)
      ensures x.left != null && x.right != null && |x.left.span| < |x.span| && |x.right.span| < |x.span|
      ensures (x.left == nil || x.left in nodes) && (x.right == nil || x.right in nodes)
      ensures if key < x.key then Walked(x.left, x, pre, [x] + (x.right.span + post), key)
                             else Walked(x.right, x, pre + x.left.span + [x], post, key)
    {
      assert Down(x) && SpanOk(x);
      Descend(root.span, pre, x.left.span, x, x.right.span, post, key);
    }

    /** Lines 64-71: `y` is the last node on the way down to where `key` belongs,
        between the nodes `pre` and the nodes `post`. */
    method FindPlace(key: int) returns (y: Node, ghost pre: seq<Node>, ghost post: seq<Node>)
      requires Linked() && Spanned() && KeySorted(Elements()) && root in nodes
      ensures y in nodes && Elements() == pre + post
      ensures UpTo(pre, key) && Above(post, key)
      ensures if key < y.key then y.left == nil && post != [] && post[0] == y
                             else y.right == nil && pre != [] && pre[|pre| - 1] == y
    {
      y, pre, post := root, [], [];
      var x := root;
      assert Walked(x, y, pre, post, key);
      while x != nil
        invariant (x == nil || x in nodes) && y in nodes && Walked(x, y, pre, post, key)
        decreases |x.span|
      {
        WalkOn(x, y, pre, post, key);
        hide Walked;
        ghost var a, b := x.left.span, x.right.span;
        y := x;
        if key < x.key {
          x := x.left;
          post := [y] + (b + post);
        } else {
          x := x.right;
          pre := pre + a + [y];
        }
      }
      assert pre + nil.span + post == pre + post;
    }

    /** What lines 72-80 do: `node` becomes a red leaf below `y`. */
    twostate predicate Attached(node: Node, new y: Node, new left: bool)
      reads this, nodes, node
    {
      && nodes == old(nodes) + {node} && node !in old(nodes) && y in old(nodes) && root == old(root)
      && node.left == nil && node.right == nil && node.parent == y && node.color == RED && node.bh == 0
      && node.span == [node]
      && (forall n :: n in old(nodes) ==>
        && n.left == (if n == y && left then node else old(n.left))
        && n.right == (if n == y && !left then node else old(n.right))
        && n.parent == old(n.parent) && n.color == old(n.color) && n.bh == old(n.bh)
        && n.span == Subst(old(n.span), y, if left then [node, y] else [y, node]))
    }

    twostate lemma AttachedLinked(node: Node, new y: Node, new left: bool)
      requires old(Linked()) && Attached(node, y, left) && node != nil && root in old(nodes)
      requires if left then old(y.left) == nil else old(y.right) == nil
      ensures Linked()
    {
      forall n | n in nodes ensures Down(n) {
        assert n != node ==> old(Down(n));
      }
      forall n | n in nodes && n != root ensures Up(n) {
        assert n != node ==> old(Up(n));
      }
    }

    twostate lemma AttachedFine(node: Node, new y: Node, new left: bool)
      requires old(Linked()) && Linked() && Attached(node, y, left) && old(AllFine(nil, {}))
      requires nil.color == BLACK && nil.bh == 0 && old(nil.color) == BLACK && old(nil.bh) == 0
      requires if left then old(y.left) == nil else old(y.right) == nil
      ensures AllFine(node, {})
    {
      forall n | n in nodes ensures Down(n) && Fine(n, node) {
        assert Down(n) && (n != node ==> old(Down(n)) && old(Fine(n, nil)));
      }
    }

    twostate lemma AttachedSpanned(node: Node, new y: Node, new left: bool)
      requires old(Linked()) && Linked() && Attached(node, y, left) && old(Spanned()) && nil.span == []
      requires if left then old(y.left) == nil else old(y.right) == nil
      ensures Spanned()
    {
      var w := if left then [node, y] else [y, node];
      forall n | n in nodes ensures Down(n) && SpanOk(n) {
        assert Down(n);
        if n != node {
          assert old(Down(n)) && old(SpanOk(n));
          SubstNode(old(n.left.span), n, old(n.right.span), y, w);
          if n == y {
            assert [node] + [y] + n.right.span == [] + [node, y] + n.right.span;
            assert n.left.span + [y] + [node] == n.left.span + [y, node] + [];
          }
        }
      }
    }

    /** Lines 72-80: hang `node` below `y` as a red leaf. */
    method Attach(node: Node, y: Node)
      requires Linked() && Sentinel() && Spanned() && AllFine(nil, {}) && root in nodes && root.color == BLACK
      requires node !in nodes && node != nil && y in nodes
      requires if node.key < y.key then y.left == nil else y.right == nil
      modifies this`nodes, nodes`left, nodes`right, nodes`parent, nodes`color, nodes`span, nodes`bh,
               node`left, node`right, node`parent, node`color, node`span, node`bh
      ensures nodes == old(nodes) + {node} && InsertInv(node)
      ensures root == old(root) && root.parent == old(root.parent) && node.parent == y && node.left == nil
        && node.right == nil
      ensures forall n :: n in old(nodes) ==> n.color == old(n.color)
      ensures root.span == Subst(old(root.span), y, if node.key < y.key then [node, y] else [y, node])
    {
      LinkLeaf(node, y);
      ghost var left := node.key < y.key;
      AttachedLinked(node, y, left);
      AttachedSpanned(node, y, left);
      AttachedFine(node, y, left);
    }

    method LinkLeaf(node: Node, y: Node)
      requires node !in nodes && y in nodes && y != nil
      modifies this`nodes, nodes`left, nodes`right, nodes`span,
               node`left, node`right, node`parent, node`color, node`span, node`bh
      ensures Attached(node, y, node.key < y.key)
    {
      node.parent := y;
      if node.key < y.key {
        y.left := node;
      } else {
        y.right := node;
      }
      node.left := nil;
      node.right := nil;
      node.color := RED;
      ghost var w := if node.key < y.key then [node, y] else [y, node];
      forall n | n in nodes {
        n.span := Subst(n.span, y, w);
      }
      nodes := nodes + {node};
      node.span, node.bh := [node], 0;
    }

    /** Lines 59-60 and 78-80: the first node of an empty tree, still red. */
    method PlantRoot(node: Node)
      requires nodes == {} && nil.color == BLACK && nil.bh == 0 && nil.span == [] && node != nil
      modifies this`root, this`nodes, this`stale, node`left, node`right, node`parent, node`color, node`span, node`bh
      ensures nodes == {node} && stale == nil && root == node && root.span == [node] && InsertInv(node) && Rooted()
      ensures node.left == nil && node.right == nil
    {
      root := node;
      node.parent := nil;
      node.left := nil;
      node.right := nil;
      node.color := RED;
      nodes, stale := {node}, nil;
      node.span, node.bh := [node], 0;
      assert Down(node) && SpanOk(node) && Fine(node, node);
    }

    /** Lines 62-71: hung below `y`, `node` is at its place in the order. */
    method FindParent(node: Node) returns (y: Node)
      requires Formed() && root != nil && node !in nodes && node != nil
      ensures y in nodes && (if node.key < y.key then y.left == nil else y.right == nil)
      ensures var t := Inserted(Elements(), node);
        && t == Subst(Elements(), y, if node.key < y.key then [node, y] else [y, node])
        && KeySorted(t) && Covers(t, nodes + {node}) && |t| == |Elements()| + 1
    {
      ghost var pre, post;
      y, pre, post := FindPlace(node.key);
      InsertedSpan(Elements(), pre, post, y, node);
      InsertedProperties(pre, post, node);
    }

    /** Lines 62-80: `node` becomes a red leaf at its place in the order. */
    method HangLeaf(node: Node)
      requires Formed() && root != nil && node !in nodes && node != nil
      modifies this`nodes, nodes`left, nodes`right, nodes`parent, nodes`color, nodes`span, nodes`bh,
               node`left, node`right, node`parent, node`color, node`span, node`bh
      ensures InsertInv(node) && node.left == nil && node.right == nil && nodes == old(nodes) + {node}
      ensures Elements() == old(Inserted(Elements(), node)) && |Elements()| == old(|Elements()|) + 1
      ensures Whole() && KeySorted(Elements())
      ensures forall n :: n in old(nodes) ==> n.color == old(n.color)
      ensures root == old(root) && root.parent == old(root.parent) && node != root && node.parent in old(nodes)
    {
      var y := FindParent(node);
      hide *;
      ghost var t := Inserted(Elements(), node);
      Attach(node, y);
      OrderKept(t);
    }

    /** Lines 57-80, also in an empty tree. */
    method InsertLeaf(node: Node)
      requires Formed() && node !in nodes && node != nil
      modifies this`root, this`nodes, this`stale,
               nodes`left, nodes`right, nodes`parent, nodes`color, nodes`span, nodes`bh,
               node`left, node`right, node`parent, node`color, node`span, node`bh
      ensures InsertInv(node) && Whole() && KeySorted(Elements()) && node.left == nil && node.right == nil
      ensures Elements() == old(Inserted(Elements(), node)) && |Elements()| == old(|Elements()|) + 1
      ensures nodes == old(nodes) + {node} && forall n :: n in old(nodes) ==> n.color == old(n.color)
      ensures old(root) == nil ==> Rooted() && stale == nil && root == node
      ensures old(root) != nil ==> stale == old(stale) && root == old(root) && root.parent == old(root.parent)
      ensures old(root) != nil ==> node != root && node.parent in old(nodes)
    {
      if root == nil {
        PlantRoot(node);
      } else {
        hide KeySorted, Inserted, InsertInv, Tree.Rooted;
        HangLeaf(node);
      }
    }

    /** Lines 57-82. The root's parent link leads into the tree afterwards exactly if it led to the inserted node. */
    method InsertNode(node: Node)
      requires Formed() && Rooted() && node !in nodes && node != nil
      modifies this`root, this`nodes, this`stale,
               nodes`left, nodes`right, nodes`parent, nodes`color, nodes`span, nodes`bh,
               node`left, node`right, node`parent, node`color, node`span, node`bh
      ensures Formed() && root in nodes && nodes == old(nodes) + {node}
      ensures stale == if old(root) == nil then nil else old(stale)
      ensures root.parent == stale && (Rooted() <==> old(root) == nil || node != old(stale))
      ensures Elements() == old(Inserted(Elements(), node)) && |Elements()| == old(|Elements()|) + 1
      ensures old(|Elements()|) == 1 ==> root == old(root)
    {
      InsertLeaf(node);
      LeafTrust(node);
      hide *;
      Settle(node);
    }

    /** The new leaf is where the root's parent link leads to, or the root can be trusted as before. */
    lemma LeafTrust(node: Node)
      requires InsertInv(node) && node.left == nil && node.right == nil && root.parent == stale
      requires stale == node ==> node != root
      requires stale != node ==> stale !in nodes && stale.color == BLACK
      ensures stale in nodes <==> stale == node
      ensures if stale in nodes then Stray(node) else Rooted()
    {
    }

    method Settle(node: Node)
      requires InsertInv(node) && Whole() && KeySorted(Elements())
      requires root.parent == stale && (if stale in nodes then Stray(node) else Rooted())
      modifies this`root, nodes`left, nodes`right, nodes`parent, nodes`color, nodes`span, nodes`bh
      ensures Formed() && root in nodes && root.parent == stale && root.span == old(root.span)
      ensures Rooted() <==> stale !in nodes
      ensures old(node.parent.color) != RED ==> root == old(root)
    {
      ghost var t := Elements();
      hide Linked, Spanned, AllFine, KeySorted, NoDup;
      InsertFixup(node);
      OrderKept(t);
    }

    /** Lines 57-83. */
    method InsertCounted(node: Node)
      requires Valid() && node !in nodes && node != nil
      modifies this`root, this`size, this`nodes, this`stale,
               nodes`left, nodes`right, nodes`parent, nodes`color, nodes`span, nodes`bh,
               node`left, node`right, node`parent, node`color, node`span, node`bh
      ensures Shaped() && (Valid() <==> old(root) == nil || node != old(stale))
      ensures Elements() == old(Inserted(Elements(), node)) && nodes == old(nodes) + {node} && size == old(size) + 1
      ensures stale == (if old(root) == nil then nil else old(stale)) && root.parent == stale
      ensures old(size) == 1 ==> root == old(root)
    {
      hide Formed, Inserted, Linked;
      InsertNode(node);
      size := size + 1;
    }

    /** The tree is valid afterwards unless the inserted node is the one that the root's parent link was left at. */
    method Insert(node: Node?)
      requires Valid()
      requires node != null && node != nil ==> node !in nodes
      modifies this`root, this`size, this`nodes, this`stale,
               nodes`left, nodes`right, nodes`parent, nodes`color, nodes`span, nodes`bh, node
      ensures node != null ==> node.key == old(node.key) && node.data == old(node.data)
      ensures node == null || node == nil ==>
        Valid() && Elements() == old(Elements()) && nodes == old(nodes) && size == old(size) && stale == old(stale)
      ensures node != null && node != nil ==>
        && Shaped() && (Valid() <==> old(root) == nil || node != old(stale))
        && Elements() == old(Inserted(Elements(), node)) && nodes == old(nodes) + {node} && size == old(size) + 1
        && stale == (if old(root) == nil then nil else old(stale)) && root.parent == stale
        && (old(size) == 1 ==> root == old(root))
    {
      hide Formed, Inserted, Shaped, Valid, Rooted;
      if node != null && node != nil {
        InsertCounted(node);
      }
    }

    // ---------- insertion when the root's parent link leads into the tree ----------

    /** Lines 89-141 up to the root: the loop ends with all rules restored, unless recolouring has come to the root and
        its parent is red. */
    method RoundsAgain(start: Node) returns (node: Node)
      requires InsertInv(start) && Whole() && start != root && root.parent != null
      modifies this`root, nodes`left, nodes`right, nodes`parent, nodes`color, nodes`span, nodes`bh
      ensures InsertInv(node) && Whole() && root.span == old(root.span) && root.parent == old(root.parent)
      ensures node.parent.color == RED ==> node == root == old(root) && root.left != nil && root.right != nil
    {
      node := start;
      SpanWithin(root, node);
      while node.parent.color == RED && node != root
        invariant InsertInv(node) && Whole()
        invariant root.span == old(root.span) && root.parent == old(root.parent)
        invariant |node.span| <= |root.span|
        invariant node.parent.color == RED ==> root == old(root)
        invariant node == root && node.parent.color == RED ==> root.left != nil && root.right != nil
        decreases if node.parent.color == RED then |root.span| + 1 - |node.span| else 0
      {
        node := InsertStep(node);
      }
    }

    /** A further insertion into a tree whose root has its parent link inside the tree keeps the shape, unless
        recolouring comes to the root while its parent is red. */
    method InsertAgain(node: Node) returns (settled: bool)
      requires Formed() && root != nil && root.parent != null && node !in nodes && node != nil
      modifies this`root, this`nodes, nodes`left, nodes`right, nodes`parent, nodes`color, nodes`span, nodes`bh,
               node`left, node`right, node`parent, node`color, node`span, node`bh
      ensures nodes == old(nodes) + {node} && Elements() == old(Inserted(Elements(), node))
      ensures root.parent == old(root.parent)
      ensures settled ==> Formed()
      ensures !settled ==> root == old(root) && InsertInv(root) && root.parent.color == RED
      ensures !settled ==> root.left != nil && root.right != nil
    {
      HangLeaf(node);
      hide *;
      settled := FixupAgain(node);
    }

    method FixupAgain(start: Node) returns (settled: bool)
      requires InsertInv(start) && Whole() && start != root && root.parent != null && KeySorted(Elements())
      modifies this`root, nodes`left, nodes`right, nodes`parent, nodes`color, nodes`span, nodes`bh
      ensures root.span == old(root.span) && root.parent == old(root.parent)
      ensures settled ==> Formed()
      ensures !settled ==> root == old(root) && InsertInv(root) && root.parent.color == RED
      ensures !settled ==> root.left != nil && root.right != nil
    {
      hide KeySorted, AllFine, Spanned;
      var node := RoundsAgain(start);
      if node.parent.color == RED {
        return false;
      }
      BlackenRoot(node);
      return true;
    }

    /** The round of lines 90-140 at a red root that is its own parent; the tests of the code are asserted. The loop
        ends, and the tree is no red-black tree any more. */
    method RoundAtSelf()
      requires InsertInv(root) && root.parent == root && root.left != nil && root.right != nil
      modifies this`root, nodes`left, nodes`right, nodes`parent, nodes`color, nodes`span
      ensures Linked() && Spanned() && !Balanced()
    {
      var node := root;
      assert Down(node) && Fine(node, node) && Down(node.right) && Fine(node.right, node);
      var p := node.parent;
      assert p.color == RED && p != p.parent.left;
      var u := p.parent.left;
      assert u.color != RED && p.left != node;
      p.color := BLACK;
      p.parent.color := RED;
      ghost var rc := node.right;
      LeftRotate(p.parent);
      assert node.parent.color != RED;
      root.color := BLACK;
      RootRotatedOthers(node, rc);
      SelfRotated(node);
    }

    /** A further insertion into a tree whose root is its own parent ends in a red-black tree if and only if recolouring
        does not come to the root. */
    method InsertAtSelf(node: Node) returns (settled: bool)
      requires Formed() && root != nil && root.parent == root && node !in nodes && node != nil
      modifies this`root, this`nodes, nodes`left, nodes`right, nodes`parent, nodes`color, nodes`span, nodes`bh,
               node`left, node`right, node`parent, node`color, node`span, node`bh
      ensures Linked() && Spanned() && (settled <==> Balanced()) && (settled ==> Formed())
    {
      settled := InsertAgain(node);
      if settled {
        NotedHeight(root);
      } else {
        RoundAtSelf();
      }
    }

    twostate lemma RootRotatedOthers(f: Node, new r: Node)
      requires old(Linked()) && Linked() && Rotated(f, r) && f == old(root) && old(AllFine(f, {}))
      requires nil.bh == old(nil.bh) && nil.color == old(nil.color)
      requires forall n :: n in nodes && n != f && n != r ==> n.bh == old(n.bh) && n.color == old(n.color)
      ensures AllFine(nil, {f, r})
    {
      forall n | n in nodes && n !in {f, r} ensures Down(n) && Fine(n, nil) {
        assert old(Down(n)) && old(Fine(n, f)) && Down(n);
      }
    }

    /** The heights below the former root differ. */
    lemma SelfRotated(f: Node)
      requires Linked() && Spanned() && Sentinel() && {root, f} <= nodes && root.left == f && f.parent == root
      requires AllFine(nil, {root, f}) && f.left != null && f.right != null && f.left.bh != f.right.bh
      ensures !Balanced()
    {
      assert Down(root) && SpanOk(root) && Down(f) && SpanOk(f);
      NotedApart(f.left, f);
      NotedApart(f.right, f);
      assert BlackHeight(f) == -1;
    }

    /** Below nodes where the rules hold the heights noted are the true ones. */
    lemma NotedApart(x: Node, f: Node)
      requires Linked() && Spanned() && Sentinel() && {root, f} <= nodes && f.parent == root && AllFine(nil, {root, f})
      requires x == nil || (x in nodes && x !in {root, f})
      ensures BlackHeight(x) == x.bh
      decreases |x.span|
    {
      if x != nil {
        assert Down(x) && SpanOk(x) && Fine(x, nil);
        NotedApart(x.left, f);
        NotedApart(x.right, f);
      }
    }

    // ---------- deletion ----------

    /** Line 35 of `util_rbtree.c`: the first node of a subtree. */
    method SubtreeMin(start: Node) returns (node: Node, ghost post: seq<Node>, ghost steps: nat)
      requires Linked() && Spanned() && start in nodes
      ensures node in nodes && node.left == nil && start.span == [node] + node.right.span + post
      ensures node != start ==> node.parent in nodes && node.parent.left == node && |node.parent.span| <= |start.span|
      ensures |node.span| <= |start.span|
      ensures steps == LeftWay(start) && (Sentinel() && AllFine(nil, {}) ==> steps < Reach(start))
    {
      hide AllFine, Reach;
      node, post, steps := start, [], 0;
      MinReach(node);
      while node.left != nil
        invariant node in nodes && start.span == node.span + post
        invariant node != start ==>
          node.parent in nodes && node.parent.left == node && |node.parent.span| <= |start.span|
        invariant steps + LeftWay(node) == LeftWay(start)
        invariant Sentinel() && AllFine(nil, {}) ==> steps + Reach(node) <= Reach(start) && Reach(node) > 0
        decreases |node.span|
      {
        assert Down(node) && SpanOk(node);
        post := [node] + node.right.span + post;
        MinReach(node);
        node := node.left;
        MinReach(node);
        steps := steps + 1;
      }
      assert Down(node) && SpanOk(node);
    }

    lemma MinReach(x: Node)
      requires Linked() && x in nodes
      ensures Sentinel() && AllFine(nil, {}) ==> Reach(x) > 0 && Reach(x.left) < Reach(x)
    {
      if Sentinel() && AllFine(nil, {}) { ReachDown(x); }
    }

    /** What lines 191-207 do to the links. */
    twostate predicate Unlinked(temp: Node, new subst: Node, new node: Node)
      reads this, nodes, nil
    {
      && nodes == old(nodes) && root == old(root) && temp in nodes && (subst == nil || subst in nodes)
      && var above := if old(temp.parent) == node then temp else old(temp.parent);
      && (subst == nil ==> nil.parent == above)
      && (forall n :: n in nodes ==>
        && n.left == (if old(n.left) == temp then subst else old(n.left))
        && n.right == (if old(n.right) == temp then subst else old(n.right))
        && n.parent == (if n == subst then above else old(n.parent)))
    }

    /** Only its parent has `x` as a child, and on one side only. */
    ghost predicate OneParent(x: Node)
      reads this`root, this`nodes, nodes, x
    {
      && (forall n :: n in nodes && (n.left == x || n.right == x) ==> n == x.parent && n.left != n.right && x != root)
      && (x != root ==> x.parent in nodes && (x.parent.left == x || x.parent.right == x))
    }

    lemma LinkedOneParent(x: Node)
      requires Linked() && x in nodes
      ensures OneParent(x)
    {
      forall n | n in nodes && (n.left == x || n.right == x) ensures n == x.parent && n.left != n.right && x != root {
        assert Down(n);
      }
      if x != root { assert Up(x); }
    }

    /** Lines 191-207: `subst` takes the place of `temp`. */
    method Unlink(temp: Node, subst: Node, node: Node)
      requires temp in nodes && (subst == nil || subst in nodes) && nil !in nodes
      requires temp != root && OneParent(temp) && temp.parent != subst && temp != subst
      modifies nodes`left, nodes`right, nodes`parent, nil`parent
      ensures Unlinked(temp, subst, node)
    {
      if temp.parent == node {
        subst.parent := temp;
      } else {
        subst.parent := temp.parent;
      }
      if temp == temp.parent.left {
        temp.parent.left := subst;
      } else {
        temp.parent.right := subst;
      }
    }

    /** What lines 214-240 do to the links. */
    twostate predicate PlaceTaken(temp: Node, new node: Node)
      reads this, nodes, nil
    {
      && nodes == old(nodes) && nil.parent == old(nil.parent) && temp in nodes && node in nodes
      && root == (if node == old(root) then temp else old(root))
      && (forall n :: n in nodes ==>
        && n.left == (if n == temp then old(node.left) else if old(n.left) == node then temp else old(n.left))
        && n.right == (if n == temp then old(node.right) else if old(n.right) == node then temp else old(n.right))
        && n.parent == (if n == temp then old(node.parent)
                        else if n == old(node.left) || n == old(node.right) then temp
                        else old(n.parent)))
    }

    /** Lines 214-240: `temp` takes the place and the colour of `node`. */
    method TakePlace(temp: Node, node: Node)
      requires temp in nodes && node in nodes && temp != node && nil !in nodes && temp != root
      requires OneParent(node) && node.parent != temp
      requires (node.left == nil || node.left in nodes) && (node.right == nil || node.right in nodes)
      requires node.left != temp && node.right != temp
      requires node.left == nil || node.left !in {node, node.parent}
      requires node.right == nil || node.right !in {node, node.parent}
      modifies this`root, nodes`left, nodes`right, nodes`parent, temp`color
      ensures PlaceTaken(temp, node)
      ensures temp.color == old(node.color)
    {
      temp.parent := node.parent;
      if node == root {
        root := temp;
      } else {
        if node.parent.left == node {
          node.parent.left := temp;
        } else {
          node.parent.right := temp;
        }
      }
      temp.right := node.right;
      temp.left := node.left;
      if temp.left != nil {
        temp.left.parent := temp;
      }
      if temp.right != nil {
        temp.right.parent := temp;
      }
      temp.color := node.color;
    }

    /** How successor `temp` and its right child `subst` lie below `node`. */
    ghost predicate Successor(node: Node, temp: Node, subst: Node)
      reads this`root, this`nodes, nodes, nil, node, temp, subst
    {
      && {node, temp, root} <= nodes && (subst == nil || subst in nodes) && temp != root && subst != root
      && node.left != nil && node.right != nil && temp.left == nil && temp.right == subst
      && (if temp.parent == node then node.right == temp else temp.parent in nodes && temp.parent.left == temp)
      && node != temp && node != subst && temp != subst
      && node.parent != temp && (node.parent == subst ==> node == root && subst == nil) && node.parent != node
      && temp.parent != subst && temp.parent != temp && temp.parent != node.parent
      && node.left != subst && node.left != node.parent && node.right != node.parent && node.left != node
      && node.right != node
      && node.right != subst
    }

    /** The links when `temp` has taken the place of its predecessor `node`, and `subst` that of `temp`. */
    twostate predicate Replaced(node: Node, new temp: Node, new subst: Node)
      reads this, nodes, nil
    {
      && nodes == old(nodes) - {node} && {node, temp} <= old(nodes) && (subst == nil || subst in old(nodes))
      && root == (if node == old(root) then temp else old(root))
      && var above := if old(temp.parent) == node then temp else old(temp.parent);
      && (subst == nil ==> nil.parent == above)
      && (forall n :: n in nodes ==>
        && n.left ==
          (if n == temp then old(node.left) else if old(n.left) == node then temp
           else if old(n.left) == temp then subst else old(n.left))
        && n.right == (if n == temp then (if old(node.right) == temp then subst else old(node.right))
                       else if old(n.right) == node then temp else old(n.right))
        && n.parent == (if n == temp then old(node.parent)
                        else if n == subst then above
                        else if n == old(node.left) || n == old(node.right) then temp
                        else old(n.parent)))
    }

    /** Lines 191-242 when `node` has two children. */
    method SpliceLinks(node: Node, temp: Node, subst: Node)
      requires Linked() && Successor(node, temp, subst)
      modifies this`root, this`nodes, nodes`left, nodes`right, nodes`parent, temp`color, nil`parent
      ensures Replaced(node, temp, subst) && temp.color == old(node.color)
    {
      LinkedOneParent(temp);
      LinkedOneParent(node);
      assert Down(node) && Down(temp);
      Unlink(temp, subst, node);
      TakePlace(temp, node);
      nodes := nodes - {node};
    }

    lemma SuccessorFound(node: Node, temp: Node)
      requires Linked() && Rooted() && Spanned() && {node, root} <= nodes && node.left != nil && node.right != nil
      requires temp in nodes && temp.left == nil && |temp.span| <= |node.right.span|
      requires temp != node.right ==>
        temp.parent in nodes && temp.parent.left == temp && |temp.parent.span| <= |node.right.span|
      ensures Successor(node, temp, temp.right)
    {
      SpansApart(node);
      SpansApart(temp);
      assert Down(node);
      SpansApart(node.right);
      if node != root {
        assert Up(node);
        SpansApart(node.parent);
      }
      assert Down(temp);
      if temp.right != nil { assert Down(temp.right); }
      if temp.parent != node {
        SpansApart(temp.parent);
      }
    }

    twostate lemma ReplacedLinked(node: Node, new temp: Node, new subst: Node)
      requires old(allocated(temp)) && old(allocated(subst))
      requires old(Linked()) && old(Successor(node, temp, subst)) && Replaced(node, temp, subst)
      ensures Linked()
    {
      assert old(Down(node)) && old(Down(temp)) && old(Down(temp.parent));
      forall n | n in nodes ensures Down(n) {
        assert old(Down(n));
        assert old(n.left) != nil ==> old(Down(n.left));
        assert old(n.right) != nil ==> old(Down(n.right));
      }
      forall n | n in nodes && n != root ensures Up(n) {
        assert n != old(root) ==> old(Up(n)) && old(Down(n.parent));
        assert node != old(root) ==> old(Up(node)) && old(Down(node.parent));
      }
    }

    /** The spans that go with `Replaced`. */
    twostate predicate SpansMoved(node: Node, new temp: Node)
      reads this, nodes, nil
    {
      && {node, temp} <= old(nodes) && nodes == old(nodes) - {node} && node != temp
      && nil.span == old(nil.span) == [] && temp.span == Moved<Node>(old(node.span), node, temp)
      && (forall n :: n in nodes && n != temp ==> n.span == Moved<Node>(old(n.span), node, temp))
    }

    twostate lemma ReplacedSpanned(node: Node, new temp: Node, new subst: Node)
      requires old(allocated(temp)) && old(allocated(subst))
      requires old(Linked()) && old(Spanned()) && old(Successor(node, temp, subst))
      requires Linked() && Replaced(node, temp, subst) && SpansMoved(node, temp)
      ensures Spanned()
    {
      assert old(Down(temp)) && old(SpanOk(temp));
      MovedNode<Node>([], temp, old(subst.span), node, temp);
      assert Moved<Node>(old(temp.span), node, temp) == subst.span;
      forall n | n in nodes ensures Down(n) && SpanOk(n) {
        assert Down(n);
        var m: Node := if n == temp then node else n;
        assert old(Down(m)) && old(SpanOk(m));
        MovedNode<Node>(old(m.left.span), m, old(m.right.span), node, temp);
        assert n.left.span == Moved<Node>(old(m.left.span), node, temp);
        assert n.right.span == Moved<Node>(old(m.right.span), node, temp);
      }
    }

    /** `p` is at rest but for its child `x`, whose side is one black node short. */
    ghost predicate Short(p: Node, x: Node)
      requires p.left != null && p.right != null
      reads p, p.left, p.right, x
    {
      && (p.left == x || p.right == x)
      && (p.color == BLACK || p.color == RED)
      && var w := if p.left == x then p.right else p.left;
      w.bh == x.bh + 1 && p.bh == w.bh + (if p.color == BLACK then 1 else 0) && (p.color == RED ==> w.color == BLACK)
    }

    twostate lemma ReplacedRooted(node: Node, new temp: Node, new subst: Node)
      requires old(allocated(temp)) && old(allocated(subst))
      requires old(Linked()) && old(Rooted()) && old(Successor(node, temp, subst)) && Replaced(node, temp, subst)
      requires stale == old(stale) && stale.color == old(stale.color)
      requires nil.color == old(nil.color) && nil.bh == old(nil.bh)
      ensures Rooted() && root in nodes
    {
      assert old(Down(node));
    }

    twostate lemma ReplacedFine(node: Node, new temp: Node, new subst: Node)
      requires old(allocated(temp)) && old(allocated(subst))
      requires old(Linked()) && old(AllFine(nil, {})) && old(Successor(node, temp, subst))
      requires Linked() && Replaced(node, temp, subst)
      requires nil.bh == old(nil.bh) == 0 && nil.color == old(nil.color) == BLACK
      requires forall n :: n in nodes && n != temp ==> n.bh == old(n.bh) && n.color == old(n.color)
      requires temp.bh == old(node.bh) && temp.color == old(node.color)
      ensures subst.parent != null && subst.parent in nodes && subst != root
      ensures AllFine(nil, if old(temp.color) == BLACK then {subst.parent} else {})
      ensures old(temp.color) == BLACK ==> Short(subst.parent, subst)
    {
      assert old(Down(temp)) && old(Fine(temp, nil)) && old(Down(node)) && old(Fine(node, nil));
      var p := subst.parent;
      assert old(Down(temp.parent)) && old(Fine(temp.parent, nil));
      forall n | n in nodes ensures Down(n) && (n != p ==> Fine(n, nil)) {
        assert Down(n) && old(Down(n)) && old(Fine(n, nil));
      }
      assert old(temp.color) != BLACK ==> Fine(p, nil);
    }

    /** `node` is not the root and has at most the child `subst`. */
    ghost predicate Thin(node: Node, subst: Node)
      reads this`root, this`nodes, nodes, nil, node, subst
    {
      && {node, root} <= nodes && node != root && (subst == nil || subst in nodes) && subst != root
      && ((node.left == nil && node.right == subst) || (node.right == nil && node.left == subst))
      && node != subst && node.parent != subst && node.parent != node
    }

    /** The links when `subst` has taken the place of `node`. */
    twostate predicate Removed(node: Node, new subst: Node)
      reads this, nodes, nil
    {
      && node in old(nodes) && nodes == old(nodes) - {node} && (subst == nil || subst in old(nodes))
      && root == old(root)
      && (subst == nil ==> nil.parent == old(node.parent))
      && (forall n :: n in nodes ==>
        && n.left == (if old(n.left) == node then subst else old(n.left))
        && n.right == (if old(n.right) == node then subst else old(n.right))
        && n.parent == (if n == subst then old(node.parent) else old(n.parent)))
    }

    /** Lines 191-207 when `node` has at most one child. */
    method RemoveLinks(node: Node, subst: Node)
      requires Linked() && Thin(node, subst)
      modifies this`nodes, nodes`left, nodes`right, nodes`parent, nil`parent
      ensures Removed(node, subst)
    {
      LinkedOneParent(node);
      Unlink(node, subst, node);
      nodes := nodes - {node};
    }

    twostate lemma RemovedLinked(node: Node, new subst: Node)
      requires old(allocated(subst))
      requires old(Linked()) && old(Thin(node, subst)) && Removed(node, subst)
      ensures Linked()
    {
      assert old(Down(node)) && old(Up(node)) && old(Down(node.parent));
      forall n | n in nodes ensures Down(n) {
        assert old(Down(n));
        assert old(n.left) != nil ==> old(Down(n.left));
        assert old(n.right) != nil ==> old(Down(n.right));
      }
      forall n | n in nodes && n != root ensures Up(n) {
        assert old(Up(n)) && old(Down(n.parent));
      }
    }

    twostate lemma RemovedSpanned(node: Node, new subst: Node)
      requires old(allocated(subst))
      requires old(Linked()) && old(Spanned()) && old(Thin(node, subst)) && Linked() && Removed(node, subst)
      requires nil.span == old(nil.span) == []
      requires forall n :: n in nodes ==> n.span == Subst<Node>(old(n.span), node, [])
      ensures Spanned()
    {
      assert old(Down(node)) && old(SpanOk(node));
      SubstNode<Node>(old(node.left.span), node, old(node.right.span), node, []);
      assert Subst<Node>(old(node.span), node, []) == subst.span;
      forall n | n in nodes ensures Down(n) && SpanOk(n) {
        assert Down(n) && old(Down(n)) && old(SpanOk(n));
        SubstNode<Node>(old(n.left.span), n, old(n.right.span), node, []);
        assert n.left.span == Subst<Node>(old(n.left.span), node, []);
        assert n.right.span == Subst<Node>(old(n.right.span), node, []);
      }
    }

    twostate lemma RemovedFine(node: Node, new subst: Node)
      requires old(allocated(subst))
      requires old(Linked()) && old(AllFine(nil, {})) && old(Thin(node, subst))
      requires Linked() && Removed(node, subst)
      requires nil.bh == old(nil.bh) == 0 && nil.color == old(nil.color) == BLACK
      requires forall n :: n in nodes ==> n.bh == old(n.bh) && n.color == old(n.color)
      ensures subst.parent != null && subst.parent in nodes
      ensures AllFine(nil, if old(node.color) == BLACK then {subst.parent} else {})
      ensures old(node.color) == BLACK ==> Short(subst.parent, subst)
    {
      assert old(Down(node)) && old(Fine(node, nil)) && old(Up(node));
      var p := subst.parent;
      assert old(Down(p)) && old(Fine(p, nil));
      forall n | n in nodes ensures Down(n) && (n != p ==> Fine(n, nil)) {
        assert Down(n) && old(Down(n)) && old(Fine(n, nil));
      }
      assert old(node.color) != BLACK ==> Fine(p, nil);
    }

    // ---------- repairing a deletion ----------

    /** The height rule at `x`, and the colour rule if `x` is black. */
    ghost predicate Half(x: Node)
      requires x.left != null && x.right != null
      reads x, x.left, x.right
    {
      && x.left.bh == x.right.bh && x.bh == x.left.bh + (if x.color == BLACK then 1 else 0)
      && (x.color == BLACK || x.color == RED)
      && (x.color == BLACK ==> Fine(x, nil))
    }

    /** The invariant of the deletion loop: the side of `x` is one black node short. */
    ghost predicate DeleteInv(x: Node)
      reads this`root, this`nodes, this`stale, nodes, nil, stale`color, x
    {
      && Linked() && Rooted() && Spanned() && root in nodes
      && (x == nil || (x in nodes && Down(x) && Half(x)))
      && (x == root ==> AllFine(nil, {x}))
      && (x != root ==>
        && root.color == BLACK && x.parent != null && x.parent in nodes && Down(x.parent)
        && Short(x.parent, x) && AllFine(nil, {x, x.parent}))
    }

    /** What the four cases start from: `x` is black, so only its parent is out of order. */
    ghost predicate DeleteCase(x: Node, p: Node)
      reads this`root, this`nodes, this`stale, nodes, nil, stale`color, x
    {
      && Linked() && Rooted() && Spanned() && root in nodes && root.color == BLACK
      && (x == nil || x in nodes) && x != root && x.color == BLACK && x.parent == p && p in nodes && Down(p)
      && Short(p, x)
      && AllFine(nil, {p})
    }

    lemma DeleteCaseOf(x: Node, p: Node)
      requires DeleteInv(x) && x != root && x.color == BLACK && p == x.parent
      ensures DeleteCase(x, p) && p.left != p.right
    {
      forall n | n in nodes && n != p ensures Down(n) && Fine(n, nil) {
        assert Down(n) && (n != x ==> Fine(n, nil));
      }
    }

    /** Lines 264-266: a red sibling is rotated up, so that the sibling becomes black. */
    method DeleteRedSiblingLeft(x: Node, p: Node)
      requires DeleteCase(x, p) && p.left == x && p.right.color == RED
      modifies this`root, nodes`left, nodes`right, nodes`parent, nodes`color, nodes`span, nodes`bh
      ensures DeleteCase(x, p) && p.left == x && p.right.color == BLACK && p.color == RED
      ensures root.span == old(root.span) && x.span == old(x.span)
    {
      var w := p.right;
      assert Down(p) && Down(w) && Fine(w, nil);
      SpansApart(p);
      SpansApart(w);
      w.color := BLACK;
      p.color := RED;
      p.bh, w.bh := w.bh, p.bh;
      ShapeKept();
      hide AllFine, SpanOk, Spanned;
      LeftRotate(p);
      RedSiblingFine(x, p, w);
    }

    /** Lines 299-301: a red sibling is rotated up, so that the sibling becomes black. */
    method DeleteRedSiblingRight(x: Node, p: Node)
      requires DeleteCase(x, p) && p.right == x && p.left.color == RED
      modifies this`root, nodes`left, nodes`right, nodes`parent, nodes`color, nodes`span, nodes`bh
      ensures DeleteCase(x, p) && p.right == x && p.left.color == BLACK && p.color == RED
      ensures root.span == old(root.span) && x.span == old(x.span)
    {
      var w := p.left;
      assert Down(p) && Down(w) && Fine(w, nil);
      SpansApart(p);
      SpansApart(w);
      w.color := BLACK;
      p.color := RED;
      p.bh, w.bh := w.bh, p.bh;
      ShapeKept();
      hide AllFine, SpanOk, Spanned;
      RightRotate(p);
      RedSiblingFine(x, p, w);
    }

    twostate lemma RedSiblingFine(x: Node, new p: Node, new w: Node)
      requires p in old(nodes) && w in old(nodes)
      requires old(DeleteCase(x, p)) && Linked() && Rooted() && Rotated(p, w)
      requires old(Apart(p)) && old(Apart(w)) && x != p && x != w && x.color == BLACK && x.bh == old(x.bh)
      requires old(w.color) == RED && old((p.left, p.right)) in {(x, w), (w, x)}
      requires w.color == BLACK && p.color == RED && w.bh == old(p.bh) && p.bh == old(w.bh)
      requires forall n :: n in nodes && n != p && n != w ==> n.bh == old(n.bh) && n.color == old(n.color)
      requires (p.left == x && p.right == old(w.left) && w.right == old(w.right))
        || (p.right == x && p.left == old(w.right) && w.left == old(w.left))
      ensures Short(p, x) && AllFine(nil, {p}) && (if p.left == x then p.right else p.left).color == BLACK
        && p.left != p.right
    {
      assert old(Down(p)) && old(Down(w)) && old(Fine(w, nil)) && Down(p) && Down(w);
      forall n | n in nodes && n !in {p, w} + {} ensures old(Down(n)) && old(Fine(n, nil)) {
        assert old(Down(n)) && old(Fine(n, nil));
      }
      RotatedOthers(p, w, nil, {});
      forall n | n in nodes && n != p ensures Down(n) && Fine(n, nil) {
        assert Down(n) && (n != w ==> Fine(n, nil));
      }
    }

    lemma NephewApart(p: Node, w: Node, d: Node)
      requires Linked() && Rooted() && Spanned() && {p, w} <= nodes && d != nil
      requires (p.left == w || p.right == w) && (w.left == d || w.right == d)
      ensures d in nodes && Apart(p) && Apart(w) && Apart(d) && Down(p) && Down(w) && Down(d)
      ensures p != d && d.left != p && d.right != p && d.parent == w && w.parent == p
    {
      assert Down(w);
      SpansApart(p);
      SpansApart(w);
      SpansApart(d);
      assert Down(p) && Down(w) && Down(d);
    }

    /** Lines 278-280: a red inner nephew is rotated up to become the sibling. */
    method DeleteInnerNephewLeft(x: Node, p: Node, w: Node)
      requires DeleteCase(x, p) && p.left == x && p.right == w && w in nodes && w.color == BLACK
      requires w.left != null && w.left.color == RED && w.right != null && w.right.color == BLACK
      modifies this`root, nodes`left, nodes`right, nodes`parent, nodes`color, nodes`span, nodes`bh
      ensures DeleteCase(x, p) && p.left == x && p.color == old(p.color)
      ensures p.right in nodes && p.right.color == BLACK && p.right.right != null && p.right.right.color == RED
      ensures root.span == old(root.span)
    {
      ghost var c := w.left;
      NephewApart(p, w, c);
      w.left.color := BLACK;
      w.color := RED;
      c.bh, w.bh := w.bh, c.bh;
      ShapeKept();
      RightRotate(w);
      InnerNephewLeft(x, p, w, c);
    }

    /** Lines 283-285 and 318-320: the sibling takes the parent's colour, parent and nephew become black. */
    method PaintOuter(p: Node, w: Node, d: Node)
      requires Linked() && Rooted() && Spanned() && {p, w, d} <= nodes && p != w && p != d && w != d
      modifies p`color, p`bh, w`color, w`bh, d`color, d`bh
      ensures Linked() && Rooted() && Spanned()
      ensures w.color == old(p.color) && p.color == BLACK && d.color == BLACK
      ensures w.bh == old(p.bh) && p.bh == old(w.bh) && d.bh == old(d.bh) + 1
    {
      w.color := p.color;
      p.color := BLACK;
      d.color := BLACK;
      d.bh := d.bh + 1;
      w.bh, p.bh := p.bh, w.bh;
      ShapeKept();
    }

    /** Lines 283-286: a red outer nephew lets the parent make up for the missing black node. */
    method DeleteOuterNephewLeft(x: Node, p: Node, w: Node)
      requires DeleteCase(x, p) && p.left == x && p.right == w && w in nodes && w.color == BLACK
      requires w.right != null && w.right.color == RED
      modifies this`root, nodes`left, nodes`right, nodes`parent, nodes`color, nodes`span, nodes`bh
      ensures Linked() && Rooted() && Spanned() && AllFine(nil, {}) && root in nodes && root.color == BLACK
      ensures root.span == old(root.span)
    {
      ghost var d := w.right;
      NephewApart(p, w, d);
      PaintOuter(p, w, w.right);
      LeftRotate(p);
      OuterNephewFine(x, p, w, d);
    }

    /** Lines 313-315: a red inner nephew is rotated up to become the sibling. */
    method DeleteInnerNephewRight(x: Node, p: Node, w: Node)
      requires DeleteCase(x, p) && p.right == x && p.left == w && w in nodes && w.color == BLACK
      requires w.right != null && w.right.color == RED && w.left != null && w.left.color == BLACK
      modifies this`root, nodes`left, nodes`right, nodes`parent, nodes`color, nodes`span, nodes`bh
      ensures DeleteCase(x, p) && p.right == x && p.color == old(p.color)
      ensures p.left in nodes && p.left.color == BLACK && p.left.left != null && p.left.left.color == RED
      ensures root.span == old(root.span)
    {
      ghost var c := w.right;
      NephewApart(p, w, c);
      w.right.color := BLACK;
      w.color := RED;
      c.bh, w.bh := w.bh, c.bh;
      ShapeKept();
      LeftRotate(w);
      InnerNephewRight(x, p, w, c);
    }

    /** Lines 318-321: a red outer nephew lets the parent make up for the missing black node. */
    method DeleteOuterNephewRight(x: Node, p: Node, w: Node)
      requires DeleteCase(x, p) && p.right == x && p.left == w && w in nodes && w.color == BLACK
      requires w.left != null && w.left.color == RED
      modifies this`root, nodes`left, nodes`right, nodes`parent, nodes`color, nodes`span, nodes`bh
      ensures Linked() && Rooted() && Spanned() && AllFine(nil, {}) && root in nodes && root.color == BLACK
      ensures root.span == old(root.span)
    {
      ghost var d := w.left;
      NephewApart(p, w, d);
      PaintOuter(p, w, w.left);
      RightRotate(p);
      OuterNephewFine(x, p, w, d);
    }

    /** The inner nephew on the left, for a shortage on the left. */
    twostate lemma InnerNephewLeft(x: Node, new p: Node, new w: Node, new c: Node)
      requires p in old(nodes) && w in old(nodes) && c in old(nodes)
      requires old(DeleteCase(x, p)) && Linked() && Rooted() && Rotated(w, c)
      requires old(Apart(p)) && old(Apart(w)) && old(Apart(c)) && x != p && x != w && x != c && p != w && p != c
      requires x.color == BLACK && x.bh == old(x.bh) && x.parent == p
      requires old(w.color) == BLACK && old(c.color) == RED && c.color == BLACK && w.color == RED
      requires c.bh == old(w.bh) && w.bh == old(c.bh)
      requires forall n :: n in nodes && n != w && n != c ==> n.bh == old(n.bh) && n.color == old(n.color)
      requires old(p.left) == x && old(p.right) == w && old(w.left) == c && old(w.right.color) == BLACK
      requires w.left == old(c.right) && w.right == old(w.right) && c.right == w && c.left == old(c.left)
      ensures DeleteCase(x, p) || !Spanned()
      ensures p.left == x && p.right == c
    {
      assert old(Down(p)) && old(Down(w)) && old(Down(c)) && old(Fine(w, nil)) && old(Fine(c, nil));
      assert Down(p) && Down(w) && Down(c);
      NephewRest(w, c, p);
      forall n | n in nodes && n != p ensures Down(n) && Fine(n, nil) {
        assert Down(n) && (n != w && n != c ==> Fine(n, nil));
      }
    }

    twostate lemma InnerNephewRight(x: Node, new p: Node, new w: Node, new c: Node)
      requires p in old(nodes) && w in old(nodes) && c in old(nodes)
      requires old(DeleteCase(x, p)) && Linked() && Rooted() && Rotated(w, c)
      requires old(Apart(p)) && old(Apart(w)) && old(Apart(c)) && x != p && x != w && x != c && p != w && p != c
      requires x.color == BLACK && x.bh == old(x.bh) && x.parent == p
      requires old(w.color) == BLACK && old(c.color) == RED && c.color == BLACK && w.color == RED
      requires c.bh == old(w.bh) && w.bh == old(c.bh)
      requires forall n :: n in nodes && n != w && n != c ==> n.bh == old(n.bh) && n.color == old(n.color)
      requires old(p.right) == x && old(p.left) == w && old(w.right) == c && old(w.left.color) == BLACK
      requires w.right == old(c.left) && w.left == old(w.left) && c.left == w && c.right == old(c.right)
      ensures DeleteCase(x, p) || !Spanned()
      ensures p.right == x && p.left == c
    {
      assert old(Down(p)) && old(Down(w)) && old(Down(c)) && old(Fine(w, nil)) && old(Fine(c, nil));
      assert Down(p) && Down(w) && Down(c);
      NephewRest(w, c, p);
      forall n | n in nodes && n != p ensures Down(n) && Fine(n, nil) {
        assert Down(n) && (n != w && n != c ==> Fine(n, nil));
      }
    }

    twostate lemma NephewRest(w: Node, new c: Node, new p: Node)
      requires {w, c, p} <= old(nodes) && old(Linked()) && Linked() && Rotated(w, c) && old(AllFine(nil, {p}))
      requires nil.bh == old(nil.bh) && nil.color == old(nil.color) == BLACK && c.bh == old(w.bh) && c.color == BLACK
      requires forall n :: n in nodes && n != w && n != c ==> n.bh == old(n.bh) && n.color == old(n.color)
      ensures AllFine(nil, {w, c} + {p})
    {
      forall n | n in nodes && n !in {w, c} + {p} ensures old(Down(n)) && old(Fine(n, nil)) {
        assert old(Down(n)) && old(Fine(n, nil));
      }
      RotatedOthers(w, c, nil, {p});
    }

    twostate lemma OuterNephewFine(x: Node, new p: Node, new w: Node, new d: Node)
      requires p in old(nodes) && w in old(nodes) && d in old(nodes)
      requires old(DeleteCase(x, p)) && Linked() && Rooted() && Rotated(p, w)
      requires x != p && x != w && x != d && p != d && w != d
      requires x.color == BLACK && x.bh == old(x.bh)
      requires old(w.color) == BLACK && old(d.color) == RED && w.color == old(p.color) && p.color == BLACK
        && d.color == BLACK
      requires w.bh == old(p.bh) && p.bh == old(w.bh) && d.bh == old(d.bh) + 1
      requires forall n :: n in nodes && n != p && n != w && n != d ==> n.bh == old(n.bh) && n.color == old(n.color)
      requires old(d.left) != p && old(d.right) != p
      requires (old(p.left) == x && old(p.right) == w && old(w.right) == d
          && p.left == x && p.right == old(w.left) && w.left == p && w.right == d)
            || (old(p.right) == x && old(p.left) == w && old(w.left) == d
                && p.right == x && p.left == old(w.right) && w.right == p && w.left == d)
      ensures AllFine(nil, {}) && root in nodes && root.color == BLACK
    {
      assert old(Down(p)) && old(Down(w)) && old(Down(d)) && old(Fine(w, nil)) && old(Fine(d, nil));
      assert Down(p) && Down(w) && Down(d);
      forall n | n in nodes && n !in {p, w} + {} ensures old(Down(n)) && old(Fine(n, nil)) {
        assert old(Down(n)) && old(Fine(n, nil));
      }
      RotatedOthers(p, w, d, {});
      forall n | n in nodes ensures Down(n) && Fine(n, nil) {
        assert Down(n) && (n != p && n != w ==> Fine(n, nil));
      }
    }

    /** Lines 271-272 and 306-307: with no red nephew the sibling becomes red and the parent is short. */
    method DeleteNoNephew(x: Node, p: Node, w: Node)
      requires DeleteCase(x, p) && (p.left, p.right) in {(x, w), (w, x)} && w in nodes && w.color == BLACK
      requires w.left != null && w.right != null && w.left.color == BLACK && w.right.color == BLACK
      modifies nodes`color, nodes`bh
      ensures DeleteInv(p)
    {
      assert Down(p) && Down(w) && Fine(w, nil);
      SpansApart(p);
      SpansApart(w);
      w.color := RED;
      w.bh := w.bh - 1;
      p.bh := p.bh - 1;
      ShapeKept();
      NoNephewFine(x, p, w);
    }

    twostate lemma NoNephewFine(x: Node, new p: Node, new w: Node)
      requires p in old(nodes) && w in old(nodes)
      requires old(DeleteCase(x, p)) && Linked() && Rooted() && Spanned() && LinksKept() && p != w
      requires old(Apart(p)) && old(Apart(w)) && old((p.left, p.right)) in {(x, w), (w, x)} && x != p && x != w
      requires old(w.color) == BLACK && old(w.left.color) == BLACK && old(w.right.color) == BLACK && x.bh == old(x.bh)
      requires w.color == RED && w.bh == old(w.bh) - 1 && p.bh == old(p.bh) - 1
      requires forall n :: n in nodes && n != w ==> n.color == old(n.color)
      requires forall n :: n in nodes && n != w && n != p ==> n.bh == old(n.bh)
      ensures DeleteInv(p)
    {
      assert old(Down(p)) && old(Down(w)) && old(Fine(w, nil)) && Down(p) && Down(w);
      if p != root {
        assert Up(p) && Down(p.parent) && old(Down(p.parent)) && old(Fine(p.parent, nil));
      }
      forall n | n in nodes && n !in {p, p.parent} ensures Down(n) && Fine(n, nil) {
        assert Down(n) && old(Down(n)) && old(Fine(n, nil));
      }
    }

    lemma SiblingExists(x: Node, p: Node, w: Node)
      requires DeleteCase(x, p) && (p.left, p.right) in {(x, w), (w, x)}
      ensures w in nodes && w.left != null && w.right != null && (w.color == BLACK || w.color == RED)
      ensures (w.left.color == BLACK || w.left.color == RED) && (w.right.color == BLACK || w.right.color == RED)
      ensures x != p && x != w && p != w
    {
      assert Down(p) && Short(p, x);
      assert Down(w) && Fine(w, nil);
      assert w.left != nil ==> Fine(w.left, nil);
      assert w.right != nil ==> Fine(w.right, nil);
      SpansApart(p);
    }

    /** Lines 269-288: the sibling `w` of the left child `start` is black. */
    method DeleteBlackSiblingLeft(start: Node, p: Node, sibling: Node) returns (node: Node)
      requires DeleteCase(start, p) && p.left == start && p.right == sibling && sibling.color == BLACK && Whole()
      modifies this`root, nodes`left, nodes`right, nodes`parent, nodes`color, nodes`span, nodes`bh
      ensures DeleteInv(node) && root.span == old(root.span)
      ensures node == root || (node == p && |p.span| > old(|start.span|))
    {
      node := start;
      var w := sibling;
      SiblingExists(node, p, w);
      if w.left.color == BLACK && w.right.color == BLACK {
        SpansApart(p);
        DeleteNoNephew(node, p, w);
        node := node.parent;
      } else {
        if w.right.color == BLACK {
          DeleteInnerNephewLeft(node, p, w);
          w := node.parent.right;
        }
        DeleteOuterNephewLeft(node, p, w);
        node := root; // to break the loop
        assert Down(root) && Fine(root, nil);
      }
    }

    /** Lines 261-288: `start` is a left child. */
    method DeleteStepLeft(start: Node, p: Node) returns (node: Node)
      requires DeleteCase(start, p) && p.left == start && Whole()
      modifies this`root, nodes`left, nodes`right, nodes`parent, nodes`color, nodes`span, nodes`bh
      ensures DeleteInv(node) && root.span == old(root.span)
      ensures node == root || (node in nodes && |node.span| > old(|start.span|))
    {
      var w := p.right;
      SiblingExists(start, p, w);
      if w.color == RED {
        DeleteRedSiblingLeft(start, p);
        w := p.right;
      }
      node := DeleteBlackSiblingLeft(start, p, w);
    }

    /** Lines 304-323: the sibling `w` of the right child `start` is black. */
    method DeleteBlackSiblingRight(start: Node, p: Node, sibling: Node) returns (node: Node)
      requires DeleteCase(start, p) && p.right == start && p.left == sibling && sibling.color == BLACK && Whole()
      modifies this`root, nodes`left, nodes`right, nodes`parent, nodes`color, nodes`span, nodes`bh
      ensures DeleteInv(node) && root.span == old(root.span)
      ensures node == root || (node == p && |p.span| > old(|start.span|))
    {
      node := start;
      var w := sibling;
      SiblingExists(node, p, w);
      if w.right.color == BLACK && w.left.color == BLACK {
        SpansApart(p);
        DeleteNoNephew(node, p, w);
        node := node.parent;
      } else {
        if w.left.color == BLACK {
          DeleteInnerNephewRight(node, p, w);
          w := node.parent.left;
        }
        DeleteOuterNephewRight(node, p, w);
        node := root; // to break the loop
        assert Down(root) && Fine(root, nil);
      }
    }

    /** Lines 292-323: `start` is a right child. */
    method DeleteStepRight(start: Node, p: Node) returns (node: Node)
      requires DeleteCase(start, p) && p.right == start && Whole()
      modifies this`root, nodes`left, nodes`right, nodes`parent, nodes`color, nodes`span, nodes`bh
      ensures DeleteInv(node) && root.span == old(root.span)
      ensures node == root || (node in nodes && |node.span| > old(|start.span|))
    {
      var w := p.left;
      SiblingExists(start, p, w);
      if w.color == RED {
        DeleteRedSiblingRight(start, p);
        w := p.left;
      }
      node := DeleteBlackSiblingRight(start, p, w);
    }

    /** One round of the loop of lines 256-325. */
    method DeleteStep(start: Node) returns (node: Node)
      requires DeleteInv(start) && Whole() && start != root && start.color == BLACK
      modifies this`root, nodes`left, nodes`right, nodes`parent, nodes`color, nodes`span, nodes`bh
      ensures DeleteInv(node) && root.span == old(root.span) && Whole()
      ensures node == root || (node in nodes && |node.span| > old(|start.span|))
    {
      DeleteCaseOf(start, start.parent);
      if start == start.parent.left {
        node := DeleteStepLeft(start, start.parent);
      } else {
        node := DeleteStepRight(start, start.parent);
      }
    }

    method DeleteFixup(start: Node)
      requires DeleteInv(start) && Whole()
      modifies this`root, nodes`left, nodes`right, nodes`parent, nodes`color, nodes`span, nodes`bh, nil`color
      ensures Linked() && Rooted() && Spanned() && AllFine(nil, {}) && Whole() && root in nodes && root.color == BLACK
      ensures root.span == old(root.span)
    {
      var node := DeleteRounds(start);
      BlackenShort(node);
    }

    /** Lines 254-325. */
    method DeleteRounds(start: Node) returns (node: Node)
      requires DeleteInv(start) && Whole()
      modifies this`root, nodes`left, nodes`right, nodes`parent, nodes`color, nodes`span, nodes`bh, nil`color
      ensures DeleteInv(node) && Whole() && root.span == old(root.span) && (node == root || node.color != BLACK)
    {
      node := start;
      ghost var all := root.span;
      ghost var rank := if node == root then 0 else |all| + 1 - |node.span|;
      if node in nodes { SpanWithin(root, node); }
      while node != root && node.color == BLACK
        invariant DeleteInv(node) && Whole() && root.span == all
        invariant 0 <= rank && (node != root ==> rank == |all| + 1 - |node.span| > 0)
        decreases rank
      {
        node := DeleteStep(node);
        if node in nodes { SpanWithin(root, node); }
        rank := if node == root then 0 else |all| + 1 - |node.span|;
      }
    }

    /** Line 326. */
    method BlackenShort(node: Node)
      requires DeleteInv(node) && (node == root || node.color != BLACK)
      modifies node`color, node`bh
      ensures Linked() && Rooted() && Spanned() && AllFine(nil, {}) && root in nodes && root.color == BLACK
      ensures root.span == old(root.span)
    {
      ghost var red := node.color != BLACK;
      assert node in nodes;
      node.color := BLACK;
      if red {
        node.bh := node.bh + 1;
      }
      ShapeKept();
      forall n | n in nodes ensures Down(n) && Fine(n, nil) {
        assert old(Down(n)) && Down(n) && (n != node && n != node.parent ==> old(Fine(n, nil)));
      }
    }

    // ---------- deletion as a whole ----------

    /** A subtree's nodes are a run of those of any tree above it. */
    lemma Embedded(m: Node, k: Node) returns (pre: seq<Node>, post: seq<Node>)
      requires Linked() && Spanned() && m in nodes && k in m.span
      ensures m.span == pre + k.span + post
      decreases |m.span|
    {
      assert Down(m) && SpanOk(m);
      if k in m.left.span {
        pre, post := Embedded(m.left, k);
        post := post + [m] + m.right.span;
      } else if k in m.right.span {
        pre, post := Embedded(m.right, k);
        pre := m.left.span + [m] + pre;
      } else {
        pre, post := [], [];
      }
    }

    /** The successor comes right after `node` in the whole tree. */
    lemma RootMoved(node: Node, temp: Node, more: seq<Node>)
      requires Linked() && Spanned() && Whole() && {node, root} <= nodes && Down(node)
      requires temp.right != null && node.right.span == [temp] + temp.right.span + more
      ensures Moved<Node>(root.span, node, temp) == Subst<Node>(root.span, node, [])
    {
      var pre, post := Embedded(root, node);
      assert SpanOk(node);
      var l, r := node.left.span, temp.right.span + more;
      assert node.span == l + [node] + ([temp] + r);
      SpanRegroup<Node>(pre, l, node, [temp] + r, post);
      assert ([temp] + r) + post == [temp] + (r + post);
      MovedSuccessor<Node>(pre + l, node, temp, r + post);
    }

    /** What both ways of taking `node` out leave behind; `x` took the emptied place. */
    ghost predicate TakenOut(x: Node, black: bool)
      reads this`root, this`nodes, this`stale, nodes, nil, stale`color, x
    {
      && Linked() && Rooted() && Spanned() && root in nodes && root.color == BLACK
      && (black ==> DeleteInv(x)) && (!black ==> AllFine(nil, {}))
    }

    lemma TakenOutOf(x: Node, black: bool)
      requires Linked() && Rooted() && Spanned() && root in nodes && root.color == BLACK
      requires (x == nil || x in nodes) && x != root && x.parent != null && x.parent in nodes
      requires (black ==> Short(x.parent, x)) && AllFine(nil, if black then {x.parent} else {})
      ensures TakenOut(x, black)
    {
      if black {
        assert Down(x.parent);
        SpansApart(x.parent);
        assert x in nodes ==> Down(x) && Fine(x, nil);
        forall n | n in nodes && n !in {x, x.parent} ensures Down(n) && Fine(n, nil) {
          assert Down(n) && Fine(n, nil);
        }
      }
    }

    /** Lines 191-207 when `node` has at most one child and is not the root. */
    method Remove(node: Node, subst: Node)
      requires Linked() && Rooted() && Spanned() && AllFine(nil, {}) && Thin(node, subst) && root.color == BLACK
      modifies this`nodes, nodes`left, nodes`right, nodes`parent, nodes`span, nil`parent
      ensures TakenOut(subst, old(node.color) == BLACK) && nodes == old(nodes) - {node}
      ensures root == old(root) && root.span == Subst<Node>(old(root.span), node, [])
    {
      RemoveLinks(node, subst);
      forall n | n in nodes {
        n.span := Subst<Node>(n.span, node, []);
      }
      RemovedLinked(node, subst);
      RemovedSpanned(node, subst);
      RemovedFine(node, subst);
      TakenOutOf(subst, old(node.color) == BLACK);
    }

    ghost method MoveSpans(node: Node, temp: Node)
      requires temp in nodes && node !in nodes && nil !in nodes
      modifies nodes`span, temp`bh
      ensures temp.span == Moved<Node>(old(node.span), node, temp) && temp.bh == node.bh
      ensures forall n :: n in nodes && n != temp ==> n.span == Moved<Node>(old(n.span), node, temp)
    {
      forall n | n in nodes && n != temp {
        n.span := Moved<Node>(n.span, node, temp);
      }
      temp.span, temp.bh := Moved<Node>(node.span, node, temp), node.bh;
    }

    /** Lines 191-241 when `node` has two children. */
    method Splice(node: Node, temp: Node, subst: Node)
      requires Linked() && Rooted() && Spanned() && AllFine(nil, {}) && Successor(node, temp, subst)
        && root.color == BLACK
      modifies this`root, this`nodes, nodes`left, nodes`right, nodes`parent, nodes`span, temp`color, temp`bh, nil`parent
      ensures TakenOut(subst, old(temp.color) == BLACK) && nodes == old(nodes) - {node}
      ensures root.span == Moved<Node>(old(root.span), node, temp)
    {
      SpliceNoted(node, temp, subst);
      Spliced(node, temp, subst);
    }

    method SpliceNoted(node: Node, temp: Node, subst: Node)
      requires Linked() && Rooted() && Spanned() && Successor(node, temp, subst) && root.color == BLACK
      modifies this`root, this`nodes, nodes`left, nodes`right, nodes`parent, nodes`span, temp`color, temp`bh, nil`parent
      ensures Replaced(node, temp, subst) && SpansMoved(node, temp)
      ensures temp.bh == old(node.bh) && temp.color == old(node.color)
    {
      assert Down(node);
      SpliceLinks(node, temp, subst);
      MoveSpans(node, temp);
    }

    twostate lemma Spliced(node: Node, new temp: Node, new subst: Node)
      requires old(allocated(temp)) && old(allocated(subst))
      requires old(Linked()) && old(Rooted()) && old(Spanned()) && old(AllFine(nil, {}))
        && old(Successor(node, temp, subst))
      requires Replaced(node, temp, subst) && SpansMoved(node, temp)
      requires stale == old(stale) && stale.color == old(stale.color)
      requires nil.color == old(nil.color) && nil.bh == old(nil.bh)
      requires forall n :: n in nodes && n != temp ==> n.bh == old(n.bh) && n.color == old(n.color)
      requires temp.bh == old(node.bh) && temp.color == old(node.color) && old(root.color) == BLACK
      ensures TakenOut(subst, old(temp.color) == BLACK)
      ensures root.span == Moved<Node>(old(root.span), node, temp)
    {
      ReplacedLinked(node, temp, subst);
      ReplacedSpanned(node, temp, subst);
      ReplacedFine(node, temp, subst);
      ReplacedRooted(node, temp, subst);
      TakenOutOf(subst, old(temp.color) == BLACK);
    }

    /** The macro `rbt_clear_node`. */
    method ClearNode(node: Node)
      modifies node`left, node`right, node`parent
      ensures node.left == null && node.right == null && node.parent == null
    {
      node.left := null;
      node.right := null;
      node.parent := null;
    }

    /** Lines 180-182: the root has at most one child, which becomes the root. Its parent link stays. */
    method DeleteRoot(node: Node, subst: Node)
      requires Linked() && Rooted() && Spanned() && AllFine(nil, {}) && node == root && root in nodes
        && root.color == BLACK
      requires (node.left == nil && node.right == subst) || (node.right == nil && node.left == subst)
      requires subst != node
      modifies this`root, this`nodes, this`stale, subst`color, subst`bh, node`left, node`right, node`parent
      ensures Linked() && Rooted() && Spanned() && AllFine(nil, {}) && nodes == old(nodes) - {node}
      ensures node.left == null && node.right == null && node.parent == null
      ensures (root == nil || (root in nodes && root.color == BLACK)) && stale == if subst == nil then nil else node
      ensures root == subst && subst.span == old(subst.span)
    {
      ghost var red := subst.color != BLACK;
      root := subst;
      subst.color := BLACK;
      if red {
        subst.bh := subst.bh + 1;
      }
      ClearNode(node);
      nodes := nodes - {node};
      stale := if subst == nil then nil else node;
      RootDeleted(node, subst);
    }

    twostate lemma RootDeleted(node: Node, new subst: Node)
      requires old(allocated(subst)) && subst != node
      requires old(Linked()) && old(Rooted()) && old(Spanned()) && old(AllFine(nil, {}))
      requires node == old(root) && node in old(nodes) && nodes == old(nodes) - {node} && old(node.color) == BLACK
      requires old(node.left == nil && node.right == subst) || old(node.right == nil && node.left == subst)
      requires root == subst && stale == (if subst == nil then nil else node) && node.color == old(node.color)
      requires forall n :: n in nodes ==>
        n.left == old(n.left) && n.right == old(n.right) && n.parent == old(n.parent) && n.span == old(n.span)
      requires forall n :: n in nodes && n != subst ==> n.bh == old(n.bh) && n.color == old(n.color)
      requires subst.color == BLACK
        && subst.bh == (if old(subst.color) != BLACK then old(subst.bh) + 1 else old(subst.bh))
      requires nil.color == BLACK && nil.bh == 0 && nil.span == []
      ensures Linked() && Rooted() && Spanned() && AllFine(nil, {})
    {
      assert old(Down(node));
      forall n | n in nodes ensures Down(n) && SpanOk(n) && Fine(n, nil) {
        assert old(Down(n)) && old(SpanOk(n)) && old(Fine(n, nil));
      }
      forall n | n in nodes && n != root ensures Up(n) {
        assert old(Up(n));
      }
    }

    /** Lines 156-177: the node to take out of its place, and the one that moves up. */
    method FindVictim(node: Node) returns (temp: Node, subst: Node)
      requires Linked() && Rooted() && Spanned() && Whole() && {node, root} <= nodes
      ensures temp != root && temp == node ==> Thin(node, subst)
      ensures temp == node ==> (subst == nil || subst in nodes) && subst != node
      ensures temp == node ==> (node.left == nil && node.right == subst) || (node.right == nil && node.left == subst)
      ensures temp == node ==> node.span == [node] + subst.span || node.span == subst.span + [node]
      ensures temp != node ==> Successor(node, temp, subst)
      ensures temp != node ==> Moved<Node>(root.span, node, temp) == Subst<Node>(root.span, node, [])
    {
      assert Down(node) && SpanOk(node);
      SpansApart(node);
      assert node != root ==> Up(node);
      if node.left == nil {
        temp := node;
        subst := node.right;
        assert [] + [node] + subst.span == [node] + subst.span;
      } else if node.right == nil {
        temp := node;
        subst := node.left;
        assert subst.span + [node] + [] == subst.span + [node];
      } else {
        ghost var more;
        ghost var steps;
        temp, more, steps := SubtreeMin(node.right);
        SuccessorFound(node, temp);
        RootMoved(node, temp, more);
        // the test of line 169 never holds: temp is the first node of its subtree
        subst := temp.right;
      }
    }

    /** Lines 185-242. */
    method TakeOut(node: Node, temp: Node, subst: Node)
      requires Linked() && Rooted() && Spanned() && AllFine(nil, {}) && root in nodes && root.color == BLACK
      requires temp == node ==> Thin(node, subst)
      requires temp != node ==> Successor(node, temp, subst)
      requires temp != node ==> Moved<Node>(root.span, node, temp) == Subst<Node>(root.span, node, [])
      modifies this`root, this`nodes, nodes`left, nodes`right, nodes`parent, nodes`span, temp`color, temp`bh, nil`parent
      ensures TakenOut(subst, old(temp.color) == BLACK) && nodes == old(nodes) - {node}
      ensures root.span == Subst<Node>(old(root.span), node, [])
      ensures node.left == null && node.right == null && node.parent == null
    {
      ghost var black := temp.color == BLACK;
      if temp == node {
        Remove(node, subst);
      } else {
        Splice(node, temp, subst);
      }
      ClearTaken(node, subst, black);
    }

    method ClearTaken(node: Node, x: Node, ghost black: bool)
      requires TakenOut(x, black) && node !in nodes && node != nil && node != x
      modifies node`left, node`right, node`parent
      ensures TakenOut(x, black) && root.span == old(root.span)
      ensures node.left == null && node.right == null && node.parent == null
    {
      ClearNode(node);
    }

    /** The root has two children exactly in a tree of more than two nodes. */
    lemma SmallRoot()
      requires Linked() && Rooted() && Spanned() && AllFine(nil, {}) && Whole() && root in nodes
      ensures root.left == nil || root.right == nil <==> |root.span| <= 2
      ensures root.left == nil && root.right == nil <==> |root.span| == 1
    {
      assert Down(root) && SpanOk(root) && Fine(root, nil);
      assert root.left != nil ==> Down(root.left) && SpanOk(root.left) && Fine(root.left, nil);
      assert root.right != nil ==> Down(root.right) && SpanOk(root.right) && Fine(root.right, nil);
      NotFlat(root.left);
      NotFlat(root.right);
      EmptySpan(root.left);
      EmptySpan(root.right);
    }

    /** What the root's parent link is left at when `node` is deleted: the node itself exactly if it was the root of
        two. */
    ghost function LeftAt(node: Node, oldRoot: Node, oldStale: Node, oldSize: nat): Node {
      if oldSize == 1 then nil else if oldSize == 2 && node == oldRoot then node else oldStale
    }

    /** Lines 155-248. */
    method DeleteNode(node: Node)
      requires Linked() && Rooted() && Spanned() && AllFine(nil, {}) && Whole() && {node, root} <= nodes
        && root.color == BLACK
      modifies this`root, this`nodes, this`stale,
               nodes`left, nodes`right, nodes`parent, nodes`color, nodes`span, nodes`bh,
               nil`parent, nil`color, nil`bh
      ensures Linked() && Rooted() && Spanned() && AllFine(nil, {}) && Whole()
      ensures root != nil ==> root.color == BLACK
      ensures stale == LeftAt(node, old(root), old(stale), old(|root.span|)) && nodes == old(nodes) - {node}
      ensures root.span == Subst<Node>(old(root.span), node, [])
      ensures node.left == null && node.right == null && node.parent == null
    {
      SmallRoot();
      var temp, subst := FindVictim(node);
      hide Down, Up, SpanOk, Fine, Subst, AllFine, Whole;
      if temp == root {
        DeleteLoneRoot(temp, subst);
        return;
      }
      DeleteBelow(node, temp, subst);
    }

    lemma WholeWithout(s: seq<Node>, before: set<Node>, node: Node)
      requires NoDup<Node>(s) && node in s && (forall n :: n in before <==> n in s)
      requires nodes == before - {node} && root.span == Subst<Node>(s, node, [])
      ensures Whole()
    {
      DeletedNodes(s, node);
    }

    /** Lines 185-248. */
    method DeleteBelow(node: Node, temp: Node, subst: Node)
      requires Linked() && Rooted() && Spanned() && AllFine(nil, {}) && Whole() && {node, root} <= nodes
        && root.color == BLACK
      requires temp == node ==> Thin(node, subst)
      requires temp != node ==> Successor(node, temp, subst)
      requires temp != node ==> Moved<Node>(root.span, node, temp) == Subst<Node>(root.span, node, [])
      modifies this`root, this`nodes, nodes`left, nodes`right, nodes`parent, nodes`color, nodes`span, nodes`bh,
               nil`parent, nil`color, nil`bh
      ensures Linked() && Rooted() && Spanned() && AllFine(nil, {}) && Whole() && nodes == old(nodes) - {node}
      ensures root != nil ==> root.color == BLACK
      ensures root.span == Subst<Node>(old(root.span), node, [])
      ensures node.left == null && node.right == null && node.parent == null
    {
      hide Down, Up, SpanOk, Fine, Subst;
      ghost var s, before := root.span, nodes;
      var isblack := temp.color == BLACK;
      TakeOut(node, temp, subst);
      WholeWithout(s, before, node);
      if isblack {
        DeleteFixup(subst);
      }
    }

    /** Lines 178-183 in terms of the sequence. */
    method DeleteLoneRoot(node: Node, subst: Node)
      requires Linked() && Rooted() && Spanned() && AllFine(nil, {}) && Whole() && node == root && root in nodes
        && root.color == BLACK
      requires (node.left == nil && node.right == subst) || (node.right == nil && node.left == subst)
      requires subst != node && (node.span == [node] + subst.span || node.span == subst.span + [node])
      modifies this`root, this`nodes, this`stale, subst`color, subst`bh, node`left, node`right, node`parent
      ensures Linked() && Rooted() && Spanned() && AllFine(nil, {}) && Whole() && nodes == old(nodes) - {node}
      ensures node.left == null && node.right == null && node.parent == null
      ensures root == nil || (root in nodes && root.color == BLACK)
      ensures stale == LeftAt(node, old(root), old(stale), old(|root.span|))
      ensures root.span == Subst<Node>(old(root.span), node, [])
    {
      SmallRoot();
      LoneSpan(root.span, node, subst.span);
      hide Down, Up, SpanOk, Fine, Subst;
      ghost var s, before := root.span, nodes;
      DeleteRoot(node, subst);
      WholeWithout(s, before, node);
    }

    method Delete(node: Node?)
      requires Valid()
      requires node != null && node != nil ==> node in nodes
      modifies this`root, this`size, this`nodes, this`stale,
               nodes`left, nodes`right, nodes`parent, nodes`color, nodes`span, nodes`bh,
               nil`parent, nil`color, nil`bh
      ensures Valid()
      ensures stale ==
        if node == null || node == nil then old(stale) else LeftAt(node, old(root), old(stale), old(size))
      ensures node == null || node == nil ==> Elements() == old(Elements()) && nodes == old(nodes) && size == old(size)
      ensures node != null && node != nil ==>
        && Elements() == Subst<Node>(old(Elements()), node, []) && nodes == old(nodes) - {node} && size == old(size) - 1
        && node.left == null && node.right == null && node.parent == null
    {
      if node == null || node == nil {
        return;
      }
      ghost var kept := Subst<Node>(Elements(), node, []);
      DeletedSorted(Elements(), node);
      size := size - 1;
      DeleteNode(node);
      OrderKept(kept);
    }

    // ---------- small trees by their elements ----------

    lemma EmptySpan(x: Node)
      requires Linked() && Spanned() && (x == nil || x in nodes)
      ensures x.span == [] <==> x == nil
    {
      assert x != nil ==> Down(x) && SpanOk(x);
    }

    lemma OneBelow(x: Node)
      requires Linked() && Spanned() && x in nodes && |x.span| == 1
      ensures x.span == [x] && x.left == nil && x.right == nil
    {
      assert Down(x) && SpanOk(x);
      EmptySpan(x.left);
      EmptySpan(x.right);
    }

    /** A subtree whose first element is a leaf and not its root. */
    lemma LeafFirst(x: Node, a: Node, b: Node)
      requires Linked() && Spanned() && x in nodes && x.span == [a, b] && a != b && a.left == nil && a.right == nil
      ensures x == b && b.left == a && b.right == nil && Down(b)
    {
      assert Down(x) && SpanOk(x);
      assert x.span[|x.left.span|] == x;
      EmptySpan(x.left);
      EmptySpan(x.right);
      assert x != a;
      assert |x.left.span| == 1;
      assert x.left.span == x.span[..1] == [a];
      OneBelow(x.left);
      assert [x.left][0] == [a][0];
    }

    /** The root's children from its place in the sequence. */
    lemma AroundRoot(i: nat)
      requires Linked() && Spanned() && Whole() && root in nodes && i < |root.span| && root.span[i] == root
      ensures root.left.span == root.span[..i] && root.right.span == root.span[i + 1..]
      ensures i == 0 <==> root.left == nil
      ensures i + 1 == |root.span| <==> root.right == nil
      ensures Down(root)
    {
      assert Down(root) && SpanOk(root);
      var k := |root.left.span|;
      assert root.span[k] == root;
      assert k == i;
      EmptySpan(root.left);
      EmptySpan(root.right);
    }

    /** A balanced tree of three has the middle one as its root, and the others have one colour. */
    lemma ThreeShape(a: Node, b: Node, c: Node)
      requires Shaped() && Elements() == [a, b, c]
      ensures root == b && b.left == a && b.right == c && a.color == c.color && Down(b)
      ensures a.left == nil && a.right == nil && c.left == nil && c.right == nil
    {
      EmptySpan(root);
      assert Down(root) && SpanOk(root) && Fine(root, nil);
      var k := |root.left.span|;
      assert root.span[k] == root;
      EmptySpan(root.left);
      EmptySpan(root.right);
      NotFlat(root.left);
      NotFlat(root.right);
      assert k == 1;
      assert root.left.span == root.span[..1] && root.right.span == root.span[2..];
      OneBelow(root.left);
      OneBelow(root.right);
      assert Fine(a, nil) && Fine(c, nil);
    }

    /** Two nodes below need a black one. */
    lemma NotFlat(x: Node)
      requires Linked() && Sentinel() && Spanned() && AllFine(nil, {}) && (x == nil || x in nodes)
      ensures x.bh == 0 ==> |x.span| <= 1
    {
      if x != nil {
        assert Down(x) && SpanOk(x) && Fine(x, nil);
        assert x.left != nil ==> Fine(x.left, nil);
        assert x.right != nil ==> Fine(x.right, nil);
      }
    }

    /** A left child without a brother is red. */
    lemma OnlyLeft()
      requires Shaped() && root in nodes && root.left in nodes && root.right == nil
      ensures root.left.color == RED
    {
      assert Down(root) && Fine(root, nil) && Fine(root.left, nil);
    }

    // ---------- searching ----------

    /** A bound on the depth of the subtree at `x` that each step down uses up. */
    ghost function Reach(x: Node): nat
      reads x
    {
      2 * x.bh + (if x.color == RED then 1 else 0)
    }

    lemma ReachDown(x: Node)
      requires Linked() && Sentinel() && AllFine(nil, {}) && x in nodes
      ensures Reach(x.left) < Reach(x) && Reach(x.right) < Reach(x)
      ensures nil.color == BLACK ==> Reach(nil) == 0
    {
      assert Down(x) && Fine(x, nil);
      assert x.left != nil ==> Fine(x.left, nil);
      assert x.right != nil ==> Fine(x.right, nil);
    }

    /** A subtree of black height b has at least 2^b - 1 nodes. */
    lemma BlackHeightBound(x: Node)
      requires Linked() && Sentinel() && Spanned() && AllFine(nil, {}) && (x == nil || x in nodes)
      ensures Pow2(x.bh) <= |x.span| + 1
      decreases |x.span|
    {
      if x != nil {
        assert Down(x) && SpanOk(x) && Fine(x, nil);
        BlackHeightBound(x.left);
        BlackHeightBound(x.right);
      }
    }

    /** The number of nodes whose key a search for `key` from `x` on looks at. */
    ghost function SearchWay(x: Node, key: int): nat
      requires Linked() && Spanned() && (x == nil || x in nodes)
      reads this`root, this`nodes, nil, nodes
      decreases |x.span|
    {
      if x == nil then 0
      else
        assert Down(x) && SpanOk(x);
        if key < x.key then 1 + SearchWay(x.left, key)
        else if key > x.key then 1 + SearchWay(x.right, key)
        else 1
    }

    /** The same for the first key not below `key`. */
    ghost function LookupWay(x: Node, key: int): nat
      requires Linked() && Spanned() && (x == nil || x in nodes)
      reads this`root, this`nodes, nil, nodes
      decreases |x.span|
    {
      if x == nil then 0
      else
        assert Down(x) && SpanOk(x);
        if key <= x.key then 1 + LookupWay(x.left, key) else 1 + LookupWay(x.right, key)
    }

    /** The number of left children on the way to the first node below `x`. */
    ghost function LeftWay(x: Node): nat
      requires Linked() && Spanned() && x in nodes
      reads this`root, this`nodes, nil, nodes
      decreases |x.span|
    {
      assert Down(x) && SpanOk(x);
      if x.left == nil then 0 else 1 + LeftWay(x.left)
    }

    /** Lines 393-407. */
    method Search(key: int) returns (r: Node?, ghost steps: nat)
      requires Shaped()
      ensures r != null ==> r in nodes && r.key == key
      ensures r == null ==> forall n :: n in Elements() ==> n.key != key
      ensures steps == SearchWay(root, key) <= 2 * root.bh && Pow2(root.bh) <= size + 1
    {
      BlackHeightBound(root);
      r, steps := SearchFrom(key);
    }

    method SearchFrom(key: int) returns (r: Node?, ghost steps: nat)
      requires Linked() && Sentinel() && Spanned() && AllFine(nil, {}) && KeySorted(root.span) && root.color == BLACK
      ensures r != null ==> r in nodes && r.key == key
      ensures r == null ==> forall n :: n in root.span ==> n.key != key
      ensures steps == SearchWay(root, key) <= 2 * root.bh
    {
      steps := 0;
      var node: Node := root;
      ghost var pre: seq<Node>, post: seq<Node> := [], [];
      while node != nil
        invariant node == nil || node in nodes
        invariant root.span == pre + node.span + post
        invariant Below(pre, key) && Above(post, key)
        invariant steps + Reach(node) <= 2 * root.bh && steps + SearchWay(node, key) == SearchWay(root, key)
        decreases |node.span|
      {
        assert Down(node) && SpanOk(node);
        Descend(root.span, pre, node.left.span, node, node.right.span, post, key);
        ReachDown(node);
        steps := steps + 1;
        if key < node.key {
          post := [node] + (node.right.span + post);
          node := node.left;
        } else if key > node.key {
          pre := pre + node.left.span + [node];
          node := node.right;
        } else {
          return node, steps;
        }
      }
      NowhereBetween(root.span, pre, post, key);
      r := null;
    }

    /** Lines 409-432: the first node whose key is not smaller, else the first node of all. */
    method Lookup(key: int) returns (r: Node?, ghost steps: nat)
      requires Shaped()
      ensures r == null <==> Elements() == []
      ensures r != null ==> r in nodes && exists i :: IsSuccessor(Elements(), key, i) && r == Elements()[i]
      ensures steps <= 4 * root.bh && Pow2(root.bh) <= size + 1
      ensures if exists n :: n in Elements() && key <= n.key then steps == LookupWay(root, key) <= 2 * root.bh
              else steps == LookupWay(root, key) + if root == nil then 0 else LeftWay(root)
    {
      BlackHeightBound(root);
      steps := 0;
      if root != nil {
        assert Down(root) && SpanOk(root);
        r, steps := LookupFrom(key);
      } else {
        r := null;
      }
    }

    /** Lines 411-424. */
    method LookupDown(key: int) returns (node: Node?, ghost pre: seq<Node>, ghost post: seq<Node>, ghost steps: nat)
      requires Linked() && Sentinel() && Spanned() && AllFine(nil, {}) && KeySorted(root.span) && root in nodes
        && root.color == BLACK
      ensures root.span == pre + [] + post && Below(pre, key) && AtLeast(post, key)
      ensures if node == null then post == [] else post != [] && post[0] == node && node in nodes
      ensures steps == LookupWay(root, key) <= 2 * root.bh
    {
      steps := 0;
      node := null;
      var temp: Node := root;
      pre, post := [], [];
      while temp != nil
        invariant temp == nil || temp in nodes
        invariant root.span == pre + temp.span + post
        invariant Below(pre, key) && AtLeast(post, key)
        invariant if node == null then post == [] else post != [] && post[0] == node && node in nodes
        invariant steps + Reach(temp) <= 2 * root.bh && steps + LookupWay(temp, key) == LookupWay(root, key)
        decreases |temp.span|
      {
        assert Down(temp) && SpanOk(temp);
        Descend(root.span, pre, temp.left.span, temp, temp.right.span, post, key);
        ReachDown(temp);
        steps := steps + 1;
        if key <= temp.key {
          node := temp;
          post := [temp] + (temp.right.span + post);
          temp := temp.left;
        } else {
          pre := pre + temp.left.span + [temp];
          temp := temp.right;
        }
      }
    }

    method LookupFrom(key: int) returns (r: Node, ghost steps: nat)
      requires Linked() && Sentinel() && Spanned() && AllFine(nil, {}) && KeySorted(root.span) && root in nodes
        && root.color == BLACK
      ensures r in nodes && exists i :: IsSuccessor(root.span, key, i) && r == root.span[i]
      ensures steps <= 4 * root.bh
      ensures if exists n :: n in root.span && key <= n.key then steps == LookupWay(root, key) <= 2 * root.bh
              else steps == LookupWay(root, key) + LeftWay(root)
    {
      assert Down(root) && SpanOk(root);
      var node: Node?;
      ghost var pre, post;
      node, pre, post, steps := LookupDown(key);
      SuccessorAt(root.span, pre, post, key);
      if node != null {
        r := node;
        assert root.span[|pre|] == r && key <= r.key;
      } else {
        assert !exists n :: n in root.span && key <= n.key;
        ghost var walked;
        r, walked := FirstOfAll();
        steps := steps + walked;
      }
    }

    method FirstOfAll() returns (r: Node, ghost steps: nat)
      requires Linked() && Sentinel() && Spanned() && AllFine(nil, {}) && root in nodes && root.color == BLACK
      ensures root.span != [] && root.span[0] == r && r in nodes && steps == LeftWay(root) <= 2 * root.bh
    {
      ghost var more;
      assert Fine(root, nil);
      r, more, steps := SubtreeMin(root);
    }

    // ---------- the self-check ----------

    /** The number of nodes on the longest way down from `x`. */
    ghost function Depth(x: Node): nat
      requires Linked() && Spanned() && (x == nil || x in nodes)
      reads this`root, this`nodes, nil, nodes
      decreases |x.span|
    {
      if x == nil then 0
      else
        assert Down(x) && SpanOk(x);
        1 + Larger(Depth(x.left), Depth(x.right))
    }

    /** The depth as the check sees it: below a node without a left child it does not look right. */
    ghost function Seen(x: Node): nat
      requires Linked() && Spanned() && (x == nil || x in nodes)
      reads this`root, this`nodes, nil, nodes
      decreases |x.span|
    {
      if x == nil then 0
      else
        assert Down(x) && SpanOk(x);
        if x.left == nil then 1 else 1 + Larger(Seen(x.left), Seen(x.right))
    }

    lemma Smaller(x: Node)
      requires Linked() && Spanned() && x in nodes
      ensures |x.left.span| < |x.span| && |x.right.span| < |x.span|
      ensures (x.left != nil ==> x.left in nodes) && (x.right != nil ==> x.right in nodes)
    {
      assert Down(x) && SpanOk(x);
    }

    lemma SeenIs(x: Node)
      requires Linked() && Spanned() && x in nodes
      ensures Down(x) && SpanOk(x)
      ensures Seen(x) ==
        if x.left == nil then 1 else if x.right == nil then 1 + Seen(x.left)
        else 1 + Larger(Seen(x.left), Seen(x.right))
      ensures Seen(x) >= 1
    {
      assert Down(x) && SpanOk(x);
    }

    /** A tree of black height b is at most 2b deep, and the check sees all of its depth but at most one node. */
    lemma DepthSeen(x: Node)
      requires Linked() && Sentinel() && Spanned() && AllFine(nil, {}) && (x == nil || x in nodes)
      ensures Depth(x) <= Reach(x)
      ensures Seen(x) <= Depth(x) <= Seen(x) + 1
      decreases |x.span|
    {
      if x != nil {
        assert Down(x) && SpanOk(x) && Fine(x, nil);
        DepthSeen(x.left);
        DepthSeen(x.right);
        ReachDown(x);
      }
    }

    /** A black node that has only one child, a black one, is not balanced. */
    lemma Unbalanced()
      requires Linked() && Spanned() && root in nodes && root.left == nil && nil.bh == 0
      requires root.right != nil && root.right.color == BLACK
      ensures !Valid()
    {
      assert Down(root);
      assert !(Fine(root, nil) && Fine(root.right, nil));
    }

    /** The links and spans of two nodes, the second the right child of the first. */
    lemma LoneRightLinked(a: Node, b: Node)
      requires nil !in {a, b} && nil.span == []
      requires a.parent == nil && a.left == nil && a.right == b && a.span == [a, b]
      requires b.parent == a && b.left == nil && b.right == nil && b.span == [b]
      requires a != b && root == a && nodes == {a, b}
      ensures Linked() && Spanned()
    {
      assert Down(a) && Down(b) && Up(b);
      assert Linked();
      assert [] + [a] + [b] == [a, b] && [] + [b] + [] == [b];
      assert SpanOk(a) && SpanOk(b);
    }

    lemma LoneRightValid(a: Node, b: Node)
      requires Linked() && Spanned() && root == a && size == 2 && nodes == {a, b} && a != b && a.key <= b.key
        && a.span == [a, b]
      requires nil.color == BLACK && nil.bh == 0 && stale == nil && a.parent == nil && a.left == nil && a.right == b
      requires b.left == nil && b.right == nil && a.color == BLACK && a.bh == 1 && b.color == RED && b.bh == 0
      ensures Valid()
    {
      assert Fine(a, nil) && Fine(b, nil);
    }

    /** The links and spans of five nodes: `b` with the children `c` and `d` on the left of `a`, and `e` on its
        right. */
    lemma FiveLinked(a: Node, b: Node, c: Node, d: Node, e: Node)
      requires a !in {b, c, d, e} && b !in {c, d, e} && c !in {d, e} && d != e
      requires nil !in {a, b, c, d, e} && nil.span == [] && root == a && nodes == {a, b, c, d, e}
      requires a.parent == nil && a.left == b && a.right == e && a.span == [c, b, d, a, e]
      requires b.parent == a && b.left == c && b.right == d && b.span == [c, b, d]
      requires c.parent == b && c.left == nil && c.right == nil && c.span == [c]
      requires d.parent == b && d.left == nil && d.right == nil && d.span == [d]
      requires e.parent == a && e.left == nil && e.right == nil && e.span == [e]
      ensures Linked() && Spanned()
    {
      assert Down(a) && Down(b) && Down(c) && Down(d) && Down(e) && Up(b) && Up(c) && Up(d) && Up(e);
      assert Linked();
      assert b.span + [a] + e.span == a.span && c.span + [b] + d.span == b.span;
      assert [] + [c] + [] == [c] && [] + [d] + [] == [d] && [] + [e] + [] == [e];
      assert SpanOk(a) && SpanOk(b) && SpanOk(c) && SpanOk(d) && SpanOk(e);
    }

    lemma FiveSeen(a: Node, b: Node, c: Node, d: Node, e: Node)
      requires Linked() && Spanned() && {a, b, c, d, e} <= nodes && nil !in {a, b, c, d, e}
      requires a.left == b && a.right == e && b.left == c && b.right == d && c.left == nil && d.left == nil
        && e.left == nil
      requires a.color == BLACK && b.color == BLACK && e.color == BLACK && c.color == RED && d.color == RED
      requires c.key <= b.key <= d.key && b.key <= a.key <= e.key
      ensures SeenHeight(a) == 2
    {
      SeenHeightIs(a);
      SeenHeightIs(b);
      SeenHeightIs(c);
      SeenHeightIs(d);
      SeenHeightIs(e);
    }

    lemma FiveAstray(a: Node, b: Node, c: Node, d: Node, e: Node)
      requires Linked() && nodes == {a, b, c, d, e} && d.key > a.key && a.span == [c, b, d, a, e]
      requires a.left != nil && b.left != nil && c.right == nil && d.right == nil && e.right == nil
      ensures LonesFine() && !KeySorted(a.span)
    {
      forall n | n in nodes ensures Down(n) && LoneFine(n) { assert Down(n); }
      assert a.span[2] == d && a.span[3] == a;
    }

    /** The depth that is missed: a red leaf on the right of a node that has no left child. */
    lemma LoneRightMissed(x: Node)
      requires Linked() && Sentinel() && Spanned() && AllFine(nil, {}) && x in nodes && x.left == nil && x.right != nil
      ensures Depth(x) == 2 && Seen(x) == 1
    {
      DepthSeen(x);
      assert Down(x) && SpanOk(x) && Fine(x, nil);
      assert Down(x.right) && SpanOk(x.right) && Fine(x.right, nil);
    }

    /** `n` is the `d`-th node on a way down from `x`, counting both. */
    ghost predicate Stands(x: Node, n: Node, d: nat)
      requires Linked() && Spanned() && (x == nil || x in nodes)
      reads this`root, this`nodes, nil, nodes
      decreases |x.span|
    {
      x != nil && d > 0 &&
      (assert Down(x) && SpanOk(x);
       if d == 1 then n == x else Stands(x.left, n, d - 1) || Stands(x.right, n, d - 1))
    }

    /** The right child of a node without a left child. */
    ghost predicate LoneChild(n: Node)
      requires Linked() && n in nodes
      reads this`root, this`nodes, nodes
    {
      n != root && (assert Up(n); n.parent.right == n && n.parent.left == nil)
    }

    lemma StandsWithin(x: Node, n: Node, d: nat)
      requires Linked() && Spanned() && (x == nil || x in nodes) && Stands(x, n, d)
      ensures x != nil && n in nodes && d <= Depth(x) && |n.span| <= |x.span|
      decreases |x.span|
    {
      assert Down(x) && SpanOk(x);
      if d > 1 {
        if Stands(x.left, n, d - 1) { StandsWithin(x.left, n, d - 1); } else { StandsWithin(x.right, n, d - 1); }
      }
    }

    /** If the check sees the whole depth, it comes to a deepest node that is not a lone right child. */
    lemma DeepestSeen(x: Node) returns (n: Node)
      requires Linked() && Sentinel() && Spanned() && AllFine(nil, {}) && x in nodes && Seen(x) == Depth(x)
      ensures n in nodes && Stands(x, n, Depth(x)) && (n == x || !LoneChild(n))
      decreases |x.span|
    {
      assert Down(x) && SpanOk(x);
      n := x;
      if x.left != nil {
        DepthSeen(x.left);
        DepthSeen(x.right);
        assert Depth(x.left) >= 1 && Down(x.left);
        if Seen(x.left) + 1 == Depth(x) {
          n := DeepestSeen(x.left);
        } else {
          n := DeepestSeen(x.right);
          assert Down(x.right);
        }
      }
    }

    /** If the check misses depth, the deepest nodes are all lone right children. */
    lemma DeepestMissed(x: Node, n: Node)
      requires Linked() && Sentinel() && Spanned() && AllFine(nil, {}) && x in nodes && Seen(x) < Depth(x)
      requires Stands(x, n, Depth(x))
      ensures n in nodes && n != x && LoneChild(n)
      decreases |x.span|
    {
      assert Down(x) && SpanOk(x);
      StandsWithin(x, n, Depth(x));
      if x.left == nil {
        LoneRightMissed(x);
        assert !Stands(x.left, n, 1) && Stands(x.right, n, 1);
        assert n == x.right && Down(x) && Up(n);
      } else {
        var c := if Stands(x.left, n, Depth(x) - 1) then x.left else x.right;
        StandsWithin(c, n, Depth(x) - 1);
        DepthSeen(c);
        DeepestMissed(c, n);
      }
    }

    /** Some deepest node is not the right child of a node without a left child. */
    ghost predicate DepthVisible()
      requires Linked() && Spanned() && root in nodes
      reads this`root, this`nodes, nil, nodes
    {
      exists n :: n in nodes && Stands(root, n, Depth(root)) && !LoneChild(n)
    }

    /** When the reported depth is the true one. */
    lemma DepthExact()
      requires Shaped() && root != nil
      ensures Seen(root) == Depth(root) <==> DepthVisible()
    {
      DepthSeen(root);
      if Seen(root) == Depth(root) {
        var n := DeepestSeen(root);
      } else {
        forall n | n in nodes && Stands(root, n, Depth(root)) ensures LoneChild(n) {
          DeepestMissed(root, n);
        }
      }
    }

    // ---------- what the self-check finds ----------

    /** The colour rules at `x`, whatever the heights. */
    ghost predicate Coloured(x: Node)
      requires x.left != null && x.right != null
      reads x, x.left, x.right
    {
      && (x.color == BLACK || x.color == RED)
      && (x.color == RED ==> (x.left == nil || x.left.color != RED) && (x.right == nil || x.right.color != RED))
    }

    /** The number of black nodes on every way down from `x`, or -1 if that is not the same number or a colour is
        wrong. */
    ghost function BlackHeight(x: Node): (h: int)
      requires Linked() && Spanned() && (x == nil || x in nodes)
      reads this`root, this`nodes, nil, nodes
      ensures h >= -1
      decreases |x.span|
    {
      if x == nil then 0
      else
        assert Down(x) && SpanOk(x);
        var l, r := BlackHeight(x.left), BlackHeight(x.right);
        if l < 0 || l != r || !Coloured(x) then -1 else if x.color == BLACK then l + 1 else l
    }

    /** The colour and height rules below the root: what makes a search tree red-black. */
    ghost predicate Balanced()
      requires Linked() && Spanned()
      reads this`root, this`nodes, nil, nodes
    {
      root == nil || (root.color == BLACK && BlackHeight(root) >= 0)
    }

    /** The height as the check computes it: it compares keys and colours of parent and child, but below a
        node without a left child it does not look right. */
    ghost function SeenHeight(x: Node): (h: int)
      requires Linked() && Spanned() && (x == nil || x in nodes)
      reads this`root, this`nodes, nil, nodes
      ensures h >= -1
      decreases |x.span|
    {
      if x == nil then 0
      else
        assert Down(x) && SpanOk(x);
        var own := if x.color == BLACK then 1 else 0;
        if x.color != BLACK && x.color != RED then -1
        else if x.left == nil then own
        else
          var l, r := SeenHeight(x.left), SeenHeight(x.right);
          if l < 0 || l != r || !Coloured(x) || x.key < x.left.key || (x.right != nil && x.right.key < x.key) then -1
          else l + own
    }

    /** Below a node without a left child there is at most a red leaf. */
    ghost predicate LoneFine(n: Node)
      requires n.left != null && n.right != null
      reads n, n.right
    {
      n.left == nil && n.right != nil ==>
        n.color == BLACK && n.right.color == RED && n.right.left == nil && n.right.right == nil
    }

    ghost predicate LonesFine()
      requires Linked()
      reads this`root, this`nodes, nil, nodes
    {
      forall n {:trigger LoneFine(n)} :: n in nodes ==> Down(n) && LoneFine(n)
    }

    lemma LoneHeight(x: Node)
      requires Linked() && Spanned() && x in nodes && x.left == nil && LoneFine(x)
        && (x.color == BLACK || x.color == RED)
      ensures BlackHeight(x) == if x.color == BLACK then 1 else 0
    {
      assert Down(x) && SpanOk(x);
      if x.right != nil {
        assert Down(x.right) && SpanOk(x.right);
        assert BlackHeight(x.right.left) == 0 && BlackHeight(x.right.right) == 0 && BlackHeight(x.right) == 0;
      }
    }

    /** Where every lone right child is a red leaf the check computes the true height. */
    lemma SeenIsTrue(x: Node)
      requires Linked() && Spanned() && LonesFine() && (x == nil || x in nodes) && SeenHeight(x) >= 0
      ensures BlackHeight(x) == SeenHeight(x)
      decreases |x.span|
    {
      if x != nil {
        assert Down(x) && SpanOk(x) && LoneFine(x);
        if x.left == nil {
          LoneHeight(x);
        } else {
          SeenIsTrue(x.left);
          SeenIsTrue(x.right);
        }
      }
    }

    /** In a balanced tree in key order the check finds no fault, and every lone right child is a red leaf. */
    lemma TrueIsSeen(x: Node)
      requires Linked() && Spanned() && (x == nil || x in nodes) && KeySorted(x.span) && BlackHeight(x) >= 0
      ensures SeenHeight(x) == BlackHeight(x)
      ensures x != nil ==> Down(x) && LoneFine(x)
      decreases |x.span|
    {
      if x != nil {
        assert Down(x) && SpanOk(x);
        SortedParts(x.left.span, x, x.right.span);
        assert x.left != nil ==> SpanOk(x.left) && x.left in x.left.span;
        assert x.right != nil ==> SpanOk(x.right) && x.right in x.right.span;
        TrueIsSeen(x.left);
        TrueIsSeen(x.right);
        if x.left == nil && x.right != nil { FlatLeaf(x.right); }
      }
    }

    /** A subtree without black nodes is a red leaf. */
    lemma FlatLeaf(x: Node)
      requires Linked() && Spanned() && x in nodes && BlackHeight(x) == 0
      ensures Down(x) && x.color == RED && x.left == nil && x.right == nil
    {
      assert Down(x) && SpanOk(x);
      FlatIsRed(x);
      FlatIsRed(x.left);
      FlatIsRed(x.right);
    }

    lemma FlatIsRed(x: Node)
      requires Linked() && Spanned() && (x == nil || x in nodes) && BlackHeight(x) == 0
      ensures x == nil || x.color == RED
    {
      assert x != nil ==> Down(x) && SpanOk(x);
    }

    lemma HeightsBelow(x: Node, n: Node)
      requires Linked() && Spanned() && x in nodes && n in x.span && n in nodes && KeySorted(x.span)
        && BlackHeight(x) >= 0
      ensures BlackHeight(n) >= 0 && Down(n) && LoneFine(n)
      decreases |x.span|
    {
      assert Down(x) && SpanOk(x);
      SortedParts(x.left.span, x, x.right.span);
      if n in x.left.span {
        HeightsBelow(x.left, n);
      } else if n in x.right.span {
        HeightsBelow(x.right, n);
      } else {
        TrueIsSeen(x);
      }
    }

    /** When the check is right: of the trees in key order it accepts exactly the balanced ones and those with
        more than a red leaf below a node without a left child. */
    lemma CheckDecides()
      requires Linked() && Spanned() && Whole() && KeySorted(Elements())
      ensures Balanced() <==> (root == nil || (root.color == BLACK && SeenHeight(root) >= 0)) && LonesFine()
    {
      if root != nil {
        if LonesFine() && SeenHeight(root) >= 0 { SeenIsTrue(root); }
        if BlackHeight(root) >= 0 {
          TrueIsSeen(root);
          forall n | n in nodes ensures Down(n) && LoneFine(n) { HeightsBelow(root, n); }
        }
      }
    }

    /** The heights that the rules speak of are those noted in the nodes. */
    lemma NotedHeight(x: Node)
      requires Linked() && Sentinel() && Spanned() && AllFine(nil, {}) && (x == nil || x in nodes)
      ensures BlackHeight(x) == x.bh
      decreases |x.span|
    {
      if x != nil {
        assert Down(x) && SpanOk(x) && Fine(x, nil);
        NotedHeight(x.left);
        NotedHeight(x.right);
      }
    }

    lemma ValidBalanced()
      requires Linked() && Spanned()
      ensures Shaped() ==> Balanced()
    {
      if Shaped() { NotedHeight(root); }
    }

    /** A balanced tree has the shape of a red-black tree once its heights are noted. */
    ghost method NoteHeights()
      requires Linked() && Spanned() && Whole() && KeySorted(Elements()) && size == |Elements()| && Balanced()
        && nil.color == BLACK
      modifies nodes`bh, nil`bh
      ensures Shaped()
    {
      assert root == nil || root in nodes;
      forall n | n in nodes ensures BlackHeight(n) >= 0 { HeightsBelow(root, n); }
      ghost var heights := map n | n in nodes :: BlackHeight(n);
      forall n | n in nodes {
        n.bh := BlackHeight(n);
      }
      nil.bh := 0;
      ShapeKept();
      forall n | n in nodes ensures Down(n) && Fine(n, nil) {
        assert old(Down(n)) && old(SpanOk(n));
        assert n.left != nil ==> n.left.bh == heights[n.left];
        assert n.right != nil ==> n.right.bh == heights[n.right];
      }
    }

    // ---------- the self-check ----------

    /** Lines 434-503: no fault exactly if there is none that it can see and the height fits the one found before. */
    method CheckSubtree(node: Node, check: Check, level: nat, height: nat)
      requires Linked() && Spanned() && node in nodes && level >= 1 && (height > 0 || node.color == BLACK)
        && check.rbh >= 0
      modifies check
      ensures old(check.fini) != 0 ==> check.fini != 0
      ensures old(check.fini) == 0 ==>
        (check.fini == 0 <==> SeenHeight(node) >= 0 && old(check.rbh) in {0, height + SeenHeight(node)})
      ensures old(check.fini) == 0 && check.fini == 0 ==>
        check.rbh == height + SeenHeight(node) && check.maxd == Larger(old(check.maxd), level - 1 + Seen(node))
      ensures check.rbh >= 0
      decreases |node.span|
    {
      hide Up, Seen, SeenHeight, SpanOk;
      SeenIs(node);
      SeenHeightIs(node);
      Smaller(node);
      if check.fini != 0 {
        return;
      }
      var curheight := height;
      if node.color == BLACK {
        curheight := curheight + 1;
      } else if node.color != RED {
        check.fini := 2;
        return;
      }
      if node.left != nil {
        if node.color == RED && node.left.color == RED {
          check.fini := 4;
          return;
        }
        if node.key < node.left.key {
          check.fini := 5;
          return;
        }
        CheckSubtree(node.left, check, level + 1, curheight);
        // the right subtree is checked only after a left one
        if node.right != nil {
          if node.color == RED && node.right.color == RED {
            check.fini := 4;
            return;
          }
          if node.key > node.right.key {
            check.fini := 5;
            return;
          }
          CheckSubtree(node.right, check, level + 1, curheight);
          return;
        }
      }
      check.EndOfRoad(level, curheight);
    }

    lemma SeenHeightIs(x: Node)
      requires Linked() && Spanned() && x in nodes
      ensures Down(x)
      ensures SeenHeight(nil) == 0 && (SeenHeight(x) >= 0 ==> x.color == BLACK || x.color == RED)
      ensures var own := if x.color == BLACK then 1 else 0;
        (x.color == BLACK || x.color == RED) && x.left == nil ==> SeenHeight(x) == own
      ensures x.left != nil ==>
        var l, r := SeenHeight(x.left), SeenHeight(x.right);
        if l < 0 || l != r || !Coloured(x)
           || x.key < x.left.key || (x.right != nil && x.right.key < x.key)
        then SeenHeight(x) == -1
        else SeenHeight(x) == l + if x.color == BLACK then 1 else 0
    {
      assert Down(x) && SpanOk(x);
    }

    /** What the visible faults say of the tree. */
    lemma CheckMeans()
      requires Linked() && Spanned()
      ensures Whole() && KeySorted(Elements()) ==>
        (Balanced() <==> (root == nil || (root.color == BLACK && SeenHeight(root) >= 0)) && LonesFine())
      ensures Shaped() && root != nil ==>
        root.color == BLACK && SeenHeight(root) == root.bh && (Seen(root) == Depth(root) <==> DepthVisible())
    {
      if Whole() && KeySorted(Elements()) { CheckDecides(); }
      if Shaped() && root != nil {
        NotedHeight(root);
        TrueIsSeen(root);
        DepthExact();
      }
    }

    /** Lines 505-528: 0 exactly for the trees without a visible fault. */
    method SelfCheck() returns (result: int, blackHeight: int, maxDepth: int)
      requires Linked() && Spanned()
      ensures result == 0 <==> root == nil || (root.color == BLACK && SeenHeight(root) >= 0)
      ensures result == 0 && root != nil ==> blackHeight == SeenHeight(root) && maxDepth == Seen(root)
      ensures Whole() && KeySorted(Elements()) ==> (Balanced() <==> result == 0 && LonesFine())
      ensures Shaped() ==> result == 0 && (root != nil ==> blackHeight == root.bh)
      ensures Shaped() && root != nil ==> (maxDepth == Depth(root) <==> DepthVisible())
    {
      var check := new Check();
      CheckMeans();
      hide Whole, KeySorted, Balanced, LonesFine, Shaped, SeenHeight, Seen, Depth, DepthVisible;
      if root == nil {
        return 0, 0, 0;
      }
      if root.color != BLACK {
        return 1, 0, 0;
      }
      CheckSubtree(root, check, 1, 0);
      return check.fini, check.rbh, check.maxd;
    }
  }

  class Check {
    var rbh: int
    var maxd: int
    var fini: int

    constructor ()
      ensures rbh == maxd == fini == 0
    {
      rbh, maxd, fini := 0, 0, 0;
    }

    /** The comparison where a child is missing. */
    method EndOfRoad(level: nat, curheight: int)
      modifies this
      ensures rbh == if old(rbh) == 0 then curheight else old(rbh)
      ensures maxd == Larger(old(maxd), level)
      ensures fini == if rbh != curheight then 3 else old(fini)
    {
      if rbh == 0 {
        rbh := curheight;
      }
      if maxd < level {
        maxd := level;
      }
      if rbh != curheight {
        fini := 3;
      }
    }
  }

  function Larger(a: int, b: int): int {
    if a < b then b else a
  }

  /** An order stays while the keys do. */
  twostate lemma OrderKept(s: seq<Node>)
    requires old(KeySorted(s)) && forall n :: n in s ==> n.key == old(n.key)
    ensures KeySorted(s)
  {
  }

  lemma SortedParts(a: seq<Node>, x: Node, b: seq<Node>)
    requires KeySorted(a + [x] + b)
    ensures KeySorted(a) && KeySorted(b)
    ensures (forall n :: n in a ==> n.key <= x.key) && (forall n :: n in b ==> x.key <= n.key)
  {
    var s := a + [x] + b;
    assert forall i :: 0 <= i < |a| ==> s[i] == a[i];
    assert s[|a|] == x;
    assert forall i :: 0 <= i < |b| ==> s[|a| + 1 + i] == b[i];
  }

  ghost predicate Below(s: seq<Node>, key: int)
    reads s`key
  {
    forall i :: 0 <= i < |s| ==> s[i].key < key
  }

  ghost predicate AtLeast(s: seq<Node>, key: int)
    reads s`key
  {
    forall i :: 0 <= i < |s| ==> key <= s[i].key
  }

  /** Place `i` holds the first key not below `key`, or is the first place if all keys are below. */
  ghost predicate IsSuccessor(s: seq<Node>, key: int, i: int)
    reads s`key
  {
    && 0 <= i < |s|
    && if s[i].key < key then i == 0 && Below(s, key) else Below(s[..i], key)
  }

  lemma SuccessorAt(s: seq<Node>, pre: seq<Node>, post: seq<Node>, key: int)
    requires s == pre + [] + post && s != [] && Below(pre, key) && AtLeast(post, key)
    ensures IsSuccessor(s, key, if post == [] then 0 else |pre|)
    ensures post != [] ==> s[|pre|] == post[0]
  {
    assert s[..|pre|] == pre;
  }

  lemma NowhereBetween(s: seq<Node>, pre: seq<Node>, post: seq<Node>, key: int)
    requires s == pre + [] + post && Below(pre, key) && Above(post, key)
    ensures forall n :: n in s ==> n.key != key
  {
  }

  lemma DeletedNodes(s: seq<Node>, node: Node)
    requires NoDup<Node>(s) && node in s
    ensures var t := Subst<Node>(s, node, []);
      && NoDup<Node>(t) && |t| == |s| - 1 && node !in t
      && (forall n :: n in t ==> n in s) && (forall n :: n in s && n != node ==> n in t)
  {
    var i :| 0 <= i < |s| && s[i] == node;
    var a, b := s[..i], s[i + 1..];
    assert s == a + [node] + b;
    SubstOnce<Node>(a, node, b, []);
    assert a + [] + b == a + b;
    NoDupAround<Node>(a, node, b);
  }

  lemma DeletedSorted(s: seq<Node>, node: Node)
    requires NoDup<Node>(s) && KeySorted(s) && node in s
    ensures KeySorted(Subst<Node>(s, node, [])) && |Subst<Node>(s, node, [])| == |s| - 1
  {
    var i :| 0 <= i < |s| && s[i] == node;
    var a, b := s[..i], s[i + 1..];
    assert s == a + [node] + b;
    SortedWithout(a, node, b);
    NoDupAround<Node>(a, node, b);
    hide KeySorted, Subst, NoDup;
    SubstOnce<Node>(a, node, b, []);
    assert a + [] + b == a + b;
  }

  lemma SortedWithout(a: seq<Node>, x: Node, b: seq<Node>)
    requires KeySorted(a + [x] + b)
    ensures KeySorted(a + b)
  {
    var s, t := a + [x] + b, a + b;
    assert forall k :: 0 <= k < |t| ==> t[k] == s[if k < |a| then k else k + 1];
  }

  lemma LoneSpan(s: seq<Node>, node: Node, t: seq<Node>)
    requires NoDup<Node>(s) && (s == [node] + t || s == t + [node])
    ensures Subst<Node>(s, node, []) == t
  {
    if s == [node] + t {
      assert s == [] + [node] + t;
      SubstOnce<Node>([], node, t, []);
    } else {
      assert s == t + [node] + [];
      SubstOnce<Node>(t, node, [], []);
    }
    assert [] + [] + t == t && t + [] + [] == t;
  }

  /** Where the new leaf hangs is where it belongs in the sequence. */
  lemma InsertedSpan(s: seq<Node>, pre: seq<Node>, post: seq<Node>, y: Node, node: Node)
    requires NoDup(s) && s == pre + post
    requires UpTo(pre, node.key) && Above(post, node.key)
    requires if node.key < y.key then post != [] && post[0] == y else pre != [] && pre[|pre| - 1] == y
    ensures Subst(s, y, if node.key < y.key then [node, y] else [y, node]) == pre + [node] + post == Inserted(s, node)
  {
    InsertedBetween(pre, post, node);
    if node.key < y.key {
      SubstBefore(pre, post, node);
    } else {
      SubstAfter(pre, post, node);
    }
  }

  lemma InsertedProperties(pre: seq<Node>, post: seq<Node>, node: Node)
    requires NoDup(pre + post) && KeySorted(pre + post) && node !in pre + post
    requires UpTo(pre, node.key) && Above(post, node.key)
    ensures var t := pre + [node] + post;
      NoDup(t) && KeySorted(t) && node in t && (forall n :: n in pre + post ==> n in t)
        && (forall n :: n in t ==> n == node || n in pre + post)
  {
    var s, t := pre + post, pre + [node] + post;
    assert forall i :: 0 <= i < |s| ==> s[i] == t[if i < |pre| then i else i + 1];
    assert t[|pre|] == node;
    assert forall i :: 0 <= i < |t| && i != |pre| ==> t[i] == s[if i < |pre| then i else i - 1];
  }

  /** Comparing with the middle of a sorted sequence settles one side of it. */
  lemma Descend(s: seq<Node>, pre: seq<Node>, a: seq<Node>, x: Node, b: seq<Node>, post: seq<Node>, key: int)
    requires KeySorted(s) && s == pre + (a + [x] + b) + post
    ensures s == pre + a + ([x] + (b + post)) && s == (pre + a + [x]) + b + post
    ensures key < x.key ==> Above([x] + (b + post), key)
    ensures key <= x.key ==> AtLeast([x] + (b + post), key)
    ensures x.key <= key ==> UpTo(pre + a + [x], key)
    ensures x.key < key ==> Below(pre + a + [x], key)
  {
    SpanRegroup<Node>(pre, a, x, b, post);
    SortedParts(pre + a, x, b + post);
    Regrouped(pre + a, x, b + post, key);
  }

  lemma Regrouped(l: seq<Node>, x: Node, r: seq<Node>, key: int)
    requires (forall n :: n in l ==> n.key <= x.key) && (forall n :: n in r ==> x.key <= n.key)
    ensures key < x.key ==> Above([x] + r, key)
    ensures key <= x.key ==> AtLeast([x] + r, key)
    ensures x.key <= key ==> UpTo(l + [x], key)
    ensures x.key < key ==> Below(l + [x], key)
  {
  }
}
