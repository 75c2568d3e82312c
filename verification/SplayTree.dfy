/** The splay tree of tree.h: nodes without a parent link, and a top-down splay that moves the node with a key, or one
    next to it, to the root. */
module SplayTree {
  import opened SplayShape

  class SplayNode {
    const key: int   // stands for what `cmp` compares
    var left: SplayNode?
    var right: SplayNode?

    constructor (key: int)
      ensures this.key == key && left == null && right == null
    {
      this.key, left, right := key, null, null;
    }
  }

  ghost function At(order: seq<SplayNode>, i: int): SplayNode? {
    if 0 <= i < |order| then order[i] else null
  }

  ghost predicate Ordered(order: seq<SplayNode>) {
    forall i, j :: 0 <= i < j < |order| ==> order[i].key < order[j].key
  }

  /** The links of the nodes are those of the shape. */
  ghost predicate Mirrors(order: seq<SplayNode>, s: Shape)
    reads order
  {
    && Sized(s, |order|)
    && forall i {:trigger s.left[i]} {:trigger s.right[i]} :: 0 <= i < |order| ==>
         order[i].left == At(order, s.left[i]) && order[i].right == At(order, s.right[i])
  }

  /** How far a splay has got: the parts of the tree are those of module SplayShape. */
  datatype Stage = Stage(s: Shape, a: int, b: int, p: int, x: int, y: int)

  ghost predicate Stands(order: seq<SplayNode>, g: Stage) {
    && Ordered(order) && Sized(g.s, |order|)
    && Middle(g.s, |order|, g.a, g.b, g.p) && Sides(g.s, |order|, g.a, g.b, g.x, g.y)
  }

  /** The parts that are cut off have the smaller and the greater keys. */
  ghost predicate KeysCut(order: seq<SplayNode>, key: int, a: int, b: int) {
    && (forall i :: 0 <= i < |order| && i <= a ==> order[i].key < key)
    && (forall i :: 0 <= i < |order| && b <= i ==> key < order[i].key)
  }

  /** Node `p` has the key, or is the next one to it in order. */
  ghost predicate Closest(order: seq<SplayNode>, key: int, p: int)
    requires 0 <= p < |order|
  {
    || order[p].key == key
    || (key < order[p].key && forall i :: 0 <= i < p ==> order[i].key < key)
    || (order[p].key < key && forall i :: p < i < |order| ==> key < order[i].key)
  }

  lemma KeysBefore(order: seq<SplayNode>, key: int, a: int, b: int, p: int)
    requires Ordered(order) && KeysCut(order, key, a, b) && 0 <= p < |order| && order[p].key < key
    ensures KeysCut(order, key, p, b)
  {
  }

  lemma KeysBehind(order: seq<SplayNode>, key: int, a: int, b: int, p: int)
    requires Ordered(order) && KeysCut(order, key, a, b) && 0 <= p < |order| && key < order[p].key
    ensures KeysCut(order, key, a, p)
  {
  }

  ghost predicate HasNoKey(order: seq<SplayNode>, key: int) {
    forall i :: 0 <= i < |order| ==> order[i].key != key
  }

  /** The nodes without the one at place `k`. */
  ghost function Without(order: seq<SplayNode>, k: int): seq<SplayNode>
    requires 0 <= k < |order|
  {
    order[..k] + order[k + 1..]
  }

  /** Where the root has not the key, no node has it. */
  lemma NoKeyAtRoot(order: seq<SplayNode>, key: int, p: int)
    requires Ordered(order) && 0 <= p < |order| && Closest(order, key, p)
    ensures order[p].key != key <==> HasNoKey(order, key)
  {
    forall i | 0 <= i < |order|
      ensures order[p].key != key ==> order[i].key != key
    {
      assert i < p ==> order[i].key < order[p].key;
      assert p < i ==> order[p].key < order[i].key;
    }
  }

  ghost function With(order: seq<SplayNode>, elm: SplayNode, q: int): seq<SplayNode>
    requires 0 <= q <= |order|
  {
    order[..q] + [elm] + order[q..]
  }

  lemma WithInOrder(order: seq<SplayNode>, elm: SplayNode, q: int)
    requires Ordered(order) && 0 <= q <= |order|
    requires forall i :: 0 <= i < q ==> order[i].key < elm.key
    requires forall i :: q <= i < |order| ==> elm.key < order[i].key
    ensures Ordered(With(order, elm, q)) && Without(With(order, elm, q), q) == order
  {
    var o := With(order, elm, q);
    forall i, j | 0 <= i < j < |o|
      ensures o[i].key < o[j].key
    {
      assert o[i] == if i < q then order[i] else if i == q then elm else order[i - 1];
      assert o[j] == if j < q then order[j] else if j == q then elm else order[j - 1];
    }
  }

  /** All links but those of root `p`. */
  ghost predicate OthersMirror(order: seq<SplayNode>, s: Shape, p: int)
    reads order
  {
    && Sized(s, |order|)
    && forall i {:trigger s.left[i]} {:trigger s.right[i]} :: 0 <= i < |order| && i != p ==>
         order[i].left == At(order, s.left[i]) && order[i].right == At(order, s.right[i])
  }

  /** The children of a node stay on its side of the root, so they are the same nodes when `elm` is put in there. */
  lemma ChildrenStay(order: seq<SplayNode>, elm: SplayNode, s: Shape, p: int, q: int, i: int)
    requires Whole(s, |order|, p) && p <= q <= p + 1 && 0 <= i < |order|
    ensures var o := With(order, elm, q);
      if i < p then At(o, s.left[i]) == At(order, s.left[i]) && At(o, s.right[i]) == At(order, s.right[i])
      else if i > p then At(o, Up(s.left[i])) == At(order, s.left[i]) && At(o, Up(s.right[i])) == At(order, s.right[i])
      else At(o, s.left[p]) == At(order, s.left[p]) && At(o, Up(s.right[p])) == At(order, s.right[p])
  {
    assert Cut(s, |order|, -1, |order|, p) && Cut(s, |order|, -1, |order|, i);
    if i != p {
      Nested(s, |order|, -1, |order|, p, i);
    }
  }

  ghost predicate LinkedTo(node: SplayNode, left: SplayNode?, right: SplayNode?)
    reads node
  {
    node.left == left && node.right == right
  }

  lemma MirrorsBeforeAt(order: seq<SplayNode>, elm: SplayNode, s: Shape, p: int, i: int, l: int, r: int)
    requires Whole(s, |order|, p) && OthersMirror(order, s, p) && 0 <= i <= |order|
    requires LinkedTo(order[p], null, At(order, s.right[p])) && LinkedTo(elm, At(order, s.left[p]), order[p])
    requires i < p ==> l == s.left[i] && r == s.right[i]
    requires i == p ==> l == s.left[p] && r == p + 1
    requires i == p + 1 ==> l == NONE && r == Up(s.right[p])
    requires i > p + 1 ==> l == Up(s.left[i - 1]) && r == Up(s.right[i - 1])
    ensures LinkedTo(With(order, elm, p)[i], At(With(order, elm, p), l), At(With(order, elm, p), r))
  {
    var o := With(order, elm, p);
    ChildrenStay(order, elm, s, p, p, if i <= p then i else i - 1);
    if i < p {
      assert o[i] == order[i];
    } else if i == p {
      assert o[i] == elm && o[p + 1] == order[p];
    } else {
      assert o[i] == order[i - 1];
    }
  }

  lemma MirrorsBehindAt(order: seq<SplayNode>, elm: SplayNode, s: Shape, p: int, i: int, l: int, r: int)
    requires Whole(s, |order|, p) && OthersMirror(order, s, p) && 0 <= i <= |order|
    requires LinkedTo(order[p], At(order, s.left[p]), null) && LinkedTo(elm, order[p], At(order, s.right[p]))
    requires i < p ==> l == s.left[i] && r == s.right[i]
    requires i == p ==> l == s.left[p] && r == NONE
    requires i == p + 1 ==> l == p && r == Up(s.right[p])
    requires i > p + 1 ==> l == Up(s.left[i - 1]) && r == Up(s.right[i - 1])
    ensures LinkedTo(With(order, elm, p + 1)[i], At(With(order, elm, p + 1), l), At(With(order, elm, p + 1), r))
  {
    var o := With(order, elm, p + 1);
    ChildrenStay(order, elm, s, p, p + 1, if i <= p then i else i - 1);
    if i <= p {
      assert o[i] == order[i];
    } else if i == p + 1 {
      assert o[i] == elm && o[p] == order[p];
    } else {
      assert o[i] == order[i - 1];
    }
  }

  lemma MirrorsByLinks(o: seq<SplayNode>, s: Shape)
    requires Sized(s, |o|)
    requires forall i {:trigger s.left[i]} {:trigger s.right[i]} :: 0 <= i < |o| ==>
      LinkedTo(o[i], At(o, s.left[i]), At(o, s.right[i]))
    ensures Mirrors(o, s)
  {
  }

  lemma MirrorsBefore(order: seq<SplayNode>, elm: SplayNode, s: Shape, p: int)
    requires Whole(s, |order|, p) && OthersMirror(order, s, p)
    requires LinkedTo(order[p], null, At(order, s.right[p])) && LinkedTo(elm, At(order, s.left[p]), order[p])
    ensures Mirrors(With(order, elm, p), GrownBefore(s, |order|, p))
  {
    var o, s' := With(order, elm, p), GrownBefore(s, |order|, p);
    forall i | 0 <= i < |o|
      ensures LinkedTo(o[i], At(o, s'.left[i]), At(o, s'.right[i]))
    {
      GrownLinks(s, |order|, p, i);
      MirrorsBeforeAt(order, elm, s, p, i, s'.left[i], s'.right[i]);
    }
    MirrorsByLinks(o, s');
  }

  lemma MirrorsBehind(order: seq<SplayNode>, elm: SplayNode, s: Shape, p: int)
    requires Whole(s, |order|, p) && OthersMirror(order, s, p)
    requires LinkedTo(order[p], At(order, s.left[p]), null) && LinkedTo(elm, order[p], At(order, s.right[p]))
    ensures Mirrors(With(order, elm, p + 1), GrownBehind(s, |order|, p))
  {
    var o, s' := With(order, elm, p + 1), GrownBehind(s, |order|, p);
    forall i | 0 <= i < |o|
      ensures LinkedTo(o[i], At(o, s'.left[i]), At(o, s'.right[i]))
    {
      GrownLinks(s, |order|, p, i);
      MirrorsBehindAt(order, elm, s, p, i, s'.left[i], s'.right[i]);
    }
    MirrorsByLinks(o, s');
  }

  /** The children of nodes behind root `p`, when the root is taken out. */
  lemma ChildrenMoveDown(order: seq<SplayNode>, s: Shape, p: int, i: int)
    requires Whole(s, |order|, p) && p <= i < |order|
    ensures i > p ==> At(Without(order, p), Down(s.left[i])) == At(order, s.left[i])
    ensures At(Without(order, p), Down(s.right[i])) == At(order, s.right[i])
  {
    assert Cut(s, |order|, -1, |order|, p) && Cut(s, |order|, -1, |order|, i);
    if i != p {
      Nested(s, |order|, -1, |order|, p, i);
    }
  }

  /** The children of nodes before root `p` are before it. */
  lemma ChildrenBefore(order: seq<SplayNode>, s: Shape, p: int, i: int)
    requires Whole(s, |order|, p) && 0 <= i < p
    ensures At(order[..p], s.left[i]) == At(order, s.left[i]) && At(order[..p], s.right[i]) == At(order, s.right[i])
  {
    assert Cut(s, |order|, -1, |order|, p) && Cut(s, |order|, -1, |order|, i);
    Nested(s, |order|, -1, |order|, p, i);
  }

  lemma MirrorsLeft(order: seq<SplayNode>, s: Shape, p: int)
    requires Whole(s, |order|, p) && Mirrors(order, s)
    ensures Mirrors(order[..p], Shortened(s, p))
  {
    forall i | 0 <= i < p
      ensures LinkedTo(order[..p][i], At(order[..p], s.left[i]), At(order[..p], s.right[i]))
    {
      ChildrenBefore(order, s, p, i);
    }
    MirrorsByLinks(order[..p], Shortened(s, p));
  }

  lemma MirrorsDropped(order: seq<SplayNode>, s: Shape)
    requires Whole(s, |order|, 0) && Mirrors(order, s)
    ensures Mirrors(Without(order, 0), FirstDropped(s, |order|))
  {
    var o, s' := Without(order, 0), FirstDropped(s, |order|);
    forall i | 0 <= i < |o|
      ensures LinkedTo(o[i], At(o, s'.left[i]), At(o, s'.right[i]))
    {
      ChildrenMoveDown(order, s, 0, i + 1);
      assert o[i] == order[i + 1];
    }
    MirrorsByLinks(o, s');
  }

  lemma MirrorsJoinedAt(order: seq<SplayNode>, s: Shape, p: int, l: Shape, i: int)
    requires Whole(s, |order|, p) && 0 < p && Whole(l, p, p - 1) && 0 <= i < |order| - 1
    requires i < p - 1 ==> LinkedTo(order[i], At(order[..p], l.left[i]), At(order[..p], l.right[i]))
    requires i == p - 1 ==> LinkedTo(order[i], At(order[..p], l.left[i]), At(order, s.right[p]))
    requires i >= p ==> LinkedTo(order[i + 1], At(order, s.left[i + 1]), At(order, s.right[i + 1]))
    ensures var o, s' := Without(order, p), JoinedTo(l, s, |order|, p);
      LinkedTo(o[i], At(o, s'.left[i]), At(o, s'.right[i]))
  {
    var o := Without(order, p);
    assert Cut(s, |order|, -1, |order|, p);
    JoinedLinks(l, s, |order|, p, i);
    assert o[i] == if i < p then order[i] else order[i + 1];
    if i < p {
      assert Cut(l, p, -1, p, i);
      ChildrenMoveDown(order, s, p, p);
    } else {
      ChildrenMoveDown(order, s, p, i + 1);
    }
  }

  lemma MirrorsJoined(order: seq<SplayNode>, s: Shape, p: int, l: Shape)
    requires Whole(s, |order|, p) && 0 < p && Whole(l, p, p - 1)
    requires OthersMirror(order[..p], l, p - 1)
    requires LinkedTo(order[p - 1], At(order[..p], l.left[p - 1]), At(order, s.right[p]))
    requires forall i {:trigger s.left[i]} {:trigger s.right[i]} :: p < i < |order| ==>
      order[i].left == At(order, s.left[i]) && order[i].right == At(order, s.right[i])
    ensures Mirrors(Without(order, p), JoinedTo(l, s, |order|, p))
  {
    var o, s' := Without(order, p), JoinedTo(l, s, |order|, p);
    forall i | 0 <= i < |o|
      ensures LinkedTo(o[i], At(o, s'.left[i]), At(o, s'.right[i]))
    {
      if i < p {
        assert order[..p][i] == order[i];
      } else {
        assert order[i + 1] in order;
      }
      MirrorsJoinedAt(order, s, p, l, i);
    }
    MirrorsByLinks(o, s');
  }

  class Tree {
    var root: SplayNode?
    ghost var order: seq<SplayNode>
    ghost var shape: Shape
    ghost var top: int

    constructor ()
      ensures Valid() && order == []
    {
      root, order, shape, top := null, [], Shape([], [], [], []), NONE;
    }

    ghost predicate Valid()
      reads this, order
    {
      && Ordered(order) && Mirrors(order, shape) && root == At(order, top)
      && (if order == [] then top == NONE else Whole(shape, |order|, top))
    }

    /** The two parts hang on `node`, the dummy of a splay; `left` and `right` are the nodes at their inner edges. */
    ghost predicate During(g: Stage, node: SplayNode, left: SplayNode, right: SplayNode)
      reads this, order, node
    {
      && Stands(order, g) && Mirrors(order, g.s) && node !in order
      && root == order[g.p]
      && left == (if g.a == -1 then node else order[g.a]) && right == (if g.b == |order| then node else order[g.b])
      && node.right == At(order, g.x) && node.left == At(order, g.y)
    }

    method RotateRight(tmp: SplayNode, node: SplayNode, left: SplayNode, right: SplayNode, ghost g: Stage)
      returns (ghost g': Stage)
      requires During(g, node, left, right) && root.left == tmp
      modifies `root, root, tmp
      ensures During(g', node, left, right)
      ensures g.s.left[g.p] != NONE && g' == g.(s := RotatedRight(g.s, g.p), p := g.s.left[g.p])
    {
      ghost var s, p, n := g.s, g.p, |order|;
      assert Cut(s, n, g.a, g.b, p);
      SplayShape.RotateRight(s, n, g.a, g.b, p, g.x, g.y);
      assert order[p] == root && order[s.left[p]] == tmp;
      g' := g.(s := RotatedRight(s, p), p := s.left[p]);
      root.left := tmp.right;
      tmp.right := root;
      root := tmp;
    }

    method LinkLeft(node: SplayNode, left: SplayNode, right: SplayNode, ghost g: Stage)
      returns (right': SplayNode, ghost g': Stage)
      requires During(g, node, left, right) && root.left != null
      modifies `root, right
      ensures During(g', node, left, right') && g'.a == g.a && g'.b == g.p && g'.s.right == g.s.right
    {
      ghost var s, p, n := g.s, g.p, |order|;
      assert Cut(s, n, g.a, g.b, p);
      assert order[p] == root;
      SplayShape.LinkLeft(s, n, g.a, g.b, p, g.x, g.y);
      g' := Stage(LinkedLeft(s, n, g.b, p), g.a, p, s.left[p], g.x, if g.b == n then p else g.y);
      right.left := root;
      right' := root;
      root := root.left;
      assert Mirrors(order, g'.s);
    }

    method RotateLeft(tmp: SplayNode, node: SplayNode, left: SplayNode, right: SplayNode, ghost g: Stage)
      returns (ghost g': Stage)
      requires During(g, node, left, right) && root.right == tmp
      modifies `root, root, tmp
      ensures During(g', node, left, right)
      ensures g.s.right[g.p] != NONE && g' == g.(s := RotatedLeft(g.s, g.p), p := g.s.right[g.p])
    {
      ghost var s, p, n := g.s, g.p, |order|;
      assert Cut(s, n, g.a, g.b, p);
      SplayShape.RotateLeft(s, n, g.a, g.b, p, g.x, g.y);
      assert order[p] == root && order[s.right[p]] == tmp;
      g' := g.(s := RotatedLeft(s, p), p := s.right[p]);
      root.right := tmp.left;
      tmp.left := root;
      root := tmp;
    }

    method LinkRight(node: SplayNode, left: SplayNode, right: SplayNode, ghost g: Stage)
      returns (left': SplayNode, ghost g': Stage)
      requires During(g, node, left, right) && root.right != null
      modifies `root, left
      ensures During(g', node, left', right) && g'.a == g.p && g'.b == g.b && g'.s.left == g.s.left
    {
      ghost var s, p, n := g.s, g.p, |order|;
      assert Cut(s, n, g.a, g.b, p);
      assert order[p] == root;
      SplayShape.LinkRight(s, n, g.a, g.b, p, g.x, g.y);
      g' := Stage(LinkedRight(s, n, g.a, p), p, g.b, s.right[p], if g.a == -1 then p else g.x, g.y);
      left.right := root;
      left' := root;
      root := root.right;
      assert Mirrors(order, g'.s);
    }

    /** The subtrees of the root go to the inner edges of the two parts. */
    method FillEdges(node: SplayNode, left: SplayNode, right: SplayNode, ghost g: Stage) returns (ghost s': Shape)
      requires During(g, node, left, right)
      modifies left, right
      ensures s' == EdgesFilled(g.s, |order|, g.a, g.b, g.p) && Mirrors(order, s')
      ensures node.right == At(order, if g.a == -1 then g.s.left[g.p] else g.x)
      ensures node.left == At(order, if g.b == |order| then g.s.right[g.p] else g.y)
    {
      assert order[g.p] == root;
      s' := EdgesFilled(g.s, |order|, g.a, g.b, g.p);
      left.right := root.left;
      right.left := root.right;
    }

    method Assemble(node: SplayNode, left: SplayNode, right: SplayNode, ghost g: Stage)
      requires During(g, node, left, right)
      modifies left, right, root, `shape, `top
      ensures Valid() && top == g.p
    {
      ghost var s, p, n := g.s, g.p, |order|;
      assert order[p] == root;
      ghost var s' := FillEdges(node, left, right, g);
      root.left := node.right;
      root.right := node.left;
      SplayShape.Assemble(s, n, g.a, g.b, p, g.x, g.y);
      shape, top := Assembled(s, n, g.a, g.b, p, g.x, g.y), p;
    }

    /** The dummy and the first stage of a splay. */
    method Begin() returns (node: SplayNode, ghost g: Stage)
      requires Valid() && root != null
      ensures fresh(node) && During(g, node, node, node) && g.a == -1 && g.b == |order|
    {
      node := new SplayNode(0);
      g := Stage(shape, -1, |order|, top, NONE, NONE);
    }

    /** One turn to the left; `done` where there is nothing left of the root. A turn over two levels hangs the root
        under its left child. */
    method StepLeft(elm: SplayNode, node: SplayNode, left: SplayNode, right: SplayNode, ghost g: Stage)
      returns (done: bool, right': SplayNode, ghost g': Stage)
      requires During(g, node, left, right) && KeysCut(order, elm.key, g.a, g.b) && elm.key < root.key
      modifies `root, order, right
      ensures During(g', node, left, right') && KeysCut(order, elm.key, g'.a, g'.b)
      ensures if done then elm.key < root.key && root.left == null else g'.b - g'.a < g.b - g.a
      ensures g.s.left[g.p] != NONE ==> 0 <= g.s.left[g.p] < |order|
      ensures g.s.left[g.p] != NONE && elm.key < order[g.s.left[g.p]].key ==> g'.s.right[g.s.left[g.p]] == g.p
    {
      right', g' := right, g;
      assert order[g.p] == root && Cut(g.s, |order|, g.a, g.b, g.p);
      var tmp := root.left;
      if tmp == null { return true, right', g'; }
      assert order[g.s.left[g.p]] == tmp;
      if elm.key < tmp.key {
        g' := RotateRight(tmp, node, left, right, g);
        if root.left == null { return true, right', g'; }
      }
      KeysBehind(order, elm.key, g'.a, g'.b, g'.p);
      right', g' := LinkLeft(node, left, right, g');
      done := false;
    }

    method StepRight(elm: SplayNode, node: SplayNode, left: SplayNode, right: SplayNode, ghost g: Stage)
      returns (done: bool, left': SplayNode, ghost g': Stage)
      requires During(g, node, left, right) && KeysCut(order, elm.key, g.a, g.b) && root.key < elm.key
      modifies `root, order, left
      ensures During(g', node, left', right) && KeysCut(order, elm.key, g'.a, g'.b)
      ensures if done then root.key < elm.key && root.right == null else g'.b - g'.a < g.b - g.a
      ensures g.s.right[g.p] != NONE ==> 0 <= g.s.right[g.p] < |order|
      ensures g.s.right[g.p] != NONE && elm.key > order[g.s.right[g.p]].key ==> g'.s.left[g.s.right[g.p]] == g.p
    {
      left', g' := left, g;
      assert order[g.p] == root && Cut(g.s, |order|, g.a, g.b, g.p);
      var tmp := root.right;
      if tmp == null { return true, left', g'; }
      assert order[g.s.right[g.p]] == tmp;
      if elm.key > tmp.key {
        g' := RotateLeft(tmp, node, left, right, g);
        if root.right == null { return true, left', g'; }
      }
      KeysBefore(order, elm.key, g'.a, g'.b, g'.p);
      left', g' := LinkRight(node, left, right, g');
      done := false;
    }

    lemma ClosestAtEnd(key: int, g: Stage, node: SplayNode, left: SplayNode, right: SplayNode)
      requires During(g, node, left, right) && KeysCut(order, key, g.a, g.b)
      requires root.key == key || (key < root.key && root.left == null) || (root.key < key && root.right == null)
      ensures Closest(order, key, g.p)
    {
      assert Cut(g.s, |order|, g.a, g.b, g.p);
      assert order[g.p] == root;
    }

    /** Moves the node with the key of `elm`, or one next to it, to the root; the order of the nodes stays. */
    method Splay(elm: SplayNode)
      requires Valid() && root != null
      modifies `root, `shape, `top, order
      ensures Valid() && root != null && Closest(order, elm.key, top)
    {
      var node, left, right, done;
      ghost var g;
      node, g := Begin();
      left, right, done := node, node, false;
      while !done && elm.key != root.key
        invariant During(g, node, left, right) && KeysCut(order, elm.key, g.a, g.b)
        invariant done ==> (elm.key < root.key && root.left == null) || (root.key < elm.key && root.right == null)
        decreases !done, g.b - g.a
      {
        if elm.key < root.key {
          done, right, g := StepLeft(elm, node, left, right, g);
        } else {
          done, left, g := StepRight(elm, node, left, right, g);
        }
      }
      ClosestAtEnd(elm.key, g, node, left, right);
      Assemble(node, left, right, g);
    }

    method StepToMin(node: SplayNode, left: SplayNode, right: SplayNode, ghost g: Stage)
      returns (done: bool, right': SplayNode, ghost g': Stage)
      requires During(g, node, left, right)
      modifies `root, order, right
      ensures During(g', node, left, right') && g'.a == g.a
      ensures if done then root.left == null else g'.b < g.b
      ensures g.s.left[g.p] != NONE ==> 0 <= g.s.left[g.p] < |order| && g'.s.right[g.s.left[g.p]] == g.p
    {
      right', g' := right, g;
      assert order[g.p] == root && Cut(g.s, |order|, g.a, g.b, g.p);
      var tmp := root.left;
      if tmp == null { return true, right', g'; }
      assert order[g.s.left[g.p]] == tmp;
      g' := RotateRight(tmp, node, left, right, g);
      if root.left == null { return true, right', g'; }
      right', g' := LinkLeft(node, left, right, g');
      done := false;
    }

    method StepToMax(node: SplayNode, left: SplayNode, right: SplayNode, ghost g: Stage)
      returns (done: bool, left': SplayNode, ghost g': Stage)
      requires During(g, node, left, right)
      modifies `root, order, left
      ensures During(g', node, left', right) && g'.b == g.b
      ensures if done then root.right == null else g.a < g'.a
      ensures g.s.right[g.p] != NONE ==> 0 <= g.s.right[g.p] < |order| && g'.s.left[g.s.right[g.p]] == g.p
    {
      left', g' := left, g;
      assert order[g.p] == root && Cut(g.s, |order|, g.a, g.b, g.p);
      var tmp := root.right;
      if tmp == null { return true, left', g'; }
      assert order[g.s.right[g.p]] == tmp;
      g' := RotateLeft(tmp, node, left, right, g);
      if root.right == null { return true, left', g'; }
      left', g' := LinkRight(node, left, right, g');
      done := false;
    }

    lemma EndOfTree(g: Stage, node: SplayNode, left: SplayNode, right: SplayNode)
      requires During(g, node, left, right)
      ensures root.left == null && g.a == -1 ==> g.p == 0
      ensures root.right == null && g.b == |order| ==> g.p == |order| - 1
    {
      assert Cut(g.s, |order|, g.a, g.b, g.p);
      assert order[g.p] == root;
    }

    /** The least node comes to the root for a negative `comp`, the greatest one for a positive one; the loop of the
        source does not end for 0. */
    method MinMax(comp: int) returns (r: SplayNode)
      requires Valid() && root != null && comp != 0
      modifies `root, `shape, `top, order
      ensures Valid() && r == root && top == if comp < 0 then 0 else |order| - 1
    {
      var node, left, right, done;
      ghost var g;
      node, g := Begin();
      left, right, done := node, node, false;
      while !done
        invariant During(g, node, left, right) && (if comp < 0 then g.a == -1 else g.b == |order|)
        invariant done ==> if comp < 0 then root.left == null else root.right == null
        decreases !done, g.b - g.a
      {
        if comp < 0 {
          done, right, g := StepToMin(node, left, right, g);
        } else {
          done, left, g := StepToMax(node, left, right, g);
        }
      }
      EndOfTree(g, node, left, right);
      Assemble(node, left, right, g);
      r := root;
    }

    /** The successor of a node of the tree, which comes to the root. */
    method Next(elm: SplayNode, ghost k: int) returns (next: SplayNode?)
      requires Valid() && 0 <= k < |order| && order[k] == elm
      modifies `root, `shape, `top, order
      ensures Valid() && root == elm && next == At(order, k + 1)
    {
      assert Cut(shape, |order|, -1, |order|, top);
      Splay(elm);
      NoKeyAtRoot(order, elm.key, top);
      ghost var s, n := shape, |order|;
      assert order[top].key == order[k].key;
      assert top == k && Cut(s, n, -1, n, k);
      if elm.right == null {
        return null;
      }
      next := elm.right;
      ghost var i := s.right[k];
      assert order[i] == next;
      while next.left != null
        invariant k < i < n && s.lo[i] == k && order[i] == next
        decreases i
      {
        assert Cut(s, n, -1, n, i);
        i := s.left[i];
        next := next.left;
      }
      assert Cut(s, n, -1, n, i);
    }

    /** The node with the key of `elm`, if there is one. */
    method Find(elm: SplayNode) returns (found: SplayNode?)
      requires Valid()
      modifies `root, `shape, `top, order
      ensures Valid() && root == (if found == null then root else found)
      ensures found != null ==> found in order && found.key == elm.key
      ensures found == null <==> HasNoKey(order, elm.key)
    {
      if root == null { return null; }
      Splay(elm);
      NoKeyAtRoot(order, elm.key, top);
      found := if elm.key == root.key then root else null;
    }

    /** Puts `elm` in, unless a node with its key is there; then that one is returned. */
    method Insert(elm: SplayNode) returns (found: SplayNode?)
      requires Valid()
      modifies `root, `order, `shape, `top, order, elm
      ensures Valid()
      ensures found == null <==> HasNoKey(old(order), elm.key)
      ensures found != null ==> found in old(order) && found.key == elm.key && order == old(order)
      ensures found == null ==> 0 <= top < |order| && root == elm == order[top] && Without(order, top) == old(order)
    {
      if root == null {
        elm.left, elm.right := null, null;
        root := elm;
        order, shape, top := [elm], Shape([NONE], [NONE], [-1], [1]), 0;
        assert Cut(shape, 1, -1, 1, 0);
        return null;
      }
      Splay(elm);
      NoKeyAtRoot(order, elm.key, top);
      if elm.key < root.key {
        InsertBefore(elm);
      } else if elm.key > root.key {
        InsertBehind(elm);
      } else {
        return root;
      }
      found := null;
    }

    /** Takes out the node with the key of `elm`; it is `elm` that is returned. */
    method Remove(elm: SplayNode) returns (r: SplayNode?)
      requires Valid()
      modifies `root, `order, `shape, `top, order
      ensures Valid()
      ensures r == if HasNoKey(old(order), elm.key) then null else elm
      ensures r == null ==> order == old(order)
      ensures r != null ==>
        exists k :: 0 <= k < |old(order)| && old(order)[k].key == elm.key && order == Without(old(order), k)
    {
      if root == null { return null; }
      Splay(elm);
      NoKeyAtRoot(order, elm.key, top);
      if elm.key == root.key {
        if root.left == null {
          DropRoot();
        } else {
          ReplaceRoot(elm);
        }
        return elm;
      }
      r := null;
    }

    method DropRoot()
      requires Valid() && root != null && root.left == null
      modifies `root, `order, `shape, `top
      ensures Valid() && 0 <= old(top) < |old(order)| && order == Without(old(order), old(top))
    {
      ghost var s, n, p := shape, |order|, top;
      assert Cut(s, n, -1, n, p);
      assert p == 0 && order[0] == root;
      MirrorsDropped(order, s);
      ChildrenMoveDown(order, s, 0, 0);
      root := root.right;
      if s.right[0] == NONE {
        order, shape, top := [], Shape([], [], [], []), NONE;
      } else {
        DropFirst(s, n);
        order, shape, top := Without(order, 0), FirstDropped(s, n), s.right[0] - 1;
      }
    }

    /** The splay of the left subtree brings its last node up, which then takes the right subtree. */
    method ReplaceRoot(elm: SplayNode)
      requires Valid() && root != null && root.left != null && root.key == elm.key
      modifies `root, `order, `shape, `top, order
      ensures Valid() && 0 <= old(top) < |old(order)| && order == Without(old(order), old(top))
    {
      ghost var o, s, p := order, shape, top;
      var tmp := root.right;
      TakeLeftSubtree(elm.key);
      Splay(elm);
      LastIsClosest(order, elm.key, top);
      HangRight(tmp, o, s, p);
    }

    /** The tree holds the nodes before root `p` of the tree that was there before, with the last one on top. */
    method HangRight(tmp: SplayNode?, ghost o: seq<SplayNode>, ghost s: Shape, ghost p: int)
      requires Valid() && root != null && top == |order| - 1
      requires Ordered(o) && Whole(s, |o|, p) && order == o[..p] && tmp == At(o, s.right[p])
      requires forall i {:trigger s.left[i]} {:trigger s.right[i]} :: p < i < |o| ==>
        o[i].left == At(o, s.left[i]) && o[i].right == At(o, s.right[i])
      modifies `order, `shape, root
      ensures Valid() && order == Without(o, p)
    {
      assert Cut(shape, p, -1, p, p - 1);
      ghost var l := shape;
      assert order[p - 1] == root;
      root.right := tmp;
      MirrorsJoined(o, s, p, l);
      Join(l, s, |o|, p);
      order, shape := Without(o, p), JoinedTo(l, s, |o|, p);
      assert Mirrors(order, shape);
    }

    method TakeLeftSubtree(ghost key: int)
      requires Valid() && root != null && root.left != null && root.key == key
      modifies `root, `order, `shape, `top
      ensures Valid() && root != null && 0 < old(top) < |old(order)| && order == old(order)[..old(top)]
      ensures Whole(old(shape), |old(order)|, old(top))
      ensures old(root.right) == At(old(order), old(shape).right[old(top)])
      ensures forall i :: 0 <= i < |order| ==> order[i].key < key
    {
      ghost var o, s, n, p := order, shape, |order|, top;
      assert Cut(s, n, -1, n, p);
      assert o[p] == root;
      TakeLeft(s, n, p);
      MirrorsLeft(o, s, p);
      root := root.left;
      order, shape, top := o[..p], Shortened(s, p), s.left[p];
    }

    method InsertBefore(elm: SplayNode)
      requires Valid() && root != null && Closest(order, elm.key, top) && elm.key < root.key && elm !in order
      modifies `root, `order, `shape, `top, root, elm
      ensures Valid() && root == elm && 0 <= top < |order| && order[top] == elm && Without(order, top) == old(order)
    {
      ghost var s, n, p := shape, |order|, top;
      assert order[p] == root;
      KeysAround(order, elm.key, p, p);
      WithInOrder(order, elm, p);
      GrowBefore(s, n, p);
      elm.left := root.left;
      elm.right := root;
      root.left := null;
      root := elm;
      MirrorsBefore(order, elm, s, p);
      order, shape := With(order, elm, p), GrownBefore(s, n, p);
      assert Mirrors(order, shape);
    }

    method InsertBehind(elm: SplayNode)
      requires Valid() && root != null && Closest(order, elm.key, top) && root.key < elm.key && elm !in order
      modifies `root, `order, `shape, `top, root, elm
      ensures Valid() && root == elm && 0 <= top < |order| && order[top] == elm && Without(order, top) == old(order)
    {
      ghost var s, n, p := shape, |order|, top;
      assert order[p] == root;
      KeysAround(order, elm.key, p, p + 1);
      WithInOrder(order, elm, p + 1);
      GrowBehind(s, n, p);
      elm.right := root.right;
      elm.left := root;
      root.right := null;
      root := elm;
      MirrorsBehind(order, elm, s, p);
      order, shape, top := With(order, elm, p + 1), GrownBehind(s, n, p), p + 1;
      assert Ordered(order) && Mirrors(order, shape);
    }
  }

  /** Next to a key above all of them is the last node. */
  lemma LastIsClosest(order: seq<SplayNode>, key: int, p: int)
    requires Ordered(order) && 0 <= p < |order| && Closest(order, key, p)
    requires forall i :: 0 <= i < |order| ==> order[i].key < key
    ensures p == |order| - 1
  {
    assert order[|order| - 1].key < key;
  }

  /** The key belongs at place `q`. */
  lemma KeysAround(order: seq<SplayNode>, key: int, p: int, q: int)
    requires Ordered(order) && 0 <= p < |order| && Closest(order, key, p)
    requires if q == p then key < order[p].key else q == p + 1 && order[p].key < key
    ensures forall i :: 0 <= i < q ==> order[i].key < key
    ensures forall i :: q <= i < |order| ==> key < order[i].key
  {
    forall i | 0 <= i < |order|
      ensures if i < q then order[i].key < key else key < order[i].key
    {
      assert i < p ==> order[i].key < order[p].key;
      assert p < i ==> order[p].key < order[i].key;
    }
  }
}
