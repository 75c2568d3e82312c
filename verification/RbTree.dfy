/** The red-black tree that tree.h generates for `xh_core_map_info`.

    Nodes are heap objects, and every routine rewrites the link and colour fields in the order in
    which the macros do. The proof keeps four ghost numbers in each node: its position in the
    in-order sequence `order` of the tree, the interval of positions its subtree covers, and the
    black height of its subtree. What must hold of a node then speaks of the node and its
    neighbours only, so a pointer write disturbs a handful of nodes.

    Each routine that relinks nodes is described by a two-state predicate that says, node by node,
    what became of the fields (`RotatedLeft`, `Unlinked`, `Replaced`, `Inserted`); the lemmas
    beside it derive from it that the tree is in shape again and balanced again. The halves that
    the macros write out for both sides are written out for both sides here as well. */
module RbTree {
  import opened Arithmetic
  import opened CStrings

  datatype Color = Black | Red

  /** A map entry with the link fields RB_ENTRY puts in it. */
  class Node {
    const pathname: string
    var baseAddr: nat

    var left: Node?
    var right: Node?
    var parent: Node?
    var color: Color

    ghost var pos: int  // position in the in-order sequence
    ghost var lo: int   // the subtree covers the positions from lo
    ghost var hi: int   // up to, but not including, hi
    ghost var bh: nat   // black nodes on every path from here down to a NULL link

    constructor (pathname: string, baseAddr: nat)
      ensures this.pathname == pathname && this.baseAddr == baseAddr
    {
      this.pathname := pathname;
      this.baseAddr := baseAddr;
      left, right, parent := null, null, null;
      color := Black;
    }
  }

  /** The black height below a link, the null leaf included. */
  ghost function Bh(n: Node?): nat
    reads (if n == null then {} else {n})`bh
  {
    if n == null then 0 else n.bh
  }

  predicate IsBlack(n: Node?)
    reads (if n == null then {} else {n})`color
  {
    n == null || n.color == Black
  }

  /** What a node of colour `c` adds to the black height. */
  function Cost(c: Color): nat {
    if c == Black then 1 else 0
  }

  function InsertAt<T>(s: seq<T>, k: int, x: T): (r: seq<T>)
    requires 0 <= k <= |s|
    ensures |r| == |s| + 1
    ensures forall i {:trigger r[i]} :: 0 <= i < |r| ==> r[i] == if i < k then s[i] else if i == k then x else s[i - 1]
  {
    s[..k] + [x] + s[k..]
  }

  function RemoveAt<T>(s: seq<T>, k: int): (r: seq<T>)
    requires 0 <= k < |s|
    ensures |r| == |s| - 1
    ensures forall i {:trigger r[i]} :: 0 <= i < |r| ==> r[i] == if i < k then s[i] else s[i + 1]
  {
    s[..k] + s[k + 1..]
  }

  lemma TakeFirst<T>(done: seq<T>, rest: seq<T>)
    requires rest != []
    ensures done + rest == done + [rest[0]] + rest[1..]
  {
    assert rest == [rest[0]] + rest[1..];
  }

  lemma SliceAround<T>(s: seq<T>, lo: int, k: int, hi: int)
    requires 0 <= lo <= k < hi <= |s|
    ensures s[lo..hi] == s[lo..k] + [s[k]] + s[k + 1..hi]
  {
  }

  lemma {:induction false} DistinctSequence<T>(s: seq<T>)
    requires forall i, j :: 0 <= i < j < |s| ==> s[i] != s[j]
    ensures multiset(s) == multiset(set x | x in s)
  {
    if s != [] {
      var front, last := s[..|s| - 1], s[|s| - 1];
      DistinctSequence(front);
      assert s == front + [last];
      assert (set x | x in s) == (set x | x in front) + {last};
    }
  }

  /** Position `x` once position `k` is gone. */
  function Drop(k: int, x: int): int {
    if x > k then x - 1 else x
  }

  /** The child of a node that has at most one. */
  function OnlyChild(n: Node): Node?
    reads n`left, n`right
  {
    if n.left == null then n.right else n.left
  }

  ghost predicate Ascending(s: seq<Node>) {
    forall i, j :: 0 <= i < j < |s| ==> Strcmp(s[i].pathname, s[j].pathname) < 0
  }

  lemma AscendingWithout(s: seq<Node>, k: int)
    requires 0 <= k < |s|
    ensures Ascending(s) ==> Ascending(RemoveAt(s, k))
  {
  }

  class Tree {
    var root: Node?
    ghost var order: seq<Node>  // the nodes from left to right
    ghost var nodes: set<Node>  // the same nodes as a set

    constructor ()
      ensures Valid() && order == [] && nodes == {} && root == null
    {
      root := null;
      order, nodes := [], {};
    }

    /** The links of `n` agree with the positions recorded in it and in its neighbours. */
    ghost predicate ShapeAt(n: Node)
      requires n in nodes
      reads this, nodes`left, nodes`right, nodes`parent, nodes`pos, nodes`lo, nodes`hi
    {
      && 0 <= n.lo <= n.pos < n.hi <= |order|
      && order[n.pos] == n
      && (if n.left == null then n.lo == n.pos
          else n.left in nodes && n.left.parent == n && n.left.lo == n.lo && n.left.hi == n.pos)
      && (if n.right == null then n.hi == n.pos + 1
          else n.right in nodes && n.right.parent == n && n.right.lo == n.pos + 1 && n.right.hi == n.hi)
      && (if n.parent == null then n == root
          else n.parent in nodes && n != root && (n.parent.left == n || n.parent.right == n))
    }

    /** A binary tree whose in-order sequence is `order`, parent links included. */
    ghost predicate Shape()
      reads this, nodes`left, nodes`right, nodes`parent, nodes`pos, nodes`lo, nodes`hi
    {
      && (forall i {:trigger order[i]} :: 0 <= i < |order| ==> order[i] in nodes && order[i].pos == i)
      && (forall n {:trigger ShapeAt(n)} :: n in nodes ==> ShapeAt(n))
      && (if root == null then order == []
          else root in nodes && root.parent == null && root.lo == 0 && root.hi == |order|)
    }

    /** Both subtrees have the black height that the recorded one of `n` leaves for them. */
    ghost predicate HeightAt(n: Node)
      reads this, n`left, n`right, n`bh, n`color, nodes`bh
    {
      && (n.left != null ==> n.left in nodes)
      && (n.right != null ==> n.right in nodes)
      && Bh(n.left) == Bh(n.right) == n.bh - Cost(n.color)
    }

    /** Black heights agree below `n`, and if `n` is red its children are black. */
    ghost predicate BalancedAt(n: Node)
      reads this, n`left, n`right, n`bh, n`color, nodes`bh, nodes`color
    {
      && HeightAt(n)
      && (n.color == Red ==> IsBlack(n.left) && IsBlack(n.right))
    }

    ghost predicate Balanced(except: set<Node?>)
      reads this, nodes`left, nodes`right, nodes`parent, nodes`color, nodes`pos, nodes`lo, nodes`hi, nodes`bh
    {
      forall n {:trigger BalancedAt(n)} :: n in nodes && n !in except ==> BalancedAt(n)
    }

    /** The subtree `e` of `p` is one black node short; otherwise `p` is balanced. */
    ghost predicate ShortAt(p: Node, e: Node?)
      reads this, p`left, p`right, p`bh, p`color, nodes`bh, nodes`color
    {
      && (p.left != null ==> p.left in nodes)
      && (p.right != null ==> p.right in nodes)
      && (|| (&& p.left == e && Bh(p.left) + 1 == Bh(p.right) == p.bh - Cost(p.color)
              && (p.color == Red ==> IsBlack(p.right)))
          || (&& p.right == e && Bh(p.right) + 1 == Bh(p.left) == p.bh - Cost(p.color)
              && (p.color == Red ==> IsBlack(p.left))))
    }

    /** The state of REMOVE_COLOR: `elm` is one black node short below `parent`, all else is balanced. */
    ghost predicate RemoveInv(parent: Node?, elm: Node?)
      reads this, nodes`left, nodes`right, nodes`parent, nodes`color, nodes`pos, nodes`lo, nodes`hi, nodes`bh
    {
      && Shape()
      && Balanced({parent, elm})
      && (elm != null ==> elm in nodes && elm.parent == parent && HeightAt(elm))
      && (if parent == null then elm == root else parent in nodes && ShortAt(parent, elm))
      && (root != null && root != elm ==> root.color == Black)
    }

    /** Every node balanced and the root black. */
    ghost predicate RedBlack()
      reads this, nodes`left, nodes`right, nodes`parent, nodes`color, nodes`pos, nodes`lo, nodes`hi, nodes`bh
    {
      && Shape()
      && Balanced({})
      && IsBlack(root)
    }

    /** The state of INSERT_COLOR: the red `elm` may have a red parent, all else is balanced. */
    ghost predicate InsertInv(elm: Node)
      reads this, nodes`left, nodes`right, nodes`parent, nodes`color, nodes`pos, nodes`lo, nodes`hi, nodes`bh
    {
      && Shape()
      && elm in nodes && elm.color == Red
      && Balanced({elm.parent})
      && (elm.parent != null ==>
            && elm.parent in nodes && HeightAt(elm.parent)
            && (elm.parent.color == Red ==>
                  && (elm.parent.left == elm || IsBlack(elm.parent.left))
                  && (elm.parent.right == elm || IsBlack(elm.parent.right))))
      && (root != null && root != elm ==> root.color == Black)
    }

    /** The pointer writes of RB_ROTATE_LEFT. */
    method RelinkLeft(elm: Node) returns (tmp: Node)
      requires elm.right != null
      requires elm != elm.right && elm.right != elm.parent && elm != elm.parent
      requires elm.right.left != null ==>
          elm.right.left != elm && elm.right.left != elm.right && elm.right.left != elm.parent
      modifies this`root, elm`right, elm`parent, elm.right`left, elm.right`parent
      modifies (if elm.right.left == null then {} else {elm.right.left})`parent
      modifies (if elm.parent == null then {} else {elm.parent})`left
      modifies (if elm.parent == null then {} else {elm.parent})`right
      ensures tmp == old(elm.right)
      ensures elm.right == old(tmp.left) && tmp.left == elm
      ensures elm.parent == tmp && tmp.parent == old(elm.parent)
      ensures elm.right != null ==> elm.right.parent == elm
      ensures root == if tmp.parent == null then tmp else old(root)
      ensures tmp.parent != null ==>
          && tmp.parent.left == (if old(elm.parent.left) == elm then tmp else old(elm.parent.left))
          && tmp.parent.right == (if old(elm.parent.left) == elm then old(elm.parent.right) else tmp)
    {
      tmp := elm.right;
      elm.right := tmp.left;
      if elm.right != null {
        tmp.left.parent := elm;
      }
      tmp.parent := elm.parent;
      if tmp.parent != null {
        if elm == elm.parent.left {
          elm.parent.left := tmp;
        } else {
          elm.parent.right := tmp;
        }
      } else {
        root := tmp;
      }
      tmp.left := elm;
      elm.parent := tmp;
    }

    /** What rotating `elm` to the left, below `tmp`, does to every node `m`. */
    twostate predicate RotatedLeft(elm: Node, tmp: Node, m: Node)
      reads m`left, m`right, m`parent, m`pos, m`lo, m`hi
    {
      && m.pos == old(m.pos)
      && (if m == elm then
            && m.left == old(m.left) && m.right == old(tmp.left) && m.parent == tmp
            && m.lo == old(m.lo) && m.hi == old(tmp.pos)
          else if m == tmp then
            && m.left == elm && m.right == old(m.right) && m.parent == old(elm.parent)
            && m.lo == old(elm.lo) && m.hi == old(m.hi)
          else
            && m.left == (if old(m.left) == elm then tmp else old(m.left))
            && m.right == (if old(m.right) == elm then tmp else old(m.right))
            && m.parent == (if m == old(tmp.left) then elm else old(m.parent))
            && m.lo == old(m.lo) && m.hi == old(m.hi))
    }

    twostate predicate AllRotatedLeft(elm: Node, tmp: Node)
      reads this, nodes`left, nodes`right, nodes`parent, nodes`pos, nodes`lo, nodes`hi
    {
      && nodes == old(nodes) && order == old(order)
      && elm in nodes && tmp in nodes && tmp == old(elm.right)
      && root == (if old(root) == elm then tmp else old(root))
      && forall m {:trigger RotatedLeft(elm, tmp, m)} :: m in nodes ==> RotatedLeft(elm, tmp, m)
    }

    twostate lemma RotatedLeftShape(elm: Node)
      requires elm in old(nodes) && old(Shape()) && old(elm.right) != null && AllRotatedLeft(elm, old(elm.right))
      ensures Shape()
    {
      var tmp := old(elm.right);
      assert old(ShapeAt(elm)) && old(ShapeAt(tmp));
      assert RotatedLeft(elm, tmp, elm) && RotatedLeft(elm, tmp, tmp);
      assert tmp.left == elm;
      assert old(tmp.left) == null || RotatedLeft(elm, tmp, old(tmp.left));
      assert old(elm.parent) == null || RotatedLeft(elm, tmp, old(elm.parent));
      forall n | n in nodes ensures ShapeAt(n) {
        assert old(ShapeAt(n));
        assert RotatedLeft(elm, tmp, n);
        assert old(n.left) == null || RotatedLeft(elm, tmp, old(n.left));
        assert old(n.right) == null || RotatedLeft(elm, tmp, old(n.right));
        assert old(n.parent) == null || RotatedLeft(elm, tmp, old(n.parent));
      }
      forall i | 0 <= i < |order| ensures order[i] in nodes && order[i].pos == i {
        assert RotatedLeft(elm, tmp, order[i]);
      }
      assert RotatedLeft(elm, tmp, old(root));
    }

    method TurnLeft(elm: Node) returns (tmp: Node)
      requires Shape() && elm in nodes && elm.right != null
      modifies this`root, nodes`left, nodes`right, nodes`parent, nodes`lo, nodes`hi
      ensures tmp == old(elm.right)
      ensures AllRotatedLeft(elm, tmp)
    {
      assert ShapeAt(elm) && ShapeAt(elm.right);
      assert elm.right.left != null ==> ShapeAt(elm.right.left);
      assert elm.parent != null ==> ShapeAt(elm.parent);
      tmp := RelinkLeft(elm);
      elm.hi := tmp.pos;
      tmp.lo := elm.lo;
      forall n | n in nodes ensures RotatedLeft(elm, tmp, n) {
        assert old(ShapeAt(n));
      }
    }

    /** RB_ROTATE_LEFT: the in-order sequence stays as it is. */
    method RotateLeft(elm: Node) returns (tmp: Node)
      requires Shape() && elm in nodes && elm.right != null
      modifies this`root, nodes`left, nodes`right, nodes`parent, nodes`lo, nodes`hi
      ensures tmp == old(elm.right)
      ensures Shape() && AllRotatedLeft(elm, tmp)
    {
      tmp := TurnLeft(elm);
      RotatedLeftShape(elm);
    }

    /** The pointer writes of RB_ROTATE_RIGHT. */
    method RelinkRight(elm: Node) returns (tmp: Node)
      requires elm.left != null
      requires elm != elm.left && elm.left != elm.parent && elm != elm.parent
      requires elm.left.right != null ==>
          elm.left.right != elm && elm.left.right != elm.left && elm.left.right != elm.parent
      modifies this`root, elm`left, elm`parent, elm.left`right, elm.left`parent
      modifies (if elm.left.right == null then {} else {elm.left.right})`parent
      modifies (if elm.parent == null then {} else {elm.parent})`right
      modifies (if elm.parent == null then {} else {elm.parent})`left
      ensures tmp == old(elm.left)
      ensures elm.left == old(tmp.right) && tmp.right == elm
      ensures elm.parent == tmp && tmp.parent == old(elm.parent)
      ensures elm.left != null ==> elm.left.parent == elm
      ensures root == if tmp.parent == null then tmp else old(root)
      ensures tmp.parent != null ==>
          && tmp.parent.left == (if old(elm.parent.left) == elm then tmp else old(elm.parent.left))
          && tmp.parent.right == (if old(elm.parent.left) == elm then old(elm.parent.right) else tmp)
    {
      tmp := elm.left;
      elm.left := tmp.right;
      if elm.left != null {
        tmp.right.parent := elm;
      }
      tmp.parent := elm.parent;
      if tmp.parent != null {
        if elm == elm.parent.left {
          elm.parent.left := tmp;
        } else {
          elm.parent.right := tmp;
        }
      } else {
        root := tmp;
      }
      tmp.right := elm;
      elm.parent := tmp;
    }

    /** What rotating `elm` to the right, below `tmp`, does to every node `m`. */
    twostate predicate RotatedRight(elm: Node, tmp: Node, m: Node)
      reads m`right, m`left, m`parent, m`pos, m`lo, m`hi
    {
      && m.pos == old(m.pos)
      && (if m == elm then
            && m.right == old(m.right) && m.left == old(tmp.right) && m.parent == tmp
            && m.lo == old(tmp.pos) + 1 && m.hi == old(m.hi)
          else if m == tmp then
            && m.right == elm && m.left == old(m.left) && m.parent == old(elm.parent)
            && m.lo == old(m.lo) && m.hi == old(elm.hi)
          else
            && m.right == (if old(m.right) == elm then tmp else old(m.right))
            && m.left == (if old(m.left) == elm then tmp else old(m.left))
            && m.parent == (if m == old(tmp.right) then elm else old(m.parent))
            && m.lo == old(m.lo) && m.hi == old(m.hi))
    }

    twostate predicate AllRotatedRight(elm: Node, tmp: Node)
      reads this, nodes`right, nodes`left, nodes`parent, nodes`pos, nodes`lo, nodes`hi
    {
      && nodes == old(nodes) && order == old(order)
      && elm in nodes && tmp in nodes && tmp == old(elm.left)
      && root == (if old(root) == elm then tmp else old(root))
      && forall m {:trigger RotatedRight(elm, tmp, m)} :: m in nodes ==> RotatedRight(elm, tmp, m)
    }

    twostate lemma RotatedRightShape(elm: Node)
      requires elm in old(nodes) && old(Shape()) && old(elm.left) != null && AllRotatedRight(elm, old(elm.left))
      ensures Shape()
    {
      var tmp := old(elm.left);
      assert old(ShapeAt(elm)) && old(ShapeAt(tmp));
      assert RotatedRight(elm, tmp, elm) && RotatedRight(elm, tmp, tmp);
      assert tmp.right == elm;
      assert old(tmp.right) == null || RotatedRight(elm, tmp, old(tmp.right));
      assert old(elm.parent) == null || RotatedRight(elm, tmp, old(elm.parent));
      forall n | n in nodes ensures ShapeAt(n) {
        assert old(ShapeAt(n));
        assert RotatedRight(elm, tmp, n);
        assert old(n.right) == null || RotatedRight(elm, tmp, old(n.right));
        assert old(n.left) == null || RotatedRight(elm, tmp, old(n.left));
        assert old(n.parent) == null || RotatedRight(elm, tmp, old(n.parent));
      }
      forall i | 0 <= i < |order| ensures order[i] in nodes && order[i].pos == i {
        assert RotatedRight(elm, tmp, order[i]);
      }
      assert RotatedRight(elm, tmp, old(root));
    }

    method TurnRight(elm: Node) returns (tmp: Node)
      requires Shape() && elm in nodes && elm.left != null
      modifies this`root, nodes`right, nodes`left, nodes`parent, nodes`lo, nodes`hi
      ensures tmp == old(elm.left)
      ensures AllRotatedRight(elm, tmp)
    {
      assert ShapeAt(elm) && ShapeAt(elm.left);
      assert elm.left.right != null ==> ShapeAt(elm.left.right);
      assert elm.parent != null ==> ShapeAt(elm.parent);
      tmp := RelinkRight(elm);
      elm.lo := tmp.pos + 1;
      tmp.hi := elm.hi;
      forall n | n in nodes ensures RotatedRight(elm, tmp, n) {
        assert old(ShapeAt(n));
      }
    }

    /** RB_ROTATE_RIGHT: the in-order sequence stays as it is. */
    method RotateRight(elm: Node) returns (tmp: Node)
      requires Shape() && elm in nodes && elm.left != null
      modifies this`root, nodes`right, nodes`left, nodes`parent, nodes`lo, nodes`hi
      ensures tmp == old(elm.left)
      ensures Shape() && AllRotatedRight(elm, tmp)
    {
      tmp := TurnRight(elm);
      RotatedRightShape(elm);
    }

    twostate predicate SameWeight(m: Node)
      reads m`color, m`bh
    {
      m.color == old(m.color) && m.bh == old(m.bh)
    }

    /** Nodes that a rotation and its recolouring do not touch stay balanced. */
    twostate lemma RotatedLeftBystanders(elm: Node)
      requires old(Shape()) && old(elm in nodes && elm.right != null) && AllRotatedLeft(elm, old(elm.right))
      requires forall m {:trigger SameWeight(m)} ::
          m in nodes && m != elm && m != old(elm.right) && m != old(elm.right.right) ==> SameWeight(m)
      requires old(elm.right).bh == old(elm.bh) && (old(elm.right).color == Black || old(elm.color) == Red)
      ensures forall n {:trigger BalancedAt(n)} ::
          n in nodes && n != elm && n != old(elm.right) && SameWeight(n) && old(BalancedAt(n)) ==> BalancedAt(n)
    {
      var t := old(elm.right);
      assert old(ShapeAt(elm)) && old(ShapeAt(t));
      forall n | n in nodes && n != elm && n != t && SameWeight(n) && old(BalancedAt(n)) ensures BalancedAt(n) {
        assert old(ShapeAt(n)) && RotatedLeft(elm, t, n);
        assert n.left == null || n.left == t || SameWeight(n.left);
        assert n.right == null || n.right == t || SameWeight(n.right);
      }
    }

    /** Nodes that a rotation and its recolouring do not touch stay balanced. */
    twostate lemma RotatedRightBystanders(elm: Node)
      requires old(Shape()) && old(elm in nodes && elm.left != null) && AllRotatedRight(elm, old(elm.left))
      requires forall m {:trigger SameWeight(m)} ::
          m in nodes && m != elm && m != old(elm.left) && m != old(elm.left.left) ==> SameWeight(m)
      requires old(elm.left).bh == old(elm.bh) && (old(elm.left).color == Black || old(elm.color) == Red)
      ensures forall n {:trigger BalancedAt(n)} ::
          n in nodes && n != elm && n != old(elm.left) && SameWeight(n) && old(BalancedAt(n)) ==> BalancedAt(n)
    {
      var t := old(elm.left);
      assert old(ShapeAt(elm)) && old(ShapeAt(t));
      forall n | n in nodes && n != elm && n != t && SameWeight(n) && old(BalancedAt(n)) ensures BalancedAt(n) {
        assert old(ShapeAt(n)) && RotatedRight(elm, t, n);
        assert n.right == null || n.right == t || SameWeight(n.right);
        assert n.left == null || n.left == t || SameWeight(n.left);
      }
    }


    /** The sibling is red: rotate it above the parent, which gets a black sibling. */
    twostate lemma FixedRedSiblingLeft(parent: Node)
      requires old(RemoveInv(parent, parent.left)) && old(IsBlack(parent.left))
      requires old(parent.right) != null && old(parent.right.color) == Red
      requires Shape() && AllRotatedLeft(parent, old(parent.right))
      requires forall m {:trigger SameWeight(m)} ::
          m in nodes && m != parent && m != old(parent.right) ==> SameWeight(m)
      requires old(parent.right).color == Black && parent.color == Red
      requires old(parent.right).bh == old(parent.right.bh) + 1 && parent.bh == old(parent.bh) - 1
      ensures RemoveInv(parent, parent.left) && parent.left == old(parent.left)
      ensures parent.right != null && parent.right.color == Black
    {
      var elm, t := old(parent.left), old(parent.right);
      assert old(ShapeAt(parent)) && old(ShapeAt(t)) && old(BalancedAt(t));
      assert RotatedLeft(parent, t, parent) && RotatedLeft(parent, t, t);
      assert elm == null || (RotatedLeft(parent, t, elm) && SameWeight(elm) && old(BalancedAt(elm)));
      assert SameWeight(old(t.left)) && SameWeight(old(t.right));
      RotatedLeftBystanders(parent);
      assert elm == null || BalancedAt(elm);
      forall n | n in nodes && n !in {parent, elm} ensures BalancedAt(n) {
        assert n == t || (old(BalancedAt(n)) && SameWeight(n));
      }
      assert root == t || SameWeight(root);
    }

    method FixRedSiblingLeft(parent: Node, elm: Node?) returns (tmp: Node)
      requires RemoveInv(parent, elm) && parent.left == elm && IsBlack(elm)
      requires parent.right != null && parent.right.color == Red
      modifies this`root, nodes`left, nodes`right, nodes`parent, nodes`lo, nodes`hi, nodes`color, nodes`bh
      ensures RemoveInv(parent, elm) && parent.left == elm && IsBlack(elm) && parent.color == Red
      ensures tmp == parent.right && tmp.color == Black
    {
      tmp := parent.right;
      assert ShapeAt(parent) && ShapeAt(tmp) && BalancedAt(tmp);
      tmp.color := Black;
      parent.color := Red;
      tmp.bh := tmp.bh + 1;
      parent.bh := parent.bh - 1;
      label L:
      var t := RotateLeft(parent);
      assert AllRotatedLeft(parent, t) by {
        forall m | m in nodes ensures RotatedLeft(parent, t, m) {
          assert RotatedLeft@L(parent, t, m);
        }
      }
      assert forall m {:trigger SameWeight(m)} :: m in nodes && m != parent && m != t ==> SameWeight(m);
      FixedRedSiblingLeft(parent);
      tmp := parent.right;
    }

    /** Both nephews are black. */
    twostate lemma RecoloredSiblingLeft(parent: Node)
      requires old(RemoveInv(parent, parent.left)) && old(IsBlack(parent.left))
      requires old(parent.right) != null && old(parent.right.color) == Black
      requires old(IsBlack(parent.right.left)) && old(IsBlack(parent.right.right))
      requires old(allocated(nodes)) && nodes == old(nodes) && root == old(root) && Shape()
      requires unchanged(nodes`left) && unchanged(nodes`right) && unchanged(nodes`parent)
      requires unchanged(nodes`pos) && unchanged(nodes`lo) && unchanged(nodes`hi)
      requires forall m {:trigger SameWeight(m)} ::
          m in nodes && m != parent && m != old(parent.right) ==> SameWeight(m)
      requires parent.color == old(parent.color) && parent.bh == old(parent.bh) - 1
      requires old(parent.right).color == Red && old(parent.right).bh == old(parent.right.bh) - 1
      ensures RemoveInv(parent.parent, parent)
    {
      var elm, t, g := parent.left, parent.right, parent.parent;
      assert old(ShapeAt(parent)) && old(ShapeAt(t)) && old(BalancedAt(t));
      assert elm == null || SameWeight(elm);
      assert t.left == null || SameWeight(t.left);
      assert t.right == null || SameWeight(t.right);
      forall n | n in nodes && n !in {parent, g} ensures BalancedAt(n) {
        assert old(ShapeAt(n));
        assert old(BalancedAt(n)) || n == elm;
        assert n == t || SameWeight(n);
        assert n.left == null || SameWeight(n.left);
        assert n.right == null || SameWeight(n.right);
      }
      if g != null {
        assert old(ShapeAt(g)) && old(BalancedAt(g)) && SameWeight(g);
        assert g.left == null || g.left == parent || SameWeight(g.left);
        assert g.right == null || g.right == parent || SameWeight(g.right);
      }
      assert root == null || root == parent || SameWeight(root);
    }

    method FixBlackNephewsLeft(parent: Node, elm: Node?)
      requires RemoveInv(parent, elm) && parent.left == elm && IsBlack(elm)
      requires parent.right != null && parent.right.color == Black
      requires IsBlack(parent.right.left) && IsBlack(parent.right.right)
      modifies nodes`color, nodes`bh
      ensures RemoveInv(parent.parent, parent) && parent.color == old(parent.color)
    {
      var tmp := parent.right;
      assert ShapeAt(parent) && ShapeAt(tmp) && BalancedAt(tmp);
      tmp.color := Red;
      tmp.bh := tmp.bh - 1;
      parent.bh := parent.bh - 1;
      assert forall m {:trigger SameWeight(m)} :: m in nodes && m != parent && m != tmp ==> SameWeight(m);
      RecoloredSiblingLeft(parent);
    }

    /** The nephew on the far side is black, so the near one is red: bring it up. */
    twostate lemma FixedNearNephewLeft(parent: Node)
      requires old(RemoveInv(parent, parent.left)) && old(IsBlack(parent.left))
      requires old(parent.right) != null && old(parent.right.color) == Black
      requires old(parent.right.left) != null && old(parent.right.left.color) == Red && old(IsBlack(parent.right.right))
      requires Shape() && AllRotatedRight(old(parent.right), old(parent.right.left))
      requires forall m {:trigger SameWeight(m)} ::
          m in nodes && m != old(parent.right) && m != old(parent.right.left) ==> SameWeight(m)
      requires old(parent.right).color == Red && old(parent.right.left).color == Black
      requires old(parent.right).bh == old(parent.right.bh) - 1
      requires old(parent.right.left).bh == old(parent.right.left.bh) + 1
      ensures RemoveInv(parent, parent.left) && parent.left == old(parent.left)
      ensures parent.right != null && parent.right.color == Black
      ensures parent.right.right != null && parent.right.right.color == Red
    {
      var elm, t, o := old(parent.left), old(parent.right), old(parent.right.left);
      assert old(ShapeAt(parent)) && old(ShapeAt(t)) && old(ShapeAt(o)) && old(BalancedAt(t)) && old(BalancedAt(o));
      assert RotatedRight(t, o, parent) && RotatedRight(t, o, t) && RotatedRight(t, o, o) && SameWeight(parent);
      assert elm == null || (RotatedRight(t, o, elm) && SameWeight(elm) && old(BalancedAt(elm)));
      assert old(t.right) == null || SameWeight(old(t.right));
      assert old(o.left) == null || SameWeight(old(o.left));
      assert old(o.right) == null || SameWeight(old(o.right));
      RotatedRightBystanders(t);
      assert elm == null || BalancedAt(elm);
      forall n | n in nodes && n !in {parent, elm} ensures BalancedAt(n) {
        assert n == t || n == o || (old(BalancedAt(n)) && SameWeight(n));
      }
      assert root == o || SameWeight(root);
    }

    method FixNearNephewLeft(parent: Node, elm: Node?) returns (tmp: Node)
      requires RemoveInv(parent, elm) && parent.left == elm && IsBlack(elm)
      requires parent.right != null && parent.right.color == Black
      requires !IsBlack(parent.right.left) && IsBlack(parent.right.right)
      modifies this`root, nodes`left, nodes`right, nodes`parent, nodes`lo, nodes`hi, nodes`color, nodes`bh
      ensures RemoveInv(parent, elm) && parent.left == elm && IsBlack(elm)
      ensures tmp == parent.right && tmp.color == Black && !IsBlack(tmp.right)
    {
      tmp := parent.right;
      assert ShapeAt(parent) && ShapeAt(tmp) && BalancedAt(tmp);
      var oleft := tmp.left;
      if oleft != null {
        oleft.color := Black;
      }
      tmp.color := Red;
      oleft.bh := oleft.bh + 1;
      tmp.bh := tmp.bh - 1;
      label L:
      var t := RotateRight(tmp);
      assert AllRotatedRight(tmp, t) by {
        forall m | m in nodes ensures RotatedRight(tmp, t, m) {
          assert RotatedRight@L(tmp, t, m);
        }
      }
      assert forall m {:trigger SameWeight(m)} :: m in nodes && m != tmp && m != t ==> SameWeight(m);
      FixedNearNephewLeft(parent);
      tmp := parent.right;
    }

    /** The nephew on the far side is red: one rotation repairs the tree for good. */
    twostate lemma FixedFarNephewLeft(parent: Node)
      requires old(RemoveInv(parent, parent.left)) && old(IsBlack(parent.left))
      requires old(parent.right) != null && old(parent.right.color) == Black
      requires old(parent.right.right) != null && old(parent.right.right.color) == Red
      requires Shape() && AllRotatedLeft(parent, old(parent.right))
      requires forall m {:trigger SameWeight(m)} ::
          m in nodes && m != parent && m != old(parent.right) && m != old(parent.right.right) ==> SameWeight(m)
      requires old(parent.right).color == old(parent.color) && old(parent.right).bh == old(parent.bh)
      requires parent.color == Black && parent.bh == old(parent.right.bh)
      requires old(parent.right.right).color == Black && old(parent.right.right).bh == old(parent.right.right.bh) + 1
      ensures RemoveInv(null, root) && root != null && root.color == Black
    {
      var elm, t, o := old(parent.left), old(parent.right), old(parent.right.right);
      assert old(ShapeAt(parent)) && old(ShapeAt(t)) && old(ShapeAt(o)) && old(BalancedAt(t)) && old(BalancedAt(o));
      assert RotatedLeft(parent, t, parent) && RotatedLeft(parent, t, t) && RotatedLeft(parent, t, o);
      assert elm == null || (SameWeight(elm) && old(BalancedAt(elm)));
      assert old(t.left) == null || SameWeight(old(t.left));
      assert old(o.left) == null || SameWeight(old(o.left));
      assert old(o.right) == null || SameWeight(old(o.right));
      RotatedLeftBystanders(parent);
      assert elm == null || BalancedAt(elm);
      forall n | n in nodes ensures BalancedAt(n) {
        assert n == t || n == o || n == parent || (old(BalancedAt(n)) && SameWeight(n));
      }
      assert root == t || SameWeight(root);
    }

    /** The recolouring before that rotation. */
    method PaintFarNephewLeft(parent: Node, tmp: Node)
      requires tmp.right != null && tmp != parent && tmp.right != tmp && tmp.right != parent
      modifies parent`color, tmp`color, tmp.right`color, parent`bh, tmp`bh, tmp.right`bh
      ensures tmp.color == old(parent.color) && parent.color == Black && tmp.right.color == Black
      ensures tmp.bh == old(parent.bh) && parent.bh == old(tmp.bh) && tmp.right.bh == old(tmp.right.bh) + 1
    {
      tmp.color := parent.color;
      parent.color := Black;
      if tmp.right != null {
        tmp.right.color := Black;
      }
      tmp.bh, parent.bh, tmp.right.bh := parent.bh, tmp.bh, tmp.right.bh + 1;
    }

    method FixFarNephewLeft(parent: Node, elm: Node?)
      requires RemoveInv(parent, elm) && parent.left == elm && IsBlack(elm)
      requires parent.right != null && parent.right.color == Black && !IsBlack(parent.right.right)
      modifies this`root, nodes`left, nodes`right, nodes`parent, nodes`lo, nodes`hi, nodes`color, nodes`bh
      ensures RemoveInv(null, root) && root != null && root.color == Black
    {
      var tmp := parent.right;
      assert ShapeAt(parent) && ShapeAt(tmp) && BalancedAt(tmp) && ShapeAt(tmp.right);
      PaintFarNephewLeft(parent, tmp);
      label L:
      var t := RotateLeft(parent);
      assert AllRotatedLeft(parent, t) by {
        forall m | m in nodes ensures RotatedLeft(parent, t, m) {
          assert RotatedLeft@L(parent, t, m);
        }
      }
      assert forall m {:trigger SameWeight(m)} ::
          m in nodes && m != parent && m != t && m != old(parent.right.right) ==> SameWeight(m);
      FixedFarNephewLeft(parent);
    }

    /** The sibling is red: rotate it above the parent, which gets a black sibling. */
    twostate lemma FixedRedSiblingRight(parent: Node)
      requires old(RemoveInv(parent, parent.right)) && old(IsBlack(parent.right))
      requires old(parent.left) != null && old(parent.left.color) == Red
      requires Shape() && AllRotatedRight(parent, old(parent.left))
      requires forall m {:trigger SameWeight(m)} ::
          m in nodes && m != parent && m != old(parent.left) ==> SameWeight(m)
      requires old(parent.left).color == Black && parent.color == Red
      requires old(parent.left).bh == old(parent.left.bh) + 1 && parent.bh == old(parent.bh) - 1
      ensures RemoveInv(parent, parent.right) && parent.right == old(parent.right)
      ensures parent.left != null && parent.left.color == Black
    {
      var elm, t := old(parent.right), old(parent.left);
      assert old(ShapeAt(parent)) && old(ShapeAt(t)) && old(BalancedAt(t));
      assert RotatedRight(parent, t, parent) && RotatedRight(parent, t, t);
      assert elm == null || (RotatedRight(parent, t, elm) && SameWeight(elm) && old(BalancedAt(elm)));
      assert SameWeight(old(t.right)) && SameWeight(old(t.left));
      RotatedRightBystanders(parent);
      assert elm == null || BalancedAt(elm);
      forall n | n in nodes && n !in {parent, elm} ensures BalancedAt(n) {
        assert n == t || (old(BalancedAt(n)) && SameWeight(n));
      }
      assert root == t || SameWeight(root);
    }

    method FixRedSiblingRight(parent: Node, elm: Node?) returns (tmp: Node)
      requires RemoveInv(parent, elm) && parent.right == elm && IsBlack(elm)
      requires parent.left != null && parent.left.color == Red
      modifies this`root, nodes`right, nodes`left, nodes`parent, nodes`lo, nodes`hi, nodes`color, nodes`bh
      ensures RemoveInv(parent, elm) && parent.right == elm && IsBlack(elm) && parent.color == Red
      ensures tmp == parent.left && tmp.color == Black
    {
      tmp := parent.left;
      assert ShapeAt(parent) && ShapeAt(tmp) && BalancedAt(tmp);
      tmp.color := Black;
      parent.color := Red;
      tmp.bh := tmp.bh + 1;
      parent.bh := parent.bh - 1;
      label L:
      var t := RotateRight(parent);
      assert AllRotatedRight(parent, t) by {
        forall m | m in nodes ensures RotatedRight(parent, t, m) {
          assert RotatedRight@L(parent, t, m);
        }
      }
      assert forall m {:trigger SameWeight(m)} :: m in nodes && m != parent && m != t ==> SameWeight(m);
      FixedRedSiblingRight(parent);
      tmp := parent.left;
    }

    /** Both nephews are black. */
    twostate lemma RecoloredSiblingRight(parent: Node)
      requires old(RemoveInv(parent, parent.right)) && old(IsBlack(parent.right))
      requires old(parent.left) != null && old(parent.left.color) == Black
      requires old(IsBlack(parent.left.right)) && old(IsBlack(parent.left.left))
      requires old(allocated(nodes)) && nodes == old(nodes) && root == old(root) && Shape()
      requires unchanged(nodes`right) && unchanged(nodes`left) && unchanged(nodes`parent)
      requires unchanged(nodes`pos) && unchanged(nodes`lo) && unchanged(nodes`hi)
      requires forall m {:trigger SameWeight(m)} ::
          m in nodes && m != parent && m != old(parent.left) ==> SameWeight(m)
      requires parent.color == old(parent.color) && parent.bh == old(parent.bh) - 1
      requires old(parent.left).color == Red && old(parent.left).bh == old(parent.left.bh) - 1
      ensures RemoveInv(parent.parent, parent)
    {
      var elm, t, g := parent.right, parent.left, parent.parent;
      assert old(ShapeAt(parent)) && old(ShapeAt(t)) && old(BalancedAt(t));
      assert elm == null || SameWeight(elm);
      assert t.right == null || SameWeight(t.right);
      assert t.left == null || SameWeight(t.left);
      forall n | n in nodes && n !in {parent, g} ensures BalancedAt(n) {
        assert old(ShapeAt(n));
        assert old(BalancedAt(n)) || n == elm;
        assert n == t || SameWeight(n);
        assert n.right == null || SameWeight(n.right);
        assert n.left == null || SameWeight(n.left);
      }
      if g != null {
        assert old(ShapeAt(g)) && old(BalancedAt(g)) && SameWeight(g);
        assert g.right == null || g.right == parent || SameWeight(g.right);
        assert g.left == null || g.left == parent || SameWeight(g.left);
      }
      assert root == null || root == parent || SameWeight(root);
    }

    method FixBlackNephewsRight(parent: Node, elm: Node?)
      requires RemoveInv(parent, elm) && parent.right == elm && IsBlack(elm)
      requires parent.left != null && parent.left.color == Black
      requires IsBlack(parent.left.right) && IsBlack(parent.left.left)
      modifies nodes`color, nodes`bh
      ensures RemoveInv(parent.parent, parent) && parent.color == old(parent.color)
    {
      var tmp := parent.left;
      assert ShapeAt(parent) && ShapeAt(tmp) && BalancedAt(tmp);
      tmp.color := Red;
      tmp.bh := tmp.bh - 1;
      parent.bh := parent.bh - 1;
      assert forall m {:trigger SameWeight(m)} :: m in nodes && m != parent && m != tmp ==> SameWeight(m);
      RecoloredSiblingRight(parent);
    }

    /** The nephew on the far side is black, so the near one is red: bring it up. */
    twostate lemma FixedNearNephewRight(parent: Node)
      requires old(RemoveInv(parent, parent.right)) && old(IsBlack(parent.right))
      requires old(parent.left) != null && old(parent.left.color) == Black
      requires old(parent.left.right) != null && old(parent.left.right.color) == Red && old(IsBlack(parent.left.left))
      requires Shape() && AllRotatedLeft(old(parent.left), old(parent.left.right))
      requires forall m {:trigger SameWeight(m)} ::
          m in nodes && m != old(parent.left) && m != old(parent.left.right) ==> SameWeight(m)
      requires old(parent.left).color == Red && old(parent.left.right).color == Black
      requires old(parent.left).bh == old(parent.left.bh) - 1
      requires old(parent.left.right).bh == old(parent.left.right.bh) + 1
      ensures RemoveInv(parent, parent.right) && parent.right == old(parent.right)
      ensures parent.left != null && parent.left.color == Black
      ensures parent.left.left != null && parent.left.left.color == Red
    {
      var elm, t, o := old(parent.right), old(parent.left), old(parent.left.right);
      assert old(ShapeAt(parent)) && old(ShapeAt(t)) && old(ShapeAt(o)) && old(BalancedAt(t)) && old(BalancedAt(o));
      assert RotatedLeft(t, o, parent) && RotatedLeft(t, o, t) && RotatedLeft(t, o, o) && SameWeight(parent);
      assert elm == null || (RotatedLeft(t, o, elm) && SameWeight(elm) && old(BalancedAt(elm)));
      assert old(t.left) == null || SameWeight(old(t.left));
      assert old(o.right) == null || SameWeight(old(o.right));
      assert old(o.left) == null || SameWeight(old(o.left));
      RotatedLeftBystanders(t);
      assert elm == null || BalancedAt(elm);
      forall n | n in nodes && n !in {parent, elm} ensures BalancedAt(n) {
        assert n == t || n == o || (old(BalancedAt(n)) && SameWeight(n));
      }
      assert root == o || SameWeight(root);
    }

    method FixNearNephewRight(parent: Node, elm: Node?) returns (tmp: Node)
      requires RemoveInv(parent, elm) && parent.right == elm && IsBlack(elm)
      requires parent.left != null && parent.left.color == Black
      requires !IsBlack(parent.left.right) && IsBlack(parent.left.left)
      modifies this`root, nodes`right, nodes`left, nodes`parent, nodes`lo, nodes`hi, nodes`color, nodes`bh
      ensures RemoveInv(parent, elm) && parent.right == elm && IsBlack(elm)
      ensures tmp == parent.left && tmp.color == Black && !IsBlack(tmp.left)
    {
      tmp := parent.left;
      assert ShapeAt(parent) && ShapeAt(tmp) && BalancedAt(tmp);
      var oright := tmp.right;
      if oright != null {
        oright.color := Black;
      }
      tmp.color := Red;
      oright.bh := oright.bh + 1;
      tmp.bh := tmp.bh - 1;
      label L:
      var t := RotateLeft(tmp);
      assert AllRotatedLeft(tmp, t) by {
        forall m | m in nodes ensures RotatedLeft(tmp, t, m) {
          assert RotatedLeft@L(tmp, t, m);
        }
      }
      assert forall m {:trigger SameWeight(m)} :: m in nodes && m != tmp && m != t ==> SameWeight(m);
      FixedNearNephewRight(parent);
      tmp := parent.left;
    }

    /** The nephew on the far side is red: one rotation repairs the tree for good. */
    twostate lemma FixedFarNephewRight(parent: Node)
      requires old(RemoveInv(parent, parent.right)) && old(IsBlack(parent.right))
      requires old(parent.left) != null && old(parent.left.color) == Black
      requires old(parent.left.left) != null && old(parent.left.left.color) == Red
      requires Shape() && AllRotatedRight(parent, old(parent.left))
      requires forall m {:trigger SameWeight(m)} ::
          m in nodes && m != parent && m != old(parent.left) && m != old(parent.left.left) ==> SameWeight(m)
      requires old(parent.left).color == old(parent.color) && old(parent.left).bh == old(parent.bh)
      requires parent.color == Black && parent.bh == old(parent.left.bh)
      requires old(parent.left.left).color == Black && old(parent.left.left).bh == old(parent.left.left.bh) + 1
      ensures RemoveInv(null, root) && root != null && root.color == Black
    {
      var elm, t, o := old(parent.right), old(parent.left), old(parent.left.left);
      assert old(ShapeAt(parent)) && old(ShapeAt(t)) && old(ShapeAt(o)) && old(BalancedAt(t)) && old(BalancedAt(o));
      assert RotatedRight(parent, t, parent) && RotatedRight(parent, t, t) && RotatedRight(parent, t, o);
      assert elm == null || (SameWeight(elm) && old(BalancedAt(elm)));
      assert old(t.right) == null || SameWeight(old(t.right));
      assert old(o.right) == null || SameWeight(old(o.right));
      assert old(o.left) == null || SameWeight(old(o.left));
      RotatedRightBystanders(parent);
      assert elm == null || BalancedAt(elm);
      forall n | n in nodes ensures BalancedAt(n) {
        assert n == t || n == o || n == parent || (old(BalancedAt(n)) && SameWeight(n));
      }
      assert root == t || SameWeight(root);
    }

    /** The recolouring before that rotation. */
    method PaintFarNephewRight(parent: Node, tmp: Node)
      requires tmp.left != null && tmp != parent && tmp.left != tmp && tmp.left != parent
      modifies parent`color, tmp`color, tmp.left`color, parent`bh, tmp`bh, tmp.left`bh
      ensures tmp.color == old(parent.color) && parent.color == Black && tmp.left.color == Black
      ensures tmp.bh == old(parent.bh) && parent.bh == old(tmp.bh) && tmp.left.bh == old(tmp.left.bh) + 1
    {
      tmp.color := parent.color;
      parent.color := Black;
      if tmp.left != null {
        tmp.left.color := Black;
      }
      tmp.bh, parent.bh, tmp.left.bh := parent.bh, tmp.bh, tmp.left.bh + 1;
    }

    method FixFarNephewRight(parent: Node, elm: Node?)
      requires RemoveInv(parent, elm) && parent.right == elm && IsBlack(elm)
      requires parent.left != null && parent.left.color == Black && !IsBlack(parent.left.left)
      modifies this`root, nodes`right, nodes`left, nodes`parent, nodes`lo, nodes`hi, nodes`color, nodes`bh
      ensures RemoveInv(null, root) && root != null && root.color == Black
    {
      var tmp := parent.left;
      assert ShapeAt(parent) && ShapeAt(tmp) && BalancedAt(tmp) && ShapeAt(tmp.left);
      PaintFarNephewRight(parent, tmp);
      label L:
      var t := RotateRight(parent);
      assert AllRotatedRight(parent, t) by {
        forall m | m in nodes ensures RotatedRight(parent, t, m) {
          assert RotatedRight@L(parent, t, m);
        }
      }
      assert forall m {:trigger SameWeight(m)} ::
          m in nodes && m != parent && m != t && m != old(parent.left.left) ==> SameWeight(m);
      FixedFarNephewRight(parent);
    }

    /** The uncle is red: recolour and move the violation two levels up. */
    /** The parent of `elm`, the uncle and the grandparent have their new colours, and all else is as it was. */
    twostate predicate UncleRecoloredLeft(elm: Node)
      requires elm in nodes
      reads this, nodes
    {
      && old(InsertInv(elm)) && old(elm.parent != null && elm.parent.color == Red)
      && old(elm.parent.parent != null && elm.parent.parent in nodes)
      && old(elm.parent.parent.left == elm.parent && !IsBlack(elm.parent.parent.right))
      && nodes == old(nodes) && root == old(root) && Shape()
      && unchanged(nodes`left) && unchanged(nodes`right) && unchanged(nodes`parent)
      && unchanged(nodes`pos) && unchanged(nodes`lo) && unchanged(nodes`hi)
      && var p, g := old(elm.parent), old(elm.parent.parent);
      && p in nodes && g in nodes && g.right != null && g.right in nodes
      && (forall m {:trigger SameWeight(m)} :: m in nodes && m !in {p, g, g.right} ==> SameWeight(m))
      && p.color == Black && p.bh == old(elm.parent.bh) + 1
      && g.color == Red && g.bh == old(elm.parent.parent.bh)
      && g.right.color == Black && g.right.bh == old(elm.parent.parent.right.bh) + 1
    }

    twostate lemma UncleBystandersLeft(elm: Node)
      requires elm in nodes && UncleRecoloredLeft(elm)
      ensures var p, g := elm.parent, elm.parent.parent;
        forall n {:trigger BalancedAt(n)} :: n in nodes && n !in {p, g, g.right, g.parent} ==> BalancedAt(n)
    {
      var p, g := elm.parent, elm.parent.parent;
      var u, gg := g.right, g.parent;
      assert old(ShapeAt(p)) && old(ShapeAt(g)) && old(ShapeAt(u));
      forall n | n in nodes && n != p && n != g && n != u && n != gg ensures BalancedAt(n) {
        assert old(ShapeAt(n)) && old(BalancedAt(n)) && SameWeight(n);
        assert n.left == null || SameWeight(n.left);
        assert n.right == null || SameWeight(n.right);
      }
    }

    twostate lemma RecoloredUncleLeft(elm: Node)
      requires elm in nodes && UncleRecoloredLeft(elm)
      ensures InsertInv(elm.parent.parent)
    {
      var p, g := elm.parent, elm.parent.parent;
      var u, gg := g.right, g.parent;
      assert old(ShapeAt(elm)) && old(ShapeAt(p)) && old(ShapeAt(g)) && old(ShapeAt(u));
      assert old(BalancedAt(g)) && old(BalancedAt(u)) && SameWeight(elm);
      assert p.right == null || SameWeight(p.right);
      assert p.left == null || SameWeight(p.left);
      assert u.left == null || SameWeight(u.left);
      assert u.right == null || SameWeight(u.right);
      assert gg == null || (old(ShapeAt(gg)) && old(BalancedAt(gg)) && SameWeight(gg));
      UncleBystandersLeft(elm);
      if gg != null {
        assert gg.left == null || gg.left == g || SameWeight(gg.left);
        assert gg.right == null || gg.right == g || SameWeight(gg.right);
      }
      assert BalancedAt(p) && BalancedAt(g) && BalancedAt(u);
      assert root in {p, g, u} || SameWeight(root);
    }

    method InsertRedUncleLeft(elm: Node, parent: Node, gparent: Node)
      requires InsertInv(elm) && parent == elm.parent && parent.color == Red
      requires gparent == parent.parent && parent == gparent.left && !IsBlack(gparent.right)
      modifies nodes`color, nodes`bh
      ensures InsertInv(gparent)
    {
      assert ShapeAt(elm) && ShapeAt(parent) && ShapeAt(gparent);
      var tmp := gparent.right;
      tmp.color := Black;
      parent.color := Black;
      gparent.color := Red;
      tmp.bh := tmp.bh + 1;
      parent.bh := parent.bh + 1;
      assert forall m {:trigger SameWeight(m)} :: m in nodes && m !in {parent, gparent, tmp} ==> SameWeight(m);
      RecoloredUncleLeft(elm);
    }

    /** `elm` is the inner grandchild: rotate it outwards. */
    twostate lemma StraightenedLeft(elm: Node)
      requires old(InsertInv(elm)) && old(elm.parent != null && elm.parent.color == Red && elm.parent.right == elm)
      requires Shape() && AllRotatedLeft(old(elm.parent), elm)
      requires forall m {:trigger SameWeight(m)} :: m in nodes ==> SameWeight(m)
      ensures InsertInv(old(elm.parent)) && old(elm.parent).parent == elm && elm.left == old(elm.parent)
      ensures elm.color == Red && elm.parent == old(elm.parent.parent)
    {
      var p, gg := old(elm.parent), old(elm.parent.parent);
      assert old(ShapeAt(elm)) && old(ShapeAt(p)) && old(BalancedAt(elm));
      assert RotatedLeft(p, elm, p) && RotatedLeft(p, elm, elm) && SameWeight(p) && SameWeight(elm);
      assert p.left == null || SameWeight(p.left);
      assert p.right == null || SameWeight(p.right);
      assert elm.right == null || SameWeight(elm.right);
      RotatedLeftBystanders(p);
      forall n | n in nodes && n != elm ensures BalancedAt(n) {
        assert n == p || (old(BalancedAt(n)) && SameWeight(n));
      }
      assert SameWeight(root);
    }

    method InsertStraightenLeft(elm: Node, parent: Node)
      requires InsertInv(elm) && parent == elm.parent && parent.color == Red && parent.right == elm
      modifies this`root, nodes`left, nodes`right, nodes`parent, nodes`lo, nodes`hi
      ensures InsertInv(parent) && parent.parent == elm && elm.left == parent
      ensures elm.color == Red && elm.parent == old(parent.parent)
      ensures elm.parent != null ==>
        elm.parent in nodes && IsBlack(elm.parent.right) == old(IsBlack(parent.parent.right))
    {
      assert ShapeAt(elm) && ShapeAt(parent);
      assert parent.parent == null || ShapeAt(parent.parent);
      var tmp := RotateLeft(parent);
      assert parent.parent == null || RotatedLeft(parent, tmp, old(parent.parent));
      StraightenedLeft(elm);
    }

    /** `elm` is the outer grandchild and the uncle is black: one rotation ends the repair. */
    twostate lemma LiftedParentLeft(elm: Node)
      requires old(InsertInv(elm)) && old(elm.parent != null && elm.parent.color == Red && elm.parent.left == elm)
      requires old(elm.parent.parent != null && elm.parent.parent in nodes)
      requires old(elm.parent.parent.left == elm.parent && IsBlack(elm.parent.parent.right))
      requires Shape() && AllRotatedRight(old(elm.parent.parent), old(elm.parent))
      requires forall m {:trigger SameWeight(m)} ::
          m in nodes && m != old(elm.parent) && m != old(elm.parent.parent) ==> SameWeight(m)
      requires old(elm.parent).color == Black && old(elm.parent.parent).color == Red
      requires old(elm.parent).bh == old(elm.parent.parent.bh)
      requires old(elm.parent.parent).bh == old(elm.parent.parent.bh) - 1
      ensures InsertInv(elm) && elm.parent != null && elm.parent.color == Black
    {
      var p, g := old(elm.parent), old(elm.parent.parent);
      assert old(ShapeAt(elm)) && old(ShapeAt(p)) && old(ShapeAt(g)) && old(BalancedAt(g));
      assert RotatedRight(g, p, p) && RotatedRight(g, p, elm) && RotatedRight(g, p, g) && SameWeight(elm);
      assert old(p.right) == null || SameWeight(old(p.right));
      assert old(g.right) == null || SameWeight(old(g.right));
      RotatedRightBystanders(g);
      forall n | n in nodes && n != p ensures BalancedAt(n) {
        assert n == g || (old(BalancedAt(n)) && SameWeight(n));
      }
      assert root == p || SameWeight(root);
    }

    method InsertLiftParentLeft(elm: Node, parent: Node, gparent: Node)
      requires InsertInv(elm) && parent == elm.parent && parent.color == Red && parent.left == elm
      requires gparent == parent.parent && gparent in nodes && parent == gparent.left && IsBlack(gparent.right)
      modifies this`root, nodes`left, nodes`right, nodes`parent, nodes`lo, nodes`hi, nodes`color, nodes`bh
      ensures InsertInv(elm) && elm.parent != null && elm.parent.color == Black
    {
      assert ShapeAt(elm) && ShapeAt(parent) && ShapeAt(gparent) && BalancedAt(gparent);
      parent.color := Black;
      gparent.color := Red;
      parent.bh, gparent.bh := gparent.bh, gparent.bh - 1;
      label L:
      var tmp := RotateRight(gparent);
      assert AllRotatedRight(gparent, parent) by {
        forall m | m in nodes ensures RotatedRight(gparent, parent, m) {
          assert RotatedRight@L(gparent, parent, m);
        }
      }
      assert forall m {:trigger SameWeight(m)} :: m in nodes && m != parent && m != gparent ==> SameWeight(m);
      LiftedParentLeft(elm);
    }

    /** The uncle is red: recolour and move the violation two levels up. */
    /** The parent of `elm`, the uncle and the grandparent have their new colours, and all else is as it was. */
    twostate predicate UncleRecoloredRight(elm: Node)
      requires elm in nodes
      reads this, nodes
    {
      && old(InsertInv(elm)) && old(elm.parent != null && elm.parent.color == Red)
      && old(elm.parent.parent != null && elm.parent.parent in nodes)
      && old(elm.parent.parent.right == elm.parent && !IsBlack(elm.parent.parent.left))
      && nodes == old(nodes) && root == old(root) && Shape()
      && unchanged(nodes`right) && unchanged(nodes`left) && unchanged(nodes`parent)
      && unchanged(nodes`pos) && unchanged(nodes`lo) && unchanged(nodes`hi)
      && var p, g := old(elm.parent), old(elm.parent.parent);
      && p in nodes && g in nodes && g.left != null && g.left in nodes
      && (forall m {:trigger SameWeight(m)} :: m in nodes && m !in {p, g, g.left} ==> SameWeight(m))
      && p.color == Black && p.bh == old(elm.parent.bh) + 1
      && g.color == Red && g.bh == old(elm.parent.parent.bh)
      && g.left.color == Black && g.left.bh == old(elm.parent.parent.left.bh) + 1
    }

    twostate lemma UncleBystandersRight(elm: Node)
      requires elm in nodes && UncleRecoloredRight(elm)
      ensures var p, g := elm.parent, elm.parent.parent;
        forall n {:trigger BalancedAt(n)} :: n in nodes && n !in {p, g, g.left, g.parent} ==> BalancedAt(n)
    {
      var p, g := elm.parent, elm.parent.parent;
      var u, gg := g.left, g.parent;
      assert old(ShapeAt(p)) && old(ShapeAt(g)) && old(ShapeAt(u));
      forall n | n in nodes && n != p && n != g && n != u && n != gg ensures BalancedAt(n) {
        assert old(ShapeAt(n)) && old(BalancedAt(n)) && SameWeight(n);
        assert n.right == null || SameWeight(n.right);
        assert n.left == null || SameWeight(n.left);
      }
    }

    twostate lemma RecoloredUncleRight(elm: Node)
      requires elm in nodes && UncleRecoloredRight(elm)
      ensures InsertInv(elm.parent.parent)
    {
      var p, g := elm.parent, elm.parent.parent;
      var u, gg := g.left, g.parent;
      assert old(ShapeAt(elm)) && old(ShapeAt(p)) && old(ShapeAt(g)) && old(ShapeAt(u));
      assert old(BalancedAt(g)) && old(BalancedAt(u)) && SameWeight(elm);
      assert p.left == null || SameWeight(p.left);
      assert p.right == null || SameWeight(p.right);
      assert u.right == null || SameWeight(u.right);
      assert u.left == null || SameWeight(u.left);
      assert gg == null || (old(ShapeAt(gg)) && old(BalancedAt(gg)) && SameWeight(gg));
      UncleBystandersRight(elm);
      if gg != null {
        assert gg.right == null || gg.right == g || SameWeight(gg.right);
        assert gg.left == null || gg.left == g || SameWeight(gg.left);
      }
      assert BalancedAt(p) && BalancedAt(g) && BalancedAt(u);
      assert root in {p, g, u} || SameWeight(root);
    }

    method InsertRedUncleRight(elm: Node, parent: Node, gparent: Node)
      requires InsertInv(elm) && parent == elm.parent && parent.color == Red
      requires gparent == parent.parent && parent == gparent.right && !IsBlack(gparent.left)
      modifies nodes`color, nodes`bh
      ensures InsertInv(gparent)
    {
      assert ShapeAt(elm) && ShapeAt(parent) && ShapeAt(gparent);
      var tmp := gparent.left;
      tmp.color := Black;
      parent.color := Black;
      gparent.color := Red;
      tmp.bh := tmp.bh + 1;
      parent.bh := parent.bh + 1;
      assert forall m {:trigger SameWeight(m)} :: m in nodes && m !in {parent, gparent, tmp} ==> SameWeight(m);
      RecoloredUncleRight(elm);
    }

    /** `elm` is the inner grandchild: rotate it outwards. */
    twostate lemma StraightenedRight(elm: Node)
      requires old(InsertInv(elm)) && old(elm.parent != null && elm.parent.color == Red && elm.parent.left == elm)
      requires Shape() && AllRotatedRight(old(elm.parent), elm)
      requires forall m {:trigger SameWeight(m)} :: m in nodes ==> SameWeight(m)
      ensures InsertInv(old(elm.parent)) && old(elm.parent).parent == elm && elm.right == old(elm.parent)
      ensures elm.color == Red && elm.parent == old(elm.parent.parent)
    {
      var p, gg := old(elm.parent), old(elm.parent.parent);
      assert old(ShapeAt(elm)) && old(ShapeAt(p)) && old(BalancedAt(elm));
      assert RotatedRight(p, elm, p) && RotatedRight(p, elm, elm) && SameWeight(p) && SameWeight(elm);
      assert p.right == null || SameWeight(p.right);
      assert p.left == null || SameWeight(p.left);
      assert elm.left == null || SameWeight(elm.left);
      RotatedRightBystanders(p);
      forall n | n in nodes && n != elm ensures BalancedAt(n) {
        assert n == p || (old(BalancedAt(n)) && SameWeight(n));
      }
      assert SameWeight(root);
    }

    method InsertStraightenRight(elm: Node, parent: Node)
      requires InsertInv(elm) && parent == elm.parent && parent.color == Red && parent.left == elm
      modifies this`root, nodes`right, nodes`left, nodes`parent, nodes`lo, nodes`hi
      ensures InsertInv(parent) && parent.parent == elm && elm.right == parent
      ensures elm.color == Red && elm.parent == old(parent.parent)
      ensures elm.parent != null ==> elm.parent in nodes && IsBlack(elm.parent.left) == old(IsBlack(parent.parent.left))
    {
      assert ShapeAt(elm) && ShapeAt(parent);
      assert parent.parent == null || ShapeAt(parent.parent);
      var tmp := RotateRight(parent);
      assert parent.parent == null || RotatedRight(parent, tmp, old(parent.parent));
      StraightenedRight(elm);
    }

    /** `elm` is the outer grandchild and the uncle is black: one rotation ends the repair. */
    twostate lemma LiftedParentRight(elm: Node)
      requires old(InsertInv(elm)) && old(elm.parent != null && elm.parent.color == Red && elm.parent.right == elm)
      requires old(elm.parent.parent != null && elm.parent.parent in nodes)
      requires old(elm.parent.parent.right == elm.parent && IsBlack(elm.parent.parent.left))
      requires Shape() && AllRotatedLeft(old(elm.parent.parent), old(elm.parent))
      requires forall m {:trigger SameWeight(m)} ::
          m in nodes && m != old(elm.parent) && m != old(elm.parent.parent) ==> SameWeight(m)
      requires old(elm.parent).color == Black && old(elm.parent.parent).color == Red
      requires old(elm.parent).bh == old(elm.parent.parent.bh)
      requires old(elm.parent.parent).bh == old(elm.parent.parent.bh) - 1
      ensures InsertInv(elm) && elm.parent != null && elm.parent.color == Black
    {
      var p, g := old(elm.parent), old(elm.parent.parent);
      assert old(ShapeAt(elm)) && old(ShapeAt(p)) && old(ShapeAt(g)) && old(BalancedAt(g));
      assert RotatedLeft(g, p, p) && RotatedLeft(g, p, elm) && RotatedLeft(g, p, g) && SameWeight(elm);
      assert old(p.left) == null || SameWeight(old(p.left));
      assert old(g.left) == null || SameWeight(old(g.left));
      RotatedLeftBystanders(g);
      forall n | n in nodes && n != p ensures BalancedAt(n) {
        assert n == g || (old(BalancedAt(n)) && SameWeight(n));
      }
      assert root == p || SameWeight(root);
    }

    method InsertLiftParentRight(elm: Node, parent: Node, gparent: Node)
      requires InsertInv(elm) && parent == elm.parent && parent.color == Red && parent.right == elm
      requires gparent == parent.parent && gparent in nodes && parent == gparent.right && IsBlack(gparent.left)
      modifies this`root, nodes`right, nodes`left, nodes`parent, nodes`lo, nodes`hi, nodes`color, nodes`bh
      ensures InsertInv(elm) && elm.parent != null && elm.parent.color == Black
    {
      assert ShapeAt(elm) && ShapeAt(parent) && ShapeAt(gparent) && BalancedAt(gparent);
      parent.color := Black;
      gparent.color := Red;
      parent.bh, gparent.bh := gparent.bh, gparent.bh - 1;
      label L:
      var tmp := RotateLeft(gparent);
      assert AllRotatedLeft(gparent, parent) by {
        forall m | m in nodes ensures RotatedLeft(gparent, parent, m) {
          assert RotatedLeft@L(gparent, parent, m);
        }
      }
      assert forall m {:trigger SameWeight(m)} :: m in nodes && m != parent && m != gparent ==> SameWeight(m);
      LiftedParentRight(elm);
    }

    method RemoveColorStepLeft(parent0: Node, elm0: Node?) returns (parent: Node?, elm: Node?)
      requires RemoveInv(parent0, elm0) && IsBlack(elm0) && parent0.left == elm0
      modifies this`root, nodes`left, nodes`right, nodes`parent, nodes`lo, nodes`hi, nodes`color, nodes`bh
      ensures RemoveInv(parent, elm)
      ensures !IsBlack(elm) || elm == root || (parent != null && parent.hi - parent.lo > old(parent0.hi - parent0.lo))
    {
      parent, elm := parent0, elm0;
      assert ShapeAt(parent);
      var tmp := parent.right;
      if tmp.color == Red {
        tmp := FixRedSiblingLeft(parent, elm);
      }
      assert ShapeAt(parent) && ShapeAt(tmp);
      if IsBlack(tmp.left) && IsBlack(tmp.right) {
        assert parent.parent == null || ShapeAt(parent.parent);
        FixBlackNephewsLeft(parent, elm);
        elm := parent;
        parent := elm.parent;
      } else {
        if IsBlack(tmp.right) {
          tmp := FixNearNephewLeft(parent, elm);
        }
        FixFarNephewLeft(parent, elm);
        parent, elm := null, root;
      }
    }

    method RemoveColorStepRight(parent0: Node, elm0: Node?) returns (parent: Node?, elm: Node?)
      requires RemoveInv(parent0, elm0) && IsBlack(elm0) && parent0.right == elm0
      modifies this`root, nodes`right, nodes`left, nodes`parent, nodes`lo, nodes`hi, nodes`color, nodes`bh
      ensures RemoveInv(parent, elm)
      ensures !IsBlack(elm) || elm == root || (parent != null && parent.hi - parent.lo > old(parent0.hi - parent0.lo))
    {
      parent, elm := parent0, elm0;
      assert ShapeAt(parent);
      var tmp := parent.left;
      if tmp.color == Red {
        tmp := FixRedSiblingRight(parent, elm);
      }
      assert ShapeAt(parent) && ShapeAt(tmp);
      if IsBlack(tmp.right) && IsBlack(tmp.left) {
        assert parent.parent == null || ShapeAt(parent.parent);
        FixBlackNephewsRight(parent, elm);
        elm := parent;
        parent := elm.parent;
      } else {
        if IsBlack(tmp.left) {
          tmp := FixNearNephewRight(parent, elm);
        }
        FixFarNephewRight(parent, elm);
        parent, elm := null, root;
      }
    }

    method InsertColorStepLeft(elm0: Node, parent0: Node, gparent: Node) returns (elm: Node)
      requires InsertInv(elm0) && parent0 == elm0.parent && parent0.color == Red
      requires gparent == parent0.parent && gparent.left == parent0
      modifies this`root, nodes`left, nodes`right, nodes`parent, nodes`lo, nodes`hi, nodes`color, nodes`bh
      ensures InsertInv(elm)
      ensures IsBlack(elm.parent) || elm.hi - elm.lo > old(elm0.hi - elm0.lo)
    {
      var parent;
      elm, parent := elm0, parent0;
      assert ShapeAt(elm) && ShapeAt(parent) && ShapeAt(gparent);
      var tmp := gparent.right;
      if tmp != null && tmp.color == Red {
        InsertRedUncleLeft(elm, parent, gparent);
        elm := gparent;
        return;
      }
      if parent.right == elm {
        InsertStraightenLeft(elm, parent);
        parent, elm := elm, parent;
        assert ShapeAt(parent);
      }
      InsertLiftParentLeft(elm, parent, gparent);
    }

    method InsertColorStepRight(elm0: Node, parent0: Node, gparent: Node) returns (elm: Node)
      requires InsertInv(elm0) && parent0 == elm0.parent && parent0.color == Red
      requires gparent == parent0.parent && gparent.right == parent0
      modifies this`root, nodes`right, nodes`left, nodes`parent, nodes`lo, nodes`hi, nodes`color, nodes`bh
      ensures InsertInv(elm)
      ensures IsBlack(elm.parent) || elm.hi - elm.lo > old(elm0.hi - elm0.lo)
    {
      var parent;
      elm, parent := elm0, parent0;
      assert ShapeAt(elm) && ShapeAt(parent) && ShapeAt(gparent);
      var tmp := gparent.left;
      if tmp != null && tmp.color == Red {
        InsertRedUncleRight(elm, parent, gparent);
        elm := gparent;
        return;
      }
      if parent.left == elm {
        InsertStraightenRight(elm, parent);
        parent, elm := elm, parent;
        assert ShapeAt(parent);
      }
      InsertLiftParentRight(elm, parent, gparent);
    }

    method RemoveColor(parent0: Node?, elm0: Node?)
      requires RemoveInv(parent0, elm0)
      modifies this`root, nodes`left, nodes`right, nodes`parent, nodes`lo, nodes`hi, nodes`color, nodes`bh
      ensures RedBlack()
    {
      var parent, elm := parent0, elm0;
      while IsBlack(elm) && elm != root
        invariant RemoveInv(parent, elm)
        decreases if IsBlack(elm) && elm != root then 1 else 0,
                  |order| - (if parent == null then 0 else parent.hi - parent.lo)
      {
        assert ShapeAt(parent);
        if parent.left == elm {
          parent, elm := RemoveColorStepLeft(parent, elm);
        } else {
          parent, elm := RemoveColorStepRight(parent, elm);
        }
        assert parent == null || ShapeAt(parent);
      }
      PaintBlack(parent, elm);
    }

    method Blacken(n: Node)
      modifies n`color, n`bh
      ensures n.color == Black && n.bh == old(n.bh) + 1 - Cost(old(n.color))
    {
      n.bh := n.bh + 1 - Cost(n.color);
      n.color := Black;
    }

    method PaintBlack(ghost parent: Node?, elm: Node?)
      requires RemoveInv(parent, elm) && (!IsBlack(elm) || elm == root)
      modifies nodes`color, nodes`bh
      ensures RedBlack()
    {
      if elm != null {
        Blacken(elm);
      }
      assert parent == null || old(ShapeAt(parent));
      assert elm == null || old(ShapeAt(elm));
      forall n | n in nodes && n != elm && n != parent ensures BalancedAt(n) {
        assert old(ShapeAt(n)) && old(BalancedAt(n));
      }
    }

    method InsertColor(elm0: Node)
      requires InsertInv(elm0)
      modifies this`root, nodes`left, nodes`right, nodes`parent, nodes`lo, nodes`hi, nodes`color, nodes`bh
      ensures RedBlack()
    {
      var elm: Node := elm0;
      while elm.parent != null && elm.parent.color == Red
        invariant InsertInv(elm)
        decreases if IsBlack(elm.parent) then 0 else 1, |order| - (elm.hi - elm.lo)
      {
        var parent: Node := elm.parent;
        assert ShapeAt(elm) && ShapeAt(parent);
        var gparent: Node := parent.parent;
        if parent == gparent.left {
          elm := InsertColorStepLeft(elm, parent, gparent);
        } else {
          assert ShapeAt(gparent);
          elm := InsertColorStepRight(elm, parent, gparent);
        }
        assert ShapeAt(elm);
      }
      assert ShapeAt(elm) && root != null;
      PaintRoot(elm);
    }

    method PaintRoot(ghost elm: Node)
      requires InsertInv(elm) && IsBlack(elm.parent) && root != null
      modifies nodes`color, nodes`bh
      ensures RedBlack()
    {
      RootRepaired(elm);
      Blacken(root);
      assert Shape();
      forall n | n in nodes ensures BalancedAt(n) {
        assert old(ShapeAt(n)) && old(HeightAt(n)) && (n != root ==> old(BalancedAt(n)));
      }
    }

    /** Nowhere but at the root is there anything left to repair. */
    lemma RootRepaired(elm: Node)
      requires InsertInv(elm) && IsBlack(elm.parent) && root != null
      ensures root in nodes && HeightAt(root)
      ensures forall n :: n in nodes && n != root ==> BalancedAt(n)
    {
      assert ShapeAt(elm) && BalancedAt(elm);
      var p := elm.parent;
      assert p == null || (ShapeAt(p) && BalancedAt(p));
      assert root == p || BalancedAt(root);
    }

    /** What taking `elm`, whose only possible child is `child`, out of the tree does to every other node `m`. */
    twostate predicate Unlinked(elm: Node, child: Node?, m: Node)
      reads m`left, m`right, m`parent, m`pos, m`lo, m`hi
    {
      && m.left == (if old(m.left) == elm then child else old(m.left))
      && m.right == (if old(m.right) == elm then child else old(m.right))
      && m.parent == (if m == child then old(elm.parent) else old(m.parent))
      && m.pos == Drop(old(elm.pos), old(m.pos))
      && m.lo == Drop(old(elm.pos), old(m.lo)) && m.hi == Drop(old(elm.pos), old(m.hi))
    }

    twostate predicate AllUnlinked(elm: Node)
      requires old(elm in nodes)
      reads this, nodes`left, nodes`right, nodes`parent, nodes`pos, nodes`lo, nodes`hi
    {
      && old(elm.left == null || elm.right == null)
      && nodes == old(nodes) - {elm}
      && 0 <= old(elm.pos) < |old(order)|
      && order == RemoveAt(old(order), old(elm.pos))
      && root == (if old(root) == elm then old(OnlyChild(elm)) else old(root))
      && forall m {:trigger Unlinked(elm, old(OnlyChild(elm)), m)} ::
           m in nodes ==> Unlinked(elm, old(OnlyChild(elm)), m)
    }

    twostate lemma UnlinkedShape(elm: Node)
      requires old(Shape()) && old(elm in nodes) && AllUnlinked(elm)
      ensures Shape()
    {
      var c := old(OnlyChild(elm));
      assert old(ShapeAt(elm));
      assert c == null || (old(ShapeAt(c)) && Unlinked(elm, c, c));
      assert old(elm.parent) == null || Unlinked(elm, c, old(elm.parent));
      assert old(root) == elm || Unlinked(elm, c, old(root));
      forall n | n in nodes ensures ShapeAt(n) {
        assert old(ShapeAt(n)) && Unlinked(elm, c, n);
        assert old(n.left) == null || old(n.left) == elm || Unlinked(elm, c, old(n.left));
        assert old(n.right) == null || old(n.right) == elm || Unlinked(elm, c, old(n.right));
        assert old(n.parent) == null || old(n.parent) == elm || Unlinked(elm, c, old(n.parent));
      }
      assert root == null || ShapeAt(root);
      forall i | 0 <= i < |order| ensures order[i] in nodes && order[i].pos == i {
        var j := if i < old(elm.pos) then i else i + 1;
        assert order[i] == old(order)[j] && old(order[j].pos) == j;
        assert Unlinked(elm, c, order[i]);
      }
    }

    /** The pointer writes that bypass `elm`. */
    method Bypass(elm: Node, child: Node?, parent: Node?)
      requires parent == elm.parent && child == OnlyChild(elm)
      requires elm != child && elm != parent && (child == null || child != parent)
      modifies this`root, (if child == null then {} else {child})`parent
      modifies (if parent == null then {} else {parent})`left, (if parent == null then {} else {parent})`right
      ensures child != null ==> child.parent == parent
      ensures root == if parent == null then child else old(root)
      ensures parent != null ==>
          && parent.left == (if old(parent.left) == elm then child else old(parent.left))
          && parent.right == (if old(parent.left) == elm then old(parent.right) else child)
    {
      if child != null {
        child.parent := parent;
      }
      if parent != null {
        if parent.left == elm {
          parent.left := child;
        } else {
          parent.right := child;
        }
      } else {
        root := child;
      }
    }

    /** Takes out a node that has at most one child. */
    method Unlink(elm: Node) returns (child: Node?, parent: Node?, color: Color)
      requires Shape() && elm in nodes && (elm.left == null || elm.right == null)
      modifies this, nodes`left, nodes`right, nodes`parent, nodes`pos, nodes`lo, nodes`hi
      ensures Shape() && AllUnlinked(elm)
      ensures elm.left == old(elm.left) && elm.right == old(elm.right) && elm.parent == old(elm.parent)
      ensures child == old(OnlyChild(elm)) && parent == old(elm.parent) && color == elm.color
    {
      child := OnlyChild(elm);
      parent := elm.parent;
      color := elm.color;
      Detach(elm, child, parent);
      UnlinkedShape(elm);
    }

    method Detach(elm: Node, child: Node?, parent: Node?)
      requires Shape() && elm in nodes && (elm.left == null || elm.right == null)
      requires parent == elm.parent && child == OnlyChild(elm)
      modifies this, nodes`left, nodes`right, nodes`parent, nodes`pos, nodes`lo, nodes`hi
      ensures AllUnlinked(elm)
      ensures elm.left == old(elm.left) && elm.right == old(elm.right) && elm.parent == old(elm.parent)
    {
      assert ShapeAt(elm) && (child == null || ShapeAt(child)) && (parent == null || ShapeAt(parent));
      Bypass(elm, child, parent);
      CloseGap(elm);
      order := RemoveAt(order, elm.pos);
      nodes := nodes - {elm};
      forall m | m in nodes ensures Unlinked(elm, child, m) {
        assert old(ShapeAt(m));
      }
    }

    /** Renumbers the positions behind `elm`. */
    ghost method CloseGap(elm: Node)
      requires elm in nodes
      modifies nodes`pos, nodes`lo, nodes`hi
      ensures elm.pos == old(elm.pos)
      ensures forall m {:trigger m.pos} {:trigger m.lo} {:trigger m.hi} :: m in nodes ==>
          && m.pos == Drop(old(elm.pos), old(m.pos))
          && m.lo == Drop(old(elm.pos), old(m.lo)) && m.hi == Drop(old(elm.pos), old(m.hi))
    {
      var k := elm.pos;
      forall m | m in nodes { m.pos := Drop(k, m.pos); }
      forall m | m in nodes { m.lo := Drop(k, m.lo); }
      forall m | m in nodes { m.hi := Drop(k, m.hi); }
    }

    /** A red node can go without harm; a black one leaves its child one black short. */
    twostate lemma UnlinkedBalance(elm: Node)
      requires old(RedBlack()) && old(elm in nodes) && AllUnlinked(elm) && Shape()
      requires forall m {:trigger SameWeight(m)} :: m in old(nodes) ==> SameWeight(m)
      requires elm.parent == old(elm.parent)
      ensures elm.color == Red ==> RedBlack()
      ensures elm.color == Black ==> RemoveInv(elm.parent, old(OnlyChild(elm)))
    {
      var c, p := old(OnlyChild(elm)), old(elm.parent);
      assert old(ShapeAt(elm)) && old(BalancedAt(elm)) && SameWeight(elm);
      assert c == null || (old(ShapeAt(c)) && old(BalancedAt(c)) && SameWeight(c) && Unlinked(elm, c, c));
      assert p == null || (old(ShapeAt(p)) && old(BalancedAt(p)) && SameWeight(p) && Unlinked(elm, c, p));
      forall n | n in nodes && n != p ensures BalancedAt(n) {
        assert old(ShapeAt(n)) && old(BalancedAt(n)) && Unlinked(elm, c, n) && SameWeight(n);
        assert n.left == null || SameWeight(n.left);
        assert n.right == null || SameWeight(n.right);
      }
      if p != null {
        assert p.left == null || SameWeight(p.left);
        assert p.right == null || SameWeight(p.right);
      }
      assert root == null || root == c || SameWeight(root);
    }

    /** What putting `elm` where `was` stood does to every node `m` that stays. */
    twostate predicate Replaced(was: Node, elm: Node, m: Node)
      reads m
    {
      if m == elm then
        && m.left == old(was.left) && m.right == old(was.right) && m.parent == old(was.parent)
        && m.pos == old(was.pos) && m.lo == old(was.lo) && m.hi == old(was.hi)
        && m.color == old(was.color) && m.bh == old(was.bh)
      else
        && m.left == (if old(m.left) == was then elm else old(m.left))
        && m.right == (if old(m.right) == was then elm else old(m.right))
        && m.parent == (if old(m.parent) == was then elm else old(m.parent))
        && m.pos == old(m.pos) && m.lo == old(m.lo) && m.hi == old(m.hi)
        && m.color == old(m.color) && m.bh == old(m.bh)
    }

    twostate predicate AllReplaced(was: Node, elm: Node)
      reads this, nodes
    {
      && was in old(nodes)
      && elm !in old(nodes)
      && nodes == old(nodes) - {was} + {elm}
      && 0 <= old(was.pos) < |old(order)|
      && order == old(order)[old(was.pos) := elm]
      && root == (if old(root) == was then elm else old(root))
      && forall m {:trigger Replaced(was, elm, m)} :: m in nodes ==> Replaced(was, elm, m)
    }

    twostate lemma ReplacedNodes(elm: Node)
      requires old(Shape()) && 0 <= elm.pos < |old(order)| && AllReplaced(old(order)[elm.pos], elm)
      ensures forall n {:trigger ShapeAt(n)} :: n in nodes ==> ShapeAt(n)
    {
      var was := old(order)[elm.pos];
      assert old(ShapeAt(was)) && Replaced(was, elm, elm);
      assert old(was.left) == null || Replaced(was, elm, old(was.left));
      assert old(was.right) == null || Replaced(was, elm, old(was.right));
      assert old(was.parent) == null || Replaced(was, elm, old(was.parent));
      forall n | n in nodes ensures ShapeAt(n) {
        assert Replaced(was, elm, n);
        if n != elm {
          assert old(ShapeAt(n));
          assert old(n.left) == null || old(n.left) == was || Replaced(was, elm, old(n.left));
          assert old(n.right) == null || old(n.right) == was || Replaced(was, elm, old(n.right));
          assert old(n.parent) == null || old(n.parent) == was || Replaced(was, elm, old(n.parent));
        }
      }
    }

    twostate lemma ReplacedShape(elm: Node)
      requires old(Shape()) && 0 <= elm.pos < |old(order)| && AllReplaced(old(order)[elm.pos], elm)
      ensures Shape()
    {
      var was := old(order)[elm.pos];
      assert old(ShapeAt(was)) && Replaced(was, elm, elm);
      ReplacedNodes(elm);
      forall i | 0 <= i < |order| ensures order[i] in nodes && order[i].pos == i {
        assert Replaced(was, elm, order[i]);
      }
      assert old(root) != null && Replaced(was, elm, root);
    }

    twostate lemma ReplacedBalance(elm: Node)
      requires old(Shape()) && 0 <= elm.pos < |old(order)| && AllReplaced(old(order)[elm.pos], elm) && Shape()
      ensures forall n {:trigger BalancedAt(n)} {:trigger HeightAt(n)} :: n in nodes && n != elm ==>
          && (old(HeightAt(n)) ==> HeightAt(n)) && (old(BalancedAt(n)) ==> BalancedAt(n))
      ensures var was := old(order)[elm.pos]; old(HeightAt(was)) ==> HeightAt(elm)
      ensures var was := old(order)[elm.pos]; old(BalancedAt(was)) ==> BalancedAt(elm)
    {
      var was := old(order)[elm.pos];
      assert old(ShapeAt(was)) && Replaced(was, elm, elm);
      assert elm.left == null || Replaced(was, elm, elm.left);
      assert elm.right == null || Replaced(was, elm, elm.right);
      forall n | n in nodes && n != elm
        ensures (old(HeightAt(n)) ==> HeightAt(n)) && (old(BalancedAt(n)) ==> BalancedAt(n))
      {
        assert old(ShapeAt(n)) && Replaced(was, elm, n);
        assert n.left == null || n.left == elm || Replaced(was, elm, n.left);
        assert n.right == null || n.right == elm || Replaced(was, elm, n.right);
      }
    }

    /** What REMOVE_COLOR is called for: nothing when a red node went, a missing black otherwise. */
    ghost predicate Repairable(color: Color, parent: Node?, child: Node?)
      reads this, nodes`left, nodes`right, nodes`parent, nodes`color, nodes`pos, nodes`lo, nodes`hi, nodes`bh
    {
      if color == Red then RedBlack() else RemoveInv(parent, child)
    }

    /** The pointer writes that put `elm` in the place of `was`. */
    method Substitute(was: Node, elm: Node)
      requires elm != was && elm != was.parent && elm != was.left && elm != was.right
      requires was.left != null && was.left != was.parent && was.left != was.right && was.left != was
      requires was.right != null ==> was.right != was.parent && was.right != was
      requires was.parent != was
      modifies this`root, elm`left, elm`right, elm`parent, elm`color, was.left`parent
      modifies (if was.right == null then {} else {was.right})`parent
      modifies (if was.parent == null then {} else {was.parent})`left,
               (if was.parent == null then {} else {was.parent})`right
      ensures elm.left == was.left && elm.right == was.right && elm.parent == was.parent && elm.color == was.color
      ensures root == if was.parent == null then elm else old(root)
      ensures was.left.parent == elm && (was.right != null ==> was.right.parent == elm)
      ensures was.parent != null ==>
          && was.parent.left == (if old(was.parent.left) == was then elm else old(was.parent.left))
          && was.parent.right == (if old(was.parent.left) == was then old(was.parent.right) else elm)
    {
      elm.left, elm.right, elm.parent, elm.color := was.left, was.right, was.parent, was.color;
      if was.parent != null {
        if was.parent.left == was {
          was.parent.left := elm;
        } else {
          was.parent.right := elm;
        }
      } else {
        root := elm;
      }
      was.left.parent := elm;
      if was.right != null {
        was.right.parent := elm;
      }
    }

    /** The ghost record of `elm` taking the place of `was`. */
    ghost method TakePlace(was: Node, elm: Node)
      requires was in nodes && 0 <= was.pos < |order|
      modifies `order, `nodes, elm`pos, elm`lo, elm`hi, elm`bh
      ensures elm.pos == old(was.pos) && elm.lo == old(was.lo) && elm.hi == old(was.hi) && elm.bh == old(was.bh)
      ensures order == old(order)[old(was.pos) := elm] && nodes == old(nodes) - {was} + {elm}
    {
      order := order[was.pos := elm];
      nodes := nodes - {was} + {elm};
      elm.pos, elm.lo, elm.hi, elm.bh := was.pos, was.lo, was.hi, was.bh;
    }

    method Replace(was: Node, elm: Node)
      requires Shape() && was in nodes && elm !in nodes && was.left != null
      modifies this, nodes`left, nodes`right, nodes`parent
      modifies elm`left, elm`right, elm`parent, elm`color, elm`pos, elm`lo, elm`hi, elm`bh
      ensures Shape() && AllReplaced(was, elm) && elm.pos == old(was.pos)
    {
      assert ShapeAt(was) && ShapeAt(was.left) && (was.right == null || ShapeAt(was.right));
      assert was.parent == null || ShapeAt(was.parent);
      Substitute(was, elm);
      TakePlace(was, elm);
      forall m | m in nodes ensures Replaced(was, elm, m) {
        assert m == elm || old(ShapeAt(m));
      }
      ReplacedShape(elm);
    }

    /** Replacing one node of a tree under repair moves the repair along with it. */
    method ReplaceUnderRepair(was: Node, elm: Node, color: Color, parent0: Node?, child: Node?) returns (parent: Node?)
      requires Shape() && was in nodes && elm !in nodes && was.left != null && was != child
      requires Repairable(color, parent0, child)
      modifies this, nodes`left, nodes`right, nodes`parent
      modifies elm`left, elm`right, elm`parent, elm`color, elm`pos, elm`lo, elm`hi, elm`bh
      ensures AllReplaced(was, elm) && elm.pos == old(was.pos)
      ensures parent == (if parent0 == was then elm else parent0)
      ensures Repairable(color, parent, child)
    {
      parent := if parent0 == was then elm else parent0;
      assert ShapeAt(was);
      Replace(was, elm);
      ReplacedBalance(elm);
      assert Replaced(was, elm, elm) && Replaced(was, elm, root);
      assert color == Red || child == null || Replaced(was, elm, child);
      if color == Red {
        forall n | n in nodes ensures BalancedAt(n) {
          assert old(BalancedAt(if n == elm then was else n));
        }
      } else {
        forall n | n in nodes && n !in {parent, child} ensures BalancedAt(n) {
          assert old(BalancedAt(if n == elm then was else n));
        }
        if parent != null {
          assert Replaced(was, elm, parent) && old(ShapeAt(parent0));
          assert parent.left == null || Replaced(was, elm, parent.left);
          assert parent.right == null || Replaced(was, elm, parent.right);
        }
      }
    }

    /** The two-child case: the in-order successor is unlinked and takes over the place of `was`. */
    method RemoveInner(was: Node) returns (child: Node?, parent: Node?, color: Color)
      requires RedBlack() && was in nodes && was.left != null && was.right != null
      modifies this, nodes`left, nodes`right, nodes`parent, nodes`color, nodes`pos, nodes`lo, nodes`hi, nodes`bh
      ensures Repairable(color, parent, child)
      ensures nodes == old(nodes) - {was}
      ensures 0 <= old(was.pos) < |old(order)| - 1 && order == RemoveAt(old(order), old(was.pos))
      ensures var elm := old(order)[old(was.pos) + 1];
        && elm.left == old(was.left) && elm.right == (if old(was.right) == elm then child else old(was.right))
        && elm.parent == old(was.parent) && elm.color == old(was.color) && color == old(elm.color)
    {
      assert ShapeAt(was);
      var elm: Node := was.right;
      while elm.left != null
        invariant elm in nodes && elm.lo == was.pos + 1
        decreases elm.hi - elm.lo
      {
        assert ShapeAt(elm);
        elm := elm.left;
      }
      assert ShapeAt(elm);
      child, parent, color := Unlink(elm);
      UnlinkedBalance(elm);
      assert Unlinked(elm, child, was);
      label Out:
      parent := ReplaceUnderRepair(was, elm, color, parent, child);
      assert Replaced@Out(was, elm, elm);
      assert order == RemoveAt(old(order), old(was.pos));
    }

    /** Removes `was`, which stays allocated with stale links; every other node keeps its identity. */
    method Remove(was: Node) returns (removed: Node)
      requires RedBlack() && was in nodes
      modifies this, nodes`left, nodes`right, nodes`parent, nodes`color, nodes`pos, nodes`lo, nodes`hi, nodes`bh
      ensures RedBlack() && (old(Sorted()) ==> Sorted())
      ensures removed == was
      ensures nodes == old(nodes) - {was}
      ensures 0 <= old(was.pos) < |old(order)| && old(order)[old(was.pos)] == was
      ensures order == RemoveAt(old(order), old(was.pos))
    {
      assert ShapeAt(was);
      var child, parent, color;
      if was.left == null || was.right == null {
        child, parent, color := Unlink(was);
        UnlinkedBalance(was);
      } else {
        child, parent, color := RemoveInner(was);
      }
      if color == Black {
        RemoveColor(parent, child);
      }
      AscendingWithout(old(order), old(was.pos));
      removed := was;
    }

    /** What hanging the leaf `elm` below `p` does to every node `m`. */
    twostate predicate Inserted(elm: Node, p: Node, m: Node)
      reads m, elm`pos
    {
      var q := old(p.pos);
      if m == elm then
        && m.left == null && m.right == null && m.parent == p && m.color == Red && m.bh == 0
        && m.hi == m.lo + 1 && m.pos == m.lo && (m.pos == q || m.pos == q + 1)
      else
        && m.left == (if m == p && elm.pos == q then elm else old(m.left))
        && m.right == (if m == p && elm.pos == q + 1 then elm else old(m.right))
        && m.parent == old(m.parent) && m.color == old(m.color) && m.bh == old(m.bh)
        && m.pos == (if old(m.pos) >= elm.pos then old(m.pos) + 1 else old(m.pos))
        && m.lo == (if old(m.lo) > q then old(m.lo) + 1 else old(m.lo))
        && m.hi == (if old(m.hi) > q then old(m.hi) + 1 else old(m.hi))
    }

    twostate predicate AllInserted(elm: Node, p: Node)
      reads this, nodes, elm
    {
      && p in old(nodes) && elm !in old(nodes) && nodes == old(nodes) + {elm}
      && 0 <= elm.pos <= |old(order)|
      && order == InsertAt(old(order), elm.pos, elm)
      && root == old(root)
      && (elm.pos == old(p.pos) ==> old(p.left) == null) && (elm.pos == old(p.pos) + 1 ==> old(p.right) == null)
      && forall m {:trigger Inserted(elm, p, m)} :: m in nodes ==> Inserted(elm, p, m)
    }

    twostate lemma InsertedOrder(elm: Node)
      requires old(Shape()) && elm.parent != null && elm.parent in old(nodes) && AllInserted(elm, elm.parent)
      ensures forall i {:trigger order[i]} :: 0 <= i < |order| ==> order[i] in nodes && order[i].pos == i
    {
      var p := elm.parent;
      forall i | 0 <= i < |order| ensures order[i] in nodes && order[i].pos == i {
        if i != elm.pos {
          var j := if i < elm.pos then i else i - 1;
          var m := old(order)[j];
          assert order[i] == m && old(m.pos) == j;
          assert Inserted(elm, p, m);
        }
      }
    }

    twostate lemma InsertedNodes(elm: Node)
      requires old(Shape()) && elm.parent != null && elm.parent in old(nodes) && AllInserted(elm, elm.parent)
      ensures forall n {:trigger ShapeAt(n)} :: n in nodes ==> ShapeAt(n)
    {
      var p := elm.parent;
      assert old(ShapeAt(p)) && Inserted(elm, p, elm) && Inserted(elm, p, p);
      assert ShapeAt(elm);
      forall n | n in nodes ensures ShapeAt(n) {
        if n != elm {
          assert Inserted(elm, p, n);
          assert old(ShapeAt(n));
          assert old(n.left) == null || Inserted(elm, p, old(n.left));
          assert old(n.right) == null || Inserted(elm, p, old(n.right));
          assert old(n.parent) == null || Inserted(elm, p, old(n.parent));
        }
      }
    }

    twostate lemma InsertedShape(elm: Node)
      requires old(Shape()) && elm.parent != null && elm.parent in old(nodes) && AllInserted(elm, elm.parent)
      ensures Shape()
    {
      var p := elm.parent;
      assert old(ShapeAt(p)) && Inserted(elm, p, p);
      InsertedNodes(elm);
      InsertedOrder(elm);
      assert old(root) != null && Inserted(elm, p, root);
    }

    twostate lemma InsertedBalance(elm: Node)
      requires old(RedBlack()) && elm.parent != null && elm.parent in old(nodes)
      requires AllInserted(elm, elm.parent) && Shape()
      ensures InsertInv(elm)
    {
      var p := elm.parent;
      assert Inserted(elm, p, elm) && Inserted(elm, p, p) && old(ShapeAt(p)) && old(BalancedAt(p));
      forall n | n in nodes ensures n != p ==> BalancedAt(n) {
        assert Inserted(elm, p, n);
        if n != elm {
          assert old(ShapeAt(n)) && old(BalancedAt(n));
          assert n.left == null || Inserted(elm, p, n.left);
          assert n.right == null || Inserted(elm, p, n.right);
        }
      }
      assert p.left == null || Inserted(elm, p, p.left);
      assert p.right == null || Inserted(elm, p, p.right);
      assert Inserted(elm, p, root);
    }

    /** Makes room for `elm` at position `k`, next to its parent at position `q`. */
    ghost method OpenGap(elm: Node, q: int, k: int)
      requires elm !in nodes && 0 <= k <= |order|
      modifies `order, `nodes, nodes`pos, nodes`lo, nodes`hi, elm`pos, elm`lo, elm`hi, elm`bh
      ensures elm.pos == elm.lo == k && elm.hi == k + 1 && elm.bh == 0
      ensures order == InsertAt(old(order), k, elm) && nodes == old(nodes) + {elm}
      ensures forall m {:trigger m.pos} {:trigger m.lo} {:trigger m.hi} :: m in old(nodes) ==>
          && m.pos == (if old(m.pos) >= k then old(m.pos) + 1 else old(m.pos))
          && m.lo == (if old(m.lo) > q then old(m.lo) + 1 else old(m.lo))
          && m.hi == (if old(m.hi) > q then old(m.hi) + 1 else old(m.hi))
    {
      forall m | m in nodes { m.pos := if m.pos >= k then m.pos + 1 else m.pos; }
      forall m | m in nodes { m.lo := if m.lo > q then m.lo + 1 else m.lo; }
      forall m | m in nodes { m.hi := if m.hi > q then m.hi + 1 else m.hi; }
      elm.pos, elm.lo, elm.hi, elm.bh := k, k, k + 1, 0;
      order, nodes := InsertAt(order, k, elm), nodes + {elm};
    }

    /** RB_SET and the child pointer of the parent. */
    method HangLeaf(elm: Node, parent: Node, comp: int)
      requires elm != parent
      modifies elm`left, elm`right, elm`parent, elm`color, parent`left, parent`right
      ensures elm.parent == parent && elm.left == null && elm.right == null && elm.color == Red
      ensures parent.left == (if comp < 0 then elm else old(parent.left))
      ensures parent.right == (if comp < 0 then old(parent.right) else elm)
    {
      elm.parent := parent;
      elm.left, elm.right := null, null;
      elm.color := Red;
      if comp < 0 {
        parent.left := elm;
      } else {
        parent.right := elm;
      }
    }

    /** Hangs the new red leaf `elm` on the free side of `parent`. */
    method LinkLeaf(elm: Node, parent: Node, comp: int)
      requires RedBlack() && elm !in nodes && parent in nodes
      requires comp != 0 && (if comp < 0 then parent.left == null else parent.right == null)
      modifies this, nodes`left, nodes`right, nodes`pos, nodes`lo, nodes`hi
      modifies elm`left, elm`right, elm`parent, elm`color, elm`pos, elm`lo, elm`hi, elm`bh
      ensures InsertInv(elm) && nodes == old(nodes) + {elm}
      ensures elm.pos == if comp < 0 then old(parent.pos) else old(parent.pos) + 1
      ensures 0 <= elm.pos <= |old(order)| && order == InsertAt(old(order), elm.pos, elm)
    {
      assert ShapeAt(parent);
      HangLeaf(elm, parent, comp);
      OpenGap(elm, parent.pos, if comp < 0 then parent.pos else parent.pos + 1);
      forall m | m in nodes ensures Inserted(elm, parent, m) {
      }
      InsertedShape(elm);
      InsertedBalance(elm);
    }

    /** The first node of an empty tree. */
    method LinkRoot(elm: Node)
      requires RedBlack() && root == null
      modifies this, elm`left, elm`right, elm`parent, elm`color, elm`pos, elm`lo, elm`hi, elm`bh
      ensures InsertInv(elm) && nodes == old(nodes) + {elm} && old(order) == [] && order == [elm] && elm.pos == 0
    {
      assert forall n :: n in nodes ==> ShapeAt(n);
      elm.parent := null;
      elm.left, elm.right := null, null;
      elm.color := Red;
      root := elm;
      elm.pos, elm.lo, elm.hi, elm.bh := 0, 0, 1, 0;
      order, nodes := [elm], {elm};
    }

    /** The nodes in strictly increasing `strcmp` order. */
    ghost predicate Sorted()
      reads this
    {
      Ascending(order)
    }

    ghost predicate Valid()
      reads this, nodes`left, nodes`right, nodes`parent, nodes`color, nodes`pos, nodes`lo, nodes`hi, nodes`bh
    {
      RedBlack() && Sorted()
    }

    /** No two nodes of a valid tree have the same pathname. */
    lemma SameNameSameNode(a: Node, b: Node)
      requires Valid() && a in nodes && b in nodes && a.pathname == b.pathname
      ensures a == b
    {
      assert ShapeAt(a) && ShapeAt(b);
      StrcmpAntisymmetric(a.pathname, b.pathname);
      assert order[a.pos] == a && order[b.pos] == b;
    }

    /** How many nodes come before `key`: the position where it is, or where it would go. */
    ghost predicate IsRank(key: string, k: int)
      reads this
    {
      && 0 <= k <= |order|
      && (forall i :: 0 <= i < k ==> Strcmp(order[i].pathname, key) < 0)
      && (forall i :: k <= i < |order| ==> Strcmp(order[i].pathname, key) >= 0)
    }

    /** A comparison with one node settles the comparison with every node before or behind it. */
    lemma CompareAtNode(key: string, k: int)
      requires Sorted() && 0 <= k < |order|
      ensures Strcmp(key, order[k].pathname) < 0 ==> forall i :: k <= i < |order| ==> Strcmp(key, order[i].pathname) < 0
      ensures Strcmp(key, order[k].pathname) > 0 ==> forall i :: 0 <= i <= k ==> Strcmp(key, order[i].pathname) > 0
      ensures Strcmp(key, order[k].pathname) == 0 ==> key == order[k].pathname
    {
      StrcmpAntisymmetric(key, order[k].pathname);
      if Strcmp(key, order[k].pathname) < 0 {
        forall i | k < i < |order| ensures Strcmp(key, order[i].pathname) < 0 {
          StrcmpTransitive(key, order[k].pathname, order[i].pathname);
        }
      }
      if Strcmp(key, order[k].pathname) > 0 {
        forall i | 0 <= i < k ensures Strcmp(key, order[i].pathname) > 0 {
          StrcmpTransitive(order[i].pathname, order[k].pathname, key);
          StrcmpAntisymmetric(key, order[i].pathname);
        }
      }
    }

    /** The keys below position `lo` are smaller than `key`, those from `hi` on are greater. */
    ghost predicate Narrowed(key: string, lo: int, hi: int)
      reads this
    {
      && 0 <= lo <= hi <= |order|
      && (forall i :: 0 <= i < lo ==> Strcmp(key, order[i].pathname) > 0)
      && (forall i :: hi <= i < |order| ==> Strcmp(key, order[i].pathname) < 0)
    }

    lemma AscendingWith(elm: Node, k: int)
      requires Sorted() && Narrowed(elm.pathname, k, k)
      ensures Ascending(InsertAt(order, k, elm))
    {
      var r := InsertAt(order, k, elm);
      forall i, j | 0 <= i < j < |r| ensures Strcmp(r[i].pathname, r[j].pathname) < 0 {
        if i == k {
        } else if j == k {
          StrcmpAntisymmetric(elm.pathname, r[i].pathname);
        } else {
          assert Strcmp(order[if i < k then i else i - 1].pathname, order[if j < k then j else j - 1].pathname) < 0;
        }
      }
    }

    lemma NotInside(elm: Node, k: int)
      requires Shape() && Narrowed(elm.pathname, k, k)
      ensures elm !in nodes
    {
      StrcmpAntisymmetric(elm.pathname, elm.pathname);
      assert elm in nodes ==> ShapeAt(elm);
    }

    /** The descent of RB_INSERT: the node with the key, or the place below `parent` where it belongs. */
    method Descend(elm: Node) returns (existing: Node?, parent: Node?, comp: int, ghost k: int)
      requires Valid()
      ensures existing != null ==> existing in nodes && existing.pathname == elm.pathname
      ensures existing == null ==> elm !in nodes && 0 <= k <= |order| && Ascending(InsertAt(order, k, elm))
      ensures existing == null ==>
          if parent == null then root == null && k == 0 else
            && parent in nodes && comp != 0
            && (if comp < 0 then parent.left == null && k == parent.pos
                else parent.right == null && k == parent.pos + 1)
    {
      var tmp := root;
      existing, parent, comp, k := null, null, 0, 0;
      ghost var lo, hi := 0, |order|;
      while tmp != null
        invariant tmp != null ==> tmp in nodes && tmp.lo == lo && tmp.hi == hi
        invariant Narrowed(elm.pathname, lo, hi)
        invariant if parent == null then tmp == root && (tmp == null ==> lo == hi == 0) else
            && parent in nodes && comp != 0
            && tmp == (if comp < 0 then parent.left else parent.right)
            && (tmp == null ==> lo == hi == if comp < 0 then parent.pos else parent.pos + 1)
        decreases hi - lo
      {
        assert ShapeAt(tmp);
        parent := tmp;
        comp := Strcmp(elm.pathname, parent.pathname);
        CompareAtNode(elm.pathname, tmp.pos);
        if comp < 0 {
          hi := tmp.pos;
          tmp := tmp.left;
        } else if comp > 0 {
          lo := tmp.pos + 1;
          tmp := tmp.right;
        } else {
          existing := tmp;
          return;
        }
      }
      AscendingWith(elm, lo);
      NotInside(elm, lo);
      k := lo;
    }

    /** Answers the node that already has the key, or NULL after linking `elm` in. */
    method Insert(elm: Node) returns (existing: Node?)
      requires Valid()
      modifies this, nodes`left, nodes`right, nodes`parent, nodes`color, nodes`pos, nodes`lo, nodes`hi, nodes`bh
      modifies elm`left, elm`right, elm`parent, elm`color, elm`pos, elm`lo, elm`hi, elm`bh
      ensures Valid()
      ensures existing != null ==> existing in nodes && existing.pathname == elm.pathname
      ensures existing != null ==> unchanged(this) && unchanged(nodes) && unchanged(elm)
      ensures existing == null ==> nodes == old(nodes) + {elm}
      ensures existing == null ==> 0 <= elm.pos <= |old(order)| && order == InsertAt(old(order), elm.pos, elm)
    {
      var parent, comp;
      ghost var k;
      existing, parent, comp, k := Descend(elm);
      if existing != null {
        return;
      }
      Link(elm, parent, comp, k);
      InsertColor(elm);
    }

    method Link(elm: Node, parent: Node?, comp: int, ghost k: int)
      requires RedBlack() && elm !in nodes
      requires if parent == null then root == null && k == 0 else
          && parent in nodes && comp != 0
          && (if comp < 0 then parent.left == null && k == parent.pos
              else parent.right == null && k == parent.pos + 1)
      modifies this, nodes`left, nodes`right, nodes`pos, nodes`lo, nodes`hi
      modifies elm`left, elm`right, elm`parent, elm`color, elm`pos, elm`lo, elm`hi, elm`bh
      ensures InsertInv(elm) && nodes == old(nodes) + {elm}
      ensures 0 <= elm.pos == k <= |old(order)| && order == InsertAt(old(order), k, elm)
    {
      if parent != null {
        LinkLeaf(elm, parent, comp);
      } else {
        LinkRoot(elm);
      }
    }

    /** The node with the key, or NULL when no node has it. */
    method Find(key: string) returns (found: Node?, ghost comparisons: nat)
      requires Valid()
      ensures comparisons <= Height(root)
      ensures found != null ==> found in nodes && found.pathname == key
      ensures found == null ==> forall n :: n in nodes ==> n.pathname != key
    {
      var tmp := root;
      comparisons := 0;
      ghost var lo, hi := 0, |order|;
      while tmp != null
        invariant tmp != null ==> tmp in nodes && tmp.lo == lo && tmp.hi == hi
        invariant tmp == null ==> lo == hi
        invariant Narrowed(key, lo, hi)
        invariant comparisons + Height(tmp) <= Height(root)
        decreases hi - lo
      {
        assert ShapeAt(tmp);
        var comp := Strcmp(key, tmp.pathname);
        comparisons := comparisons + 1;
        CompareAtNode(key, tmp.pos);
        if comp < 0 {
          hi := tmp.pos;
          tmp := tmp.left;
        } else if comp > 0 {
          lo := tmp.pos + 1;
          tmp := tmp.right;
        } else {
          found := tmp;
          return;
        }
      }
      forall n | n in nodes ensures n.pathname != key {
        assert ShapeAt(n);
        assert Strcmp(key, order[n.pos].pathname) != 0;
        StrcmpAntisymmetric(key, n.pathname);
      }
      found := null;
    }

    /** The first node whose key is not below `key`. */
    method NFind(key: string) returns (res: Node?, ghost comparisons: nat)
      requires Valid()
      ensures comparisons <= Height(root)
      ensures res != null ==> res in nodes && IsRank(key, res.pos)
      ensures res == null ==> IsRank(key, |order|)
    {
      var tmp := root;
      comparisons := 0;
      res := null;
      ghost var lo, hi := 0, |order|;
      while tmp != null
        invariant tmp != null ==> tmp in nodes && tmp.lo == lo && tmp.hi == hi
        invariant tmp == null ==> lo == hi
        invariant if res == null then hi == |order| else res in nodes && res.pos == hi
        invariant Narrowed(key, lo, hi)
        invariant comparisons + Height(tmp) <= Height(root)
        decreases hi - lo
      {
        assert ShapeAt(tmp);
        var comp := Strcmp(key, tmp.pathname);
        comparisons := comparisons + 1;
        CompareAtNode(key, tmp.pos);
        if comp < 0 {
          res := tmp;
          hi := tmp.pos;
          tmp := tmp.left;
        } else if comp > 0 {
          lo := tmp.pos + 1;
          tmp := tmp.right;
        } else {
          RankOf(key, tmp.pos);
          res := tmp;
          return;
        }
      }
      RankBetween(key, lo);
    }

    lemma RankOf(key: string, k: int)
      requires Sorted() && 0 <= k < |order| && order[k].pathname == key
      ensures IsRank(key, k)
    {
      StrcmpAntisymmetric(key, key);
      forall i | k < i < |order| ensures Strcmp(order[i].pathname, key) >= 0 {
        StrcmpAntisymmetric(key, order[i].pathname);
      }
    }

    lemma RankBetween(key: string, k: int)
      requires Narrowed(key, k, k)
      ensures IsRank(key, k)
    {
      forall i | 0 <= i < |order| ensures Strcmp(order[i].pathname, key) == -Strcmp(key, order[i].pathname) {
        StrcmpAntisymmetric(order[i].pathname, key);
      }
    }

    /** The in-order successor. */
    method Next(elm0: Node) returns (elm: Node?)
      requires Shape() && elm0 in nodes
      ensures elm == NodeAt(elm0.pos + 1)
    {
      elm := elm0;
      assert ShapeAt(elm);
      if elm.right != null {
        elm := elm.right;
        assert ShapeAt(elm);
        while elm.left != null
          invariant elm != null && elm in nodes && ShapeAt(elm) && elm.lo == elm0.pos + 1
          decreases elm.hi - elm.lo
        {
          elm := elm.left;
          assert ShapeAt(elm);
        }
      } else if elm.parent != null && elm == elm.parent.left {
        assert ShapeAt(elm.parent);
        elm := elm.parent;
      } else {
        while elm.parent != null && elm == elm.parent.right
          invariant elm != null && elm in nodes && ShapeAt(elm) && elm.hi == elm0.pos + 1
          decreases |order| - (elm.hi - elm.lo)
        {
          elm := elm.parent;
          assert ShapeAt(elm);
        }
        assert elm.parent == null || ShapeAt(elm.parent);
        elm := elm.parent;
      }
    }

    /** The in-order predecessor. */
    method Prev(elm0: Node) returns (elm: Node?)
      requires Shape() && elm0 in nodes
      ensures elm == NodeAt(elm0.pos - 1)
    {
      elm := elm0;
      assert ShapeAt(elm);
      if elm.left != null {
        elm := elm.left;
        assert ShapeAt(elm);
        while elm.right != null
          invariant elm != null && elm in nodes && ShapeAt(elm) && elm.hi == elm0.pos
          decreases elm.hi - elm.lo
        {
          elm := elm.right;
          assert ShapeAt(elm);
        }
      } else if elm.parent != null && elm == elm.parent.right {
        assert ShapeAt(elm.parent);
        elm := elm.parent;
      } else {
        while elm.parent != null && elm == elm.parent.left
          invariant elm != null && elm in nodes && ShapeAt(elm) && elm.lo == elm0.pos
          decreases |order| - (elm.hi - elm.lo)
        {
          elm := elm.parent;
          assert ShapeAt(elm);
        }
        assert elm.parent == null || ShapeAt(elm.parent);
        elm := elm.parent;
      }
    }

    /** Prev undoes Next, and Next undoes Prev. */
    lemma NeighboursUndo(n: Node, m: Node)
      requires Shape() && n in nodes
      ensures NodeAt(n.pos + 1) == m ==> m in nodes && NodeAt(m.pos - 1) == n
      ensures NodeAt(n.pos - 1) == m ==> m in nodes && NodeAt(m.pos + 1) == n
    {
      assert ShapeAt(n);
      WalkIsOrder();
      if NodeAt(n.pos + 1) == m || NodeAt(n.pos - 1) == m {
        assert m in order && ShapeAt(m);
        var i :| 0 <= i < |order| && order[i] == m;
        assert m in nodes;
      }
    }

    /** RB_MIN for a negative `val`, RB_MAX otherwise. */
    method MinMax(val: int) returns (parent: Node?)
      requires Shape()
      ensures parent == if val < 0 then NodeAt(0) else NodeAt(|order| - 1)
    {
      var tmp := root;
      parent := null;
      while tmp != null
        invariant tmp != null ==> tmp in nodes && (if val < 0 then tmp.lo == 0 else tmp.hi == |order|)
        invariant if parent == null then tmp == root else
            && parent in nodes
            && (if val < 0 then parent.lo == 0 && tmp == parent.left else parent.hi == |order| && tmp == parent.right)
        decreases if tmp == null then 0 else tmp.hi - tmp.lo
      {
        parent := tmp;
        assert ShapeAt(tmp);
        if val < 0 {
          tmp := tmp.left;
        } else {
          tmp := tmp.right;
        }
        assert tmp == null || ShapeAt(tmp);
      }
      assert parent == null || ShapeAt(parent);
    }

    ghost function NodeAt(k: int): Node?
      reads this
    {
      if 0 <= k < |order| then order[k] else null
    }

    /** One round of RB_FOREACH_SAFE with RB_REMOVE in its body: the saved successor becomes the first node. */
    method DrainStep(mi: Node) returns (next: Node?)
      requires RedBlack() && order != [] && mi == order[0]
      modifies this, nodes`left, nodes`right, nodes`parent, nodes`color, nodes`pos, nodes`lo, nodes`hi, nodes`bh
      ensures RedBlack() && nodes <= old(nodes) && order == old(order)[1..]
      ensures next == NodeAt(0)
    {
      next := Next(mi);
      assert ShapeAt(mi);
      var removed := Remove(mi);
    }

    /** RB_FOREACH_SAFE with RB_REMOVE in its body. */
    method Drain() returns (visited: seq<Node>)
      requires RedBlack()
      modifies this, nodes`left, nodes`right, nodes`parent, nodes`color, nodes`pos, nodes`lo, nodes`hi, nodes`bh
      ensures visited == old(order)
      ensures root == null && nodes == {} && order == [] && RedBlack()
    {
      visited := [];
      var mi := MinMax(-1);
      while mi != null
        invariant RedBlack() && nodes <= old(nodes)
        invariant mi == NodeAt(0)
        invariant old(order) == visited + order
        decreases |order|
      {
        TakeFirst(visited, order);
        visited := visited + [mi];
        mi := DrainStep(mi);
      }
      assert forall n :: n in nodes ==> ShapeAt(n);
    }

    /** The subtree below `n` read off the pointers, left to right. */
    ghost function Walk(n: Node?): seq<Node>
      requires Shape() && (n != null ==> n in nodes)
      reads this, nodes
      decreases if n == null then 0 else n.hi - n.lo
    {
      if n == null then [] else
        assert ShapeAt(n);
        assert (n.left == null || ShapeAt(n.left)) && (n.right == null || ShapeAt(n.right));
        Walk(n.left) + [n] + Walk(n.right)
    }

    /** The recorded positions are the true ones: walking the pointers gives exactly `order`. */
    lemma {:induction false} WalkFrom(n: Node)
      requires Shape() && n in nodes
      ensures 0 <= n.lo <= n.hi <= |order| && Walk(n) == order[n.lo..n.hi]
      decreases n.hi - n.lo
    {
      assert ShapeAt(n);
      if n.left != null {
        assert ShapeAt(n.left);
        WalkFrom(n.left);
      }
      if n.right != null {
        assert ShapeAt(n.right);
        WalkFrom(n.right);
      }
      SliceAround(order, n.lo, n.pos, n.hi);
    }

    lemma WalkIsOrder()
      requires Shape()
      ensures Walk(root) == order
      ensures forall n :: n in nodes <==> n in Walk(root)
    {
      if root != null {
        WalkFrom(root);
      }
      forall n | n in nodes ensures n in order {
        assert ShapeAt(n);
      }
      forall n | n in order ensures n in nodes {
        var i :| 0 <= i < |order| && order[i] == n;
      }
    }

    /** The number of nodes on the longest path down from `n`. */
    ghost function Height(n: Node?): nat
      requires Shape() && (n != null ==> n in nodes)
      reads this, nodes
      decreases if n == null then 0 else n.hi - n.lo
    {
      if n == null then 0 else
        assert ShapeAt(n);
        assert (n.left == null || ShapeAt(n.left)) && (n.right == null || ShapeAt(n.right));
        1 + Max(Height(n.left), Height(n.right))
    }

    /** Colours bound the height by the black height, and the black height is logarithmic in the size. */
    lemma {:induction false} HeightBelow(n: Node)
      requires RedBlack() && n in nodes
      ensures Height(n) <= 2 * n.bh + 1 - Cost(n.color)
      ensures Pow2(n.bh) <= n.hi - n.lo + 1
      decreases n.hi - n.lo
    {
      assert ShapeAt(n) && BalancedAt(n);
      if n.left != null {
        assert ShapeAt(n.left);
        HeightBelow(n.left);
      }
      if n.right != null {
        assert ShapeAt(n.right);
        HeightBelow(n.right);
      }
    }

    /** With n nodes the height is at most 2 * lg(n + 1). */
    lemma HeightIsLogarithmic()
      requires RedBlack()
      ensures Pow2(Height(root)) <= (|order| + 1) * (|order| + 1)
    {
      if root != null {
        HeightBelow(root);
        var b := Pow2(root.bh);
        Pow2Sum(root.bh, root.bh);
        Pow2Monotonic(Height(root), 2 * root.bh);
        MulMonotonic(b, |order| + 1);
      }
    }

    /** `order` holds each node of the tree once. */
    lemma OrderHoldsEachNodeOnce()
      requires Shape()
      ensures multiset(order) == multiset(nodes)
    {
      WalkIsOrder();
      DistinctSequence(order);
      assert nodes == set n | n in order;
    }
  }
}
