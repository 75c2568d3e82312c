/** The shape of a splay tree, as numbers: nodes are numbered in order, and `lo[i]` and `hi[i]` are the nodes before and
    behind the subtree of node `i` (-1 and the number of nodes where there is none).

    A top-down splay cuts the tree into a left part up to node `a`, a right part from node `b` on, and the subtree that
    is left between them. The right link of node `a` and the left link of node `b` are then out of date. */
module SplayShape {

  const NONE := -1

  datatype Shape = Shape(left: seq<int>, right: seq<int>, lo: seq<int>, hi: seq<int>)

  ghost predicate Sized(s: Shape, n: nat) {
    |s.left| == n && |s.right| == n && |s.lo| == n && |s.hi| == n
  }

  ghost predicate LeftLink(s: Shape, n: nat, i: int)
    requires Sized(s, n) && 0 <= i < n
  {
    var c := s.left[i];
    if c == NONE then s.lo[i] == i - 1 else -1 <= s.lo[i] < c < i && s.lo[c] == s.lo[i] && s.hi[c] == i
  }

  ghost predicate RightLink(s: Shape, n: nat, i: int)
    requires Sized(s, n) && 0 <= i < n
  {
    var c := s.right[i];
    if c == NONE then s.hi[i] == i + 1 else i < c < s.hi[i] <= n && s.lo[c] == i && s.hi[c] == s.hi[i]
  }

  /** Node `i` of a tree that is cut behind node `a` and before node `b`. */
  ghost predicate Cut(s: Shape, n: nat, a: int, b: int, i: int)
    requires Sized(s, n) && 0 <= i < n
  {
    && -1 <= s.lo[i] < i < s.hi[i] <= n
    && (i <= a ==> s.hi[i] <= a + 1) && (b <= i ==> b - 1 <= s.lo[i]) && (a < i < b ==> a <= s.lo[i] && s.hi[i] <= b)
    && (if i == b then s.lo[i] == b - 1 else LeftLink(s, n, i))
    && (if i == a then s.hi[i] == a + 1 else RightLink(s, n, i))
  }

  ghost predicate AllCut(s: Shape, n: nat, a: int, b: int) {
    Sized(s, n) && forall i {:trigger Cut(s, n, a, b, i)} :: 0 <= i < n ==> Cut(s, n, a, b, i)
  }

  /** Between the cuts is the subtree of `p`. */
  ghost predicate Middle(s: Shape, n: nat, a: int, b: int, p: int) {
    AllCut(s, n, a, b) && -1 <= a < p < b <= n && s.lo[p] == a && s.hi[p] == b
  }

  /** The roots of the parts that are cut off. */
  ghost predicate Sides(s: Shape, n: nat, a: int, b: int, x: int, y: int)
    requires Sized(s, n)
  {
    && (if a == -1 then x == NONE else 0 <= x <= a < n && s.lo[x] == -1 && s.hi[x] == a + 1)
    && (if b == n then y == NONE else 0 <= b <= y < n && s.lo[y] == b - 1 && s.hi[y] == n)
  }

  /** A whole tree with root `p`. */
  ghost predicate Whole(s: Shape, n: nat, p: int) {
    Middle(s, n, -1, n, p)
  }

  /** The subtrees of the nodes on one side of a node stay on that side. */
  lemma {:induction false} Nested(s: Shape, n: nat, a: int, b: int, j: int, i: int)
    requires AllCut(s, n, a, b) && -1 <= a < j < b <= n && s.lo[j] < i < s.hi[j]
    ensures 0 <= i < n && s.lo[j] <= s.lo[i] && s.hi[i] <= s.hi[j]
    ensures i < j ==> s.hi[i] <= j
    ensures j < i ==> j <= s.lo[i]
    decreases s.hi[j] - s.lo[j]
  {
    assert Cut(s, n, a, b, j);
    if i < j {
      Nested(s, n, a, b, s.left[j], i);
    } else if j < i {
      Nested(s, n, a, b, s.right[j], i);
    }
  }

  // ----- the steps of a splay

  function RotatedRight(s: Shape, p: int): Shape
    requires 0 <= p < |s.left| && p < |s.lo| && p < |s.hi|
    requires 0 <= s.left[p] < |s.right| && s.left[p] < |s.hi|
  {
    var t := s.left[p];
    Shape(s.left[p := s.right[t]], s.right[t := p], s.lo[p := t], s.hi[t := s.hi[p]])
  }

  lemma RotateRight(s: Shape, n: nat, a: int, b: int, p: int, x: int, y: int)
    requires Middle(s, n, a, b, p) && Sides(s, n, a, b, x, y) && s.left[p] != NONE
    ensures 0 <= s.left[p] < n
    ensures Middle(RotatedRight(s, p), n, a, b, s.left[p]) && Sides(RotatedRight(s, p), n, a, b, x, y)
  {
    assert Cut(s, n, a, b, p) && Cut(s, n, a, b, s.left[p]);
    var s' := RotatedRight(s, p);
    forall i | 0 <= i < n
      ensures Cut(s', n, a, b, i)
    {
      assert Cut(s, n, a, b, i);
    }
  }

  function RotatedLeft(s: Shape, p: int): Shape
    requires 0 <= p < |s.right| && p < |s.lo| && p < |s.hi|
    requires 0 <= s.right[p] < |s.left| && s.right[p] < |s.lo|
  {
    var t := s.right[p];
    Shape(s.left[t := p], s.right[p := s.left[t]], s.lo[t := s.lo[p]], s.hi[p := t])
  }

  lemma RotateLeft(s: Shape, n: nat, a: int, b: int, p: int, x: int, y: int)
    requires Middle(s, n, a, b, p) && Sides(s, n, a, b, x, y) && s.right[p] != NONE
    ensures 0 <= s.right[p] < n
    ensures Middle(RotatedLeft(s, p), n, a, b, s.right[p]) && Sides(RotatedLeft(s, p), n, a, b, x, y)
  {
    assert Cut(s, n, a, b, p) && Cut(s, n, a, b, s.right[p]);
    var s' := RotatedLeft(s, p);
    forall i | 0 <= i < n
      ensures Cut(s', n, a, b, i)
    {
      assert Cut(s, n, a, b, i);
    }
  }

  /** `p` and what is right of it go to the right part; the nodes on its left edge now start before `p`. */
  ghost function LinkedLeft(s: Shape, n: nat, b: int, p: int): Shape
    requires Sized(s, n) && 0 <= p < n && 0 <= b <= n
  {
    Shape(if b < n then s.left[b := p] else s.left, s.right,
          seq(n, i requires 0 <= i < n => if i == p || (b <= i && s.lo[i] == b - 1) then p - 1 else s.lo[i]), s.hi)
  }

  lemma LinkLeft(s: Shape, n: nat, a: int, b: int, p: int, x: int, y: int)
    requires Middle(s, n, a, b, p) && Sides(s, n, a, b, x, y) && s.left[p] != NONE
    ensures Middle(LinkedLeft(s, n, b, p), n, a, p, s.left[p])
    ensures Sides(LinkedLeft(s, n, b, p), n, a, p, x, if b == n then p else y)
  {
    var s' := LinkedLeft(s, n, b, p);
    assert Cut(s, n, a, b, p);
    forall i | 0 <= i < n
      ensures Cut(s', n, a, p, i)
    {
      assert Cut(s, n, a, b, i);
      if a < i < b {
        Nested(s, n, a, b, p, i);
      }
    }
  }

  ghost function LinkedRight(s: Shape, n: nat, a: int, p: int): Shape
    requires Sized(s, n) && 0 <= p < n && -1 <= a < n
  {
    Shape(s.left, if 0 <= a then s.right[a := p] else s.right, s.lo,
          seq(n, i requires 0 <= i < n => if i == p || (i <= a && s.hi[i] == a + 1) then p + 1 else s.hi[i]))
  }

  lemma LinkRight(s: Shape, n: nat, a: int, b: int, p: int, x: int, y: int)
    requires Middle(s, n, a, b, p) && Sides(s, n, a, b, x, y) && s.right[p] != NONE
    ensures Middle(LinkedRight(s, n, a, p), n, p, b, s.right[p])
    ensures Sides(LinkedRight(s, n, a, p), n, p, b, if a == -1 then p else x, y)
  {
    var s' := LinkedRight(s, n, a, p);
    assert Cut(s, n, a, b, p);
    forall i | 0 <= i < n
      ensures Cut(s', n, p, b, i)
    {
      assert Cut(s, n, a, b, i);
      if a < i < b {
        Nested(s, n, a, b, p, i);
      }
    }
  }

  /** The subtrees of `p` go to the inner edges of the parts. */
  ghost function EdgesFilled(s: Shape, n: nat, a: int, b: int, p: int): Shape
    requires Sized(s, n) && 0 <= p < n && -1 <= a < n && 0 <= b <= n
  {
    s.(left := if b < n then s.left[b := s.right[p]] else s.left,
       right := if 0 <= a then s.right[a := s.left[p]] else s.right)
  }

  /** Then the parts go under `p`. */
  ghost function Assembled(s: Shape, n: nat, a: int, b: int, p: int, x: int, y: int): Shape
    requires Sized(s, n) && 0 <= p < n && -1 <= a < n && 0 <= b <= n
  {
    var s' := EdgesFilled(s, n, a, b, p);
    Shape(s'.left[p := if a == -1 then s.left[p] else x],
          s'.right[p := if b == n then s.right[p] else y],
          seq(n, i requires 0 <= i < n => if i == p then -1 else if b <= i && s.lo[i] == b - 1 then p else s.lo[i]),
          seq(n, i requires 0 <= i < n => if i == p then n else if i <= a && s.hi[i] == a + 1 then p else s.hi[i]))
  }

  lemma AssembledLeft(s: Shape, n: nat, a: int, b: int, p: int, x: int, y: int, i: int)
    requires Middle(s, n, a, b, p) && Sides(s, n, a, b, x, y) && 0 <= i < n
    ensures LeftLink(Assembled(s, n, a, b, p, x, y), n, i)
  {
    assert Cut(s, n, a, b, p) && Cut(s, n, a, b, i);
  }

  lemma AssembledRight(s: Shape, n: nat, a: int, b: int, p: int, x: int, y: int, i: int)
    requires Middle(s, n, a, b, p) && Sides(s, n, a, b, x, y) && 0 <= i < n
    ensures RightLink(Assembled(s, n, a, b, p, x, y), n, i)
  {
    assert Cut(s, n, a, b, p) && Cut(s, n, a, b, i);
  }

  lemma Assemble(s: Shape, n: nat, a: int, b: int, p: int, x: int, y: int)
    requires Middle(s, n, a, b, p) && Sides(s, n, a, b, x, y)
    ensures Whole(Assembled(s, n, a, b, p, x, y), n, p)
  {
    var s' := Assembled(s, n, a, b, p, x, y);
    forall i | 0 <= i < n
      ensures Cut(s', n, -1, n, i)
    {
      assert Cut(s, n, a, b, i);
      AssembledLeft(s, n, a, b, p, x, y, i);
      AssembledRight(s, n, a, b, p, x, y, i);
    }
  }

  // ----- nodes that come and go at the root

  /** The number of a node, or NONE, when one node is put in before it. */
  function Up(x: int): int {
    if x == NONE then NONE else x + 1
  }

  /** The entries of the nodes before and behind node `p`, with two entries `e` and `f` in place of its own. */
  ghost function Grown(v: seq<int>, p: int, e: int, f: int): seq<int>
    requires 0 <= p < |v|
  {
    seq(|v| + 1, i requires 0 <= i < |v| + 1 =>
      if i < p then v[i] else if i == p then e else if i == p + 1 then f else Up(v[i - 1]))
  }

  /** A new root takes the place of root `p` and has it on its right. */
  ghost function GrownBefore(s: Shape, n: nat, p: int): Shape
    requires Sized(s, n) && 0 <= p < n
  {
    Shape(Grown(s.left, p, s.left[p], NONE), Grown(s.right, p, p + 1, Up(s.right[p])),
          Grown(s.lo, p, -1, p), Grown(s.hi, p, n + 1, n + 1))
  }

  ghost function GrownBehind(s: Shape, n: nat, p: int): Shape
    requires Sized(s, n) && 0 <= p < n
  {
    Shape(Grown(s.left, p, s.left[p], p), Grown(s.right, p, NONE, Up(s.right[p])),
          Grown(s.lo, p, -1, -1), Grown(s.hi, p, p + 1, n + 1))
  }

  /** The links of node `i` after a node has come in before root `p`, or behind it. */
  lemma GrownLinks(s: Shape, n: nat, p: int, i: int)
    requires Sized(s, n) && 0 <= p < n && 0 <= i <= n
    ensures i < p ==> GrownBefore(s, n, p).left[i] == GrownBehind(s, n, p).left[i] == s.left[i]
    ensures i < p ==> GrownBefore(s, n, p).right[i] == GrownBehind(s, n, p).right[i] == s.right[i]
    ensures i == p ==> GrownBefore(s, n, p).left[i] == s.left[p] && GrownBefore(s, n, p).right[i] == p + 1
    ensures i == p ==> GrownBehind(s, n, p).left[i] == s.left[p] && GrownBehind(s, n, p).right[i] == NONE
    ensures i == p + 1 ==> GrownBefore(s, n, p).left[i] == NONE && GrownBefore(s, n, p).right[i] == Up(s.right[p])
    ensures i == p + 1 ==> GrownBehind(s, n, p).left[i] == p && GrownBehind(s, n, p).right[i] == Up(s.right[p])
    ensures i > p + 1 ==> GrownBefore(s, n, p).left[i] == GrownBehind(s, n, p).left[i] == Up(s.left[i - 1])
    ensures i > p + 1 ==> GrownBefore(s, n, p).right[i] == GrownBehind(s, n, p).right[i] == Up(s.right[i - 1])
  {
  }

  lemma GrownBeforeLeft(s: Shape, n: nat, p: int, i: int)
    requires Whole(s, n, p) && 0 <= i <= n
    ensures LeftLink(GrownBefore(s, n, p), n + 1, i)
  {
    var j := if i <= p then i else i - 1;
    assert Cut(s, n, -1, n, p) && Cut(s, n, -1, n, j);
    Nested(s, n, -1, n, p, j);
  }

  lemma GrownBeforeRight(s: Shape, n: nat, p: int, i: int)
    requires Whole(s, n, p) && 0 <= i <= n
    ensures RightLink(GrownBefore(s, n, p), n + 1, i)
  {
    var j := if i <= p then i else i - 1;
    assert Cut(s, n, -1, n, p) && Cut(s, n, -1, n, j);
    Nested(s, n, -1, n, p, j);
  }

  lemma GrowBefore(s: Shape, n: nat, p: int)
    requires Whole(s, n, p)
    ensures Whole(GrownBefore(s, n, p), n + 1, p)
  {
    var s', m := GrownBefore(s, n, p), n + 1;
    forall i | 0 <= i < m
      ensures Cut(s', m, -1, m, i)
    {
      assert Cut(s, n, -1, n, if i <= p then i else i - 1);
      GrownBeforeLeft(s, n, p, i);
      GrownBeforeRight(s, n, p, i);
    }
  }

  lemma GrownBehindLeft(s: Shape, n: nat, p: int, i: int)
    requires Whole(s, n, p) && 0 <= i <= n
    ensures LeftLink(GrownBehind(s, n, p), n + 1, i)
  {
    var j := if i <= p then i else i - 1;
    assert Cut(s, n, -1, n, p) && Cut(s, n, -1, n, j);
    Nested(s, n, -1, n, p, j);
  }

  lemma GrownBehindRight(s: Shape, n: nat, p: int, i: int)
    requires Whole(s, n, p) && 0 <= i <= n
    ensures RightLink(GrownBehind(s, n, p), n + 1, i)
  {
    var j := if i <= p then i else i - 1;
    assert Cut(s, n, -1, n, p) && Cut(s, n, -1, n, j);
    Nested(s, n, -1, n, p, j);
  }

  lemma GrowBehind(s: Shape, n: nat, p: int)
    requires Whole(s, n, p)
    ensures Whole(GrownBehind(s, n, p), n + 1, p + 1)
  {
    var s', m := GrownBehind(s, n, p), n + 1;
    forall i | 0 <= i < m
      ensures Cut(s', m, -1, m, i)
    {
      assert Cut(s, n, -1, n, if i <= p then i else i - 1);
      GrownBehindLeft(s, n, p, i);
      GrownBehindRight(s, n, p, i);
    }
  }

  ghost function Shortened(s: Shape, k: nat): Shape
    requires k <= |s.left| && k <= |s.right| && k <= |s.lo| && k <= |s.hi|
  {
    Shape(s.left[..k], s.right[..k], s.lo[..k], s.hi[..k])
  }

  /** The left subtree of the root by itself. */
  lemma TakeLeft(s: Shape, n: nat, p: int)
    requires Whole(s, n, p) && s.left[p] != NONE
    ensures Whole(Shortened(s, p), p, s.left[p])
  {
    assert Cut(s, n, -1, n, p);
    forall i | 0 <= i < p
      ensures Cut(Shortened(s, p), p, -1, p, i)
    {
      assert Cut(s, n, -1, n, i);
      Nested(s, n, -1, n, p, i);
    }
  }

  function Down(x: int): int {
    if x == NONE then NONE else x - 1
  }

  /** The entries of `u`, and then those of `v` behind node `p`. */
  ghost function Joined(u: seq<int>, v: seq<int>, p: int): seq<int>
    requires 0 <= p < |v| && |u| == p
  {
    seq(|v| - 1, i requires 0 <= i < |v| - 1 => if i < p then u[i] else Down(v[i + 1]))
  }

  /** The right subtree of root `p` of `s` on the right of the last node, the root of `l`. */
  ghost function JoinedTo(l: Shape, s: Shape, n: nat, p: nat): Shape
    requires Sized(l, p) && Sized(s, n) && 0 < p < n
  {
    Shape(Joined(l.left, s.left, p), Joined(l.right[p - 1 := Down(s.right[p])], s.right, p),
          Joined(l.lo, s.lo, p), Joined(l.hi[p - 1 := n - 1], s.hi, p))
  }

  lemma JoinedLinks(l: Shape, s: Shape, n: nat, p: nat, i: int)
    requires Sized(l, p) && Sized(s, n) && 0 < p < n && 0 <= i < n - 1
    ensures i < p ==> JoinedTo(l, s, n, p).left[i] == l.left[i]
    ensures i < p - 1 ==> JoinedTo(l, s, n, p).right[i] == l.right[i]
    ensures i == p - 1 ==> JoinedTo(l, s, n, p).right[i] == Down(s.right[p])
    ensures i >= p ==> JoinedTo(l, s, n, p).left[i] == Down(s.left[i + 1])
    ensures i >= p ==> JoinedTo(l, s, n, p).right[i] == Down(s.right[i + 1])
  {
  }

  lemma JoinedLeft(l: Shape, s: Shape, n: nat, p: nat, i: int)
    requires Whole(s, n, p) && 0 < p && Whole(l, p, p - 1) && 0 <= i < n - 1
    ensures LeftLink(JoinedTo(l, s, n, p), n - 1, i)
  {
    assert Cut(s, n, -1, n, p) && Cut(l, p, -1, p, p - 1);
    if i < p {
      assert Cut(l, p, -1, p, i);
    } else {
      assert Cut(s, n, -1, n, i + 1);
      Nested(s, n, -1, n, p, i + 1);
    }
  }

  lemma JoinedRight(l: Shape, s: Shape, n: nat, p: nat, i: int)
    requires Whole(s, n, p) && 0 < p && Whole(l, p, p - 1) && 0 <= i < n - 1
    ensures RightLink(JoinedTo(l, s, n, p), n - 1, i)
  {
    assert Cut(s, n, -1, n, p) && Cut(l, p, -1, p, p - 1);
    if i < p {
      assert Cut(l, p, -1, p, i);
    } else {
      assert Cut(s, n, -1, n, i + 1);
      Nested(s, n, -1, n, p, i + 1);
    }
  }

  lemma Join(l: Shape, s: Shape, n: nat, p: nat)
    requires Whole(s, n, p) && 0 < p && Whole(l, p, p - 1)
    ensures Whole(JoinedTo(l, s, n, p), n - 1, p - 1)
  {
    var s', m := JoinedTo(l, s, n, p), n - 1;
    assert Cut(s, n, -1, n, p) && Cut(l, p, -1, p, p - 1);
    forall i | 0 <= i < m
      ensures Cut(s', m, -1, m, i)
    {
      JoinedLeft(l, s, n, p, i);
      JoinedRight(l, s, n, p, i);
      if i < p {
        assert Cut(l, p, -1, p, i);
      } else {
        assert Cut(s, n, -1, n, i + 1);
        Nested(s, n, -1, n, p, i + 1);
      }
    }
  }

  ghost function FirstDropped(s: Shape, n: nat): Shape
    requires Sized(s, n) && 0 < n
  {
    Shape(Joined([], s.left, 0), Joined([], s.right, 0), Joined([], s.lo, 0), Joined([], s.hi, 0))
  }

  /** What is left when the root is the first node. */
  lemma DropFirst(s: Shape, n: nat)
    requires Whole(s, n, 0) && s.right[0] != NONE
    ensures Sized(s, n) && 0 < n
    ensures Whole(FirstDropped(s, n), n - 1, s.right[0] - 1)
  {
    var s', m := FirstDropped(s, n), n - 1;
    assert Cut(s, n, -1, n, 0);
    forall i | 0 <= i < m
      ensures Cut(s', m, -1, m, i)
    {
      assert Cut(s, n, -1, n, i + 1);
      Nested(s, n, -1, n, 0, i + 1);
    }
  }
}
