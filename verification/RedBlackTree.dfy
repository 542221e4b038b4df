// sdk/as/rbtree.c: the left-leaning red-black tree with floor search.
module RedBlackTree {
  import opened Powers

  // struct rbtree.
  class Node {
    const key: int
    var left: Node?
    var right: Node?
    var red: bool

    constructor (key: int)
      ensures this.key == key && left == null && right == null
    {
      this.key, left, right, red := key, null, null, false;
    }
  }

  // The shape of a tree in the heap.
  datatype Tree = Empty | Fork(left: Tree, node: Node, red: bool, right: Tree)

  function Nodes(t: Tree): set<Node> {
    if t.Empty? then {} else Nodes(t.left) + {t.node} + Nodes(t.right)
  }

  // No node occurs twice.
  predicate Distinct(t: Tree) {
    t.Empty? ||
    (Distinct(t.left) && Distinct(t.right) && t.node !in Nodes(t.left) && t.node !in Nodes(t.right) && Nodes(t.left) !! Nodes(t.right))
  }

  // The heap below n has shape t.
  ghost predicate Is(n: Node?, t: Tree)
    reads Nodes(t)
  {
    if t.Empty? then n == null
    else n == t.node && n.red == t.red && Is(n.left, t.left) && Is(n.right, t.right)
  }

  // ----- The operations on shapes -----

  predicate IsRed(t: Tree) { t.Fork? && t.red }

  predicate BothRed(t: Tree) { t.Fork? && IsRed(t.left) && IsRed(t.right) }

  function RotatedLeft(t: Tree): Tree
    requires t.Fork? && t.right.Fork?
  {
    Fork(Fork(t.left, t.node, true, t.right.left), t.right.node, t.red, t.right.right)
  }

  function RotatedRight(t: Tree): Tree
    requires t.Fork? && t.left.Fork?
  {
    Fork(t.left.left, t.left.node, t.red, Fork(t.left.right, t.node, true, t.right))
  }

  function Flipped(t: Tree): Tree
    requires t.Fork? && t.left.Fork? && t.right.Fork?
  {
    Fork(t.left.(red := !t.left.red), t.node, !t.red, t.right.(red := !t.right.red))
  }

  // The rotations after the recursive call.
  function Leaned(t: Tree): Tree
    requires t.Fork?
  {
    if IsRed(t.right) then RotatedLeft(t) else t
  }

  function Fixed(t: Tree): (r: Tree)
    requires t.Fork?
    ensures r.Fork?
  {
    var u := Leaned(t);
    if IsRed(u.left) && IsRed(u.left.left) then RotatedRight(u) else u
  }

  function Count(t: Tree): nat {
    if t.Empty? then 0 else Count(t.left) + 1 + Count(t.right)
  }

  function Split(t: Tree): (u: Tree)
    requires t.Fork?
    ensures u.Fork? && u.node == t.node && Count(u.left) == Count(t.left) && Count(u.right) == Count(t.right)
  {
    if IsRed(t.left) && IsRed(t.right) then Flipped(t) else t
  }

  function Inserted(t: Tree, n: Node): (r: Tree)
    ensures r.Fork?
    decreases Count(t)
  {
    if t.Empty? then Fork(Empty, n, true, Empty)
    else
      var u := Split(t);
      Fixed(if n.key < u.node.key then u.(left := Inserted(u.left, n)) else u.(right := Inserted(u.right, n)))
  }

  lemma RotatedLeftNodes(t: Tree)
    requires t.Fork? && t.right.Fork? && Distinct(t)
    ensures Distinct(RotatedLeft(t)) && Nodes(RotatedLeft(t)) == Nodes(t)
  {
    var h := RotatedLeft(t).left;
    assert Nodes(h) == Nodes(t.left) + {t.node} + Nodes(t.right.left);
    assert Nodes(t.right) == Nodes(t.right.left) + {t.right.node} + Nodes(t.right.right);
    assert Distinct(t.right);
    hide Nodes;
  }

  lemma RotatedRightNodes(t: Tree)
    requires t.Fork? && t.left.Fork? && Distinct(t)
    ensures Distinct(RotatedRight(t)) && Nodes(RotatedRight(t)) == Nodes(t)
  {
    var h := RotatedRight(t).right;
    assert Nodes(h) == Nodes(t.left.right) + {t.node} + Nodes(t.right);
    assert Nodes(t.left) == Nodes(t.left.left) + {t.left.node} + Nodes(t.left.right);
    assert Distinct(t.left);
    hide Nodes;
  }

  lemma RotationNodes(t: Tree)
    requires t.Fork? && Distinct(t)
    ensures t.right.Fork? ==> Distinct(RotatedLeft(t)) && Nodes(RotatedLeft(t)) == Nodes(t)
    ensures t.left.Fork? ==> Distinct(RotatedRight(t)) && Nodes(RotatedRight(t)) == Nodes(t)
    ensures Distinct(Split(t)) && Nodes(Split(t)) == Nodes(t)
  {
    if t.right.Fork? { RotatedLeftNodes(t); }
    if t.left.Fork? { RotatedRightNodes(t); }
    hide RotatedLeft, RotatedRight;
  }

  lemma FixedNodes(t: Tree)
    requires t.Fork? && Distinct(t)
    ensures Distinct(Fixed(t)) && Nodes(Fixed(t)) == Nodes(t)
  {
    RotationNodes(t);
    hide Distinct, Nodes;
    RotationNodes(Leaned(t));
  }

  lemma PutChild(u: Tree, x: Tree, n: Node)
    requires u.Fork? && Distinct(u) && n !in Nodes(u)
    ensures Distinct(u.left) && n !in Nodes(u.left) && Distinct(u.right) && n !in Nodes(u.right)
    ensures Distinct(x) && Nodes(x) == Nodes(u.left) + {n} ==>
              Distinct(u.(left := x)) && Nodes(u.(left := x)) == Nodes(u) + {n}
    ensures Distinct(x) && Nodes(x) == Nodes(u.right) + {n} ==>
              Distinct(u.(right := x)) && Nodes(u.(right := x)) == Nodes(u) + {n}
  {}

  lemma {:induction false} InsertedNodes(t: Tree, n: Node)
    requires Distinct(t) && n !in Nodes(t)
    ensures Distinct(Inserted(t, n)) && Nodes(Inserted(t, n)) == Nodes(t) + {n}
    decreases Count(t)
  {
    if t.Fork? {
      var u := Split(t);
      RotationNodes(t);
      hide Split, Fixed, RotatedLeft, RotatedRight, Distinct, Nodes;
      if n.key < u.node.key {
        PutChild(u, Inserted(u.left, n), n);
        InsertedNodes(u.left, n);
        FixedNodes(u.(left := Inserted(u.left, n)));
      } else {
        PutChild(u, Inserted(u.right, n), n);
        InsertedNodes(u.right, n);
        FixedNodes(u.(right := Inserted(u.right, n)));
      }
    }
  }

  // ----- The code -----

  method RotateLeft(h: Node, ghost t: Tree) returns (x: Node)
    requires Is(h, t) && Distinct(t) && t.right.Fork?
    modifies Nodes(t)
    ensures Is(x, RotatedLeft(t))
  {
    x := h.right;
    h.right := x.left;
    x.left := h;
    x.red := x.left.red;
    x.left.red := true;
  }

  method RotateRight(h: Node, ghost t: Tree) returns (x: Node)
    requires Is(h, t) && Distinct(t) && t.left.Fork?
    modifies Nodes(t)
    ensures Is(x, RotatedRight(t))
  {
    x := h.left;
    h.left := x.right;
    x.right := h;
    x.red := x.right.red;
    x.right.red := true;
  }

  method ColorFlip(h: Node, ghost t: Tree)
    requires Is(h, t) && Distinct(t) && t.left.Fork? && t.right.Fork?
    modifies Nodes(t)
    ensures Is(h, Flipped(t))
  {
    h.red := !h.red;
    h.left.red := !h.left.red;
    h.right.red := !h.right.red;
  }

  // is_red.
  predicate NodeIsRed(h: Node?)
    reads h
  {
    h != null && h.red
  }

  // rb_insert.
  method Insert(tree: Node?, node: Node, ghost t: Tree) returns (r: Node)
    requires Is(tree, t) && Distinct(t) && node !in Nodes(t) && node.left == null && node.right == null
    modifies Nodes(t), node
    ensures Is(r, Inserted(t, node))
    ensures Distinct(Inserted(t, node)) && Nodes(Inserted(t, node)) == Nodes(t) + {node}
    decreases Count(t)
  {
    InsertedNodes(t, node);
    if tree == null {
      node.red := true;
      return node;
    }
    RotationNodes(t);
    if NodeIsRed(tree.left) && NodeIsRed(tree.right) {
      ColorFlip(tree, t);
    }
    assert Is(tree, Split(t));
    r := InsertBelow(tree, node, Split(t));
  }

  lemma {:induction false} NodesAllocated(n: Node?, t: Tree)
    requires Is(n, t)
    ensures forall o <- Nodes(t) :: allocated(o)
  {
    if t.Fork? {
      NodesAllocated(n.left, t.left);
      NodesAllocated(n.right, t.right);
    }
  }

  // After the colour flip.
  method InsertBelow(tree: Node, node: Node, ghost u: Tree) returns (r: Node)
    requires Is(tree, u) && Distinct(u) && node !in Nodes(u) && node.left == null && node.right == null
    modifies Nodes(u), node
    ensures Is(r, Fixed(if node.key < u.node.key then u.(left := Inserted(u.left, node)) else u.(right := Inserted(u.right, node))))
    decreases Count(u), 0
  {
    hide Inserted, Fixed;
    assert Nodes(u) == Nodes(u.left) + {tree} + Nodes(u.right) && Is(tree.left, u.left) && Is(tree.right, u.right);
    assert Distinct(u.left) && Distinct(u.right) && tree !in Nodes(u.left) && tree !in Nodes(u.right) && Nodes(u.left) !! Nodes(u.right);
    assert node != tree && node !in Nodes(u.left) && node !in Nodes(u.right);
    NodesAllocated(tree, u);
    if node.key < tree.key {
      ghost var v := u.(left := Inserted(u.left, node));
      ghost var other := tree.right;
      var l := Insert(tree.left, node, u.left);
      assert tree.right == other && Is(other, u.right);
      assert Is(tree.right, u.right);
      tree.left := l;
      assert Is(tree.right, u.right) && Is(tree.left, v.left);
      assert Is(tree, v) && Distinct(v);
      r := Fix(tree, v);
    } else {
      ghost var v := u.(right := Inserted(u.right, node));
      ghost var other := tree.left;
      var l := Insert(tree.right, node, u.right);
      assert tree.left == other && Is(other, u.left);
      assert Is(tree.left, u.left);
      tree.right := l;
      assert Is(tree.left, u.left) && Is(tree.right, v.right);
      assert Is(tree, v) && Distinct(v);
      r := Fix(tree, v);
    }
  }

  // The rotations after the recursive call.
  method Fix(tree: Node, ghost v: Tree) returns (r: Node)
    requires Is(tree, v) && Distinct(v)
    modifies Nodes(v)
    ensures Is(r, Fixed(v))
  {
    r := tree;
    RotationNodes(v);
    if NodeIsRed(r.right) {
      r := RotateLeft(r, v);
    }
    ghost var u := Leaned(v);
    assert Is(r, u) && Distinct(u) && Nodes(u) == Nodes(v);
    RotationNodes(u);
    assert Is(r.left, u.left);
    if u.left.Fork? {
      assert Is(r.left.left, u.left.left);
    }
    hide Leaned, RotatedLeft;
    if NodeIsRed(r.left) && NodeIsRed(r.left.left) {
      r := RotateRight(r, u);
    }
  }

  // ----- The colours -----

  // Black nodes on the leftmost path.
  function Black(t: Tree): nat {
    if t.Empty? then 0 else Black(t.left) + if t.red then 0 else 1
  }

  // Below the root: equal black counts, a red right child only beside a red left one, and
  // both subtrees proper. The root's own colour is free: rb_insert never blackens it.
  predicate Coloured(t: Tree) {
    t.Empty? || (Proper(t.left) && Proper(t.right) && Black(t.left) == Black(t.right) && (IsRed(t.right) ==> IsRed(t.left)))
  }

  // And a red node has no red child.
  predicate Proper(t: Tree) {
    t.Empty? ||
    (Proper(t.left) && Proper(t.right) && Black(t.left) == Black(t.right) && (IsRed(t.right) ==> IsRed(t.left)) &&
     (t.red ==> !IsRed(t.left) && !IsRed(t.right)))
  }

  // What an insertion below a proper tree t hands up as r.
  predicate Grown(t: Tree, r: Tree) {
    Black(r) == Black(t) && r.Fork? &&
    if t.Empty? || BothRed(t) then r.red && Proper(r)
    else if t.red then r.red && !IsRed(r.right) && Coloured(r)
    else !r.red && Proper(r)
  }

  // Black children that are no 4-nodes: what a split leaves below its red root.
  predicate Halves(u: Tree) {
    u.Fork? && u.left.Fork? && u.right.Fork? && !IsRed(u.left) && !IsRed(u.right) && !BothRed(u.left) && !BothRed(u.right)
  }

  lemma SplitColours(t: Tree)
    requires Coloured(t) && t.Fork?
    ensures var u := Split(t); Coloured(u) && !BothRed(u) && (BothRed(t) ==> u.red == !t.red && Halves(u))
    ensures Proper(t) ==> Proper(Split(t)) && Black(Split(t)) == Black(t)
  {}

  // What the rotations make of u, one of whose children has taken in a node.
  predicate Mended(u: Tree, v: Tree) {
    u.Fork? && v.Fork? && Coloured(v) &&
    (Proper(u) ==> Black(v) == Black(u) && v.red == u.red && if u.red && !Halves(u) then !IsRed(v.right) else Proper(v))
  }

  // On the left only a right rotation can be due.
  lemma FixLeft(u: Tree, l: Tree)
    requires Coloured(u) && u.Fork? && !BothRed(u) && Grown(u.left, l)
    ensures Mended(u, Fixed(u.(left := l)))
  {}

  // On the right a left rotation, and after it a right rotation.
  lemma FixRight(u: Tree, r: Tree)
    requires Coloured(u) && u.Fork? && !BothRed(u) && Grown(u.right, r)
    ensures Mended(u, Fixed(u.(right := r)))
  {}

  // An insertion keeps the colours; below the root it keeps the black count and hands up a
  // red root only from an empty tree, a 4-node or a red one.
  lemma {:induction false} InsertedColours(t: Tree, n: Node)
    requires Coloured(t)
    ensures Coloured(Inserted(t, n)) && (Proper(t) ==> Grown(t, Inserted(t, n)))
    decreases Count(t)
  {
    if t.Fork? {
      var u := Split(t);
      SplitColours(t);
      assert u.red == (if BothRed(t) then !t.red else t.red);
      hide Split, Fixed;
      if n.key < u.node.key {
        InsertedColours(u.left, n);
        FixLeft(u, Inserted(u.left, n));
      } else {
        InsertedColours(u.right, n);
        FixRight(u, Inserted(u.right, n));
      }
    }
  }

  // ----- The order -----

  function InOrder(t: Tree): seq<Node> {
    if t.Empty? then [] else InOrder(t.left) + [t.node] + InOrder(t.right)
  }

  predicate Sorted(s: seq<Node>) {
    forall i, j :: 0 <= i < j < |s| ==> s[i].key <= s[j].key
  }

  // n after all nodes whose key is not greater.
  function Placed(s: seq<Node>, n: Node): seq<Node> {
    if s == [] then [n]
    else if n.key < s[|s| - 1].key then Placed(s[..|s| - 1], n) + [s[|s| - 1]] else s + [n]
  }

  lemma SortedAppend(s: seq<Node>, n: Node)
    requires Sorted(s) && forall m <- s :: m.key <= n.key
    ensures Sorted(s + [n])
  {}

  lemma SortedFront(s: seq<Node>)
    requires Sorted(s) && s != []
    ensures Sorted(s[..|s| - 1]) && forall m <- s[..|s| - 1] :: m.key <= s[|s| - 1].key
  {}

  lemma {:induction false} PlacedBag(s: seq<Node>, n: Node)
    ensures multiset(Placed(s, n)) == multiset(s) + multiset{n}
  {
    if s != [] && n.key < s[|s| - 1].key {
      assert s == s[..|s| - 1] + [s[|s| - 1]];
      PlacedBag(s[..|s| - 1], n);
    }
  }

  // A sorted sequence stays sorted and gains just n.
  lemma {:induction false} PlacedSorted(s: seq<Node>, n: Node)
    requires Sorted(s)
    ensures Sorted(Placed(s, n)) && multiset(Placed(s, n)) == multiset(s) + multiset{n}
  {
    PlacedBag(s, n);
    if s != [] {
      var front, last := s[..|s| - 1], s[|s| - 1];
      SortedFront(s);
      if n.key < last.key {
        PlacedSorted(front, n);
        forall m | m in Placed(front, n) ensures m.key <= last.key {
          assert m in multiset(Placed(front, n));
        }
        hide Sorted, Placed;
        SortedAppend(Placed(front, n), last);
        assert Placed(s, n) == Placed(front, n) + [last] by { PlacedStep(s, n); }
      } else {
        forall m | m in s ensures m.key <= n.key {
          assert m == last || m in front;
        }
        SortedAppend(s, n);
      }
    }
  }

  lemma PlacedStep(s: seq<Node>, n: Node)
    requires s != [] && n.key < s[|s| - 1].key
    ensures Placed(s, n) == Placed(s[..|s| - 1], n) + [s[|s| - 1]]
  {}

  lemma {:induction false} PlacedLeft(a: seq<Node>, b: seq<Node>, n: Node)
    requires b != [] && n.key < b[0].key && Sorted(b)
    ensures Placed(a + b, n) == Placed(a, n) + b
  {
    var s := a + b;
    assert s[|s| - 1] == b[|b| - 1] && s[..|s| - 1] == a + b[..|b| - 1];
    if |b| == 1 {
      assert a + b[..0] == a;
    } else {
      PlacedLeft(a, b[..|b| - 1], n);
      assert Placed(a, n) + b[..|b| - 1] + [b[|b| - 1]] == Placed(a, n) + b;
    }
  }

  lemma {:induction false} PlacedRight(a: seq<Node>, b: seq<Node>, n: Node)
    requires a != [] && a[|a| - 1].key <= n.key
    ensures Placed(a + b, n) == a + Placed(b, n)
  {
    if b == [] {
      assert a + b == a;
    } else {
      var s := a + b;
      assert s[|s| - 1] == b[|b| - 1] && s[..|s| - 1] == a + b[..|b| - 1];
      PlacedRight(a, b[..|b| - 1], n);
      assert a + Placed(b[..|b| - 1], n) + [b[|b| - 1]] == a + (Placed(b[..|b| - 1], n) + [b[|b| - 1]]);
      assert s + [n] == a + (b + [n]);
    }
  }

  // Rotations and colour flips do not change the order.
  lemma FixedOrder(t: Tree)
    requires t.Fork?
    ensures InOrder(Fixed(t)) == InOrder(t) && InOrder(Split(t)) == InOrder(t)
  {
    RotatedOrder(t);
    RotatedOrder(Leaned(t));
    hide InOrder;
  }

  lemma Regroup(a: seq<Node>, m: Node, b: seq<Node>, n: Node, c: seq<Node>)
    ensures a + [m] + b + [n] + c == a + [m] + (b + [n] + c)
  {}

  lemma RotatedOrder(t: Tree)
    requires t.Fork?
    ensures t.right.Fork? ==> InOrder(RotatedLeft(t)) == InOrder(t)
    ensures t.left.Fork? ==> InOrder(RotatedRight(t)) == InOrder(t)
    ensures InOrder(Split(t)) == InOrder(t)
  {
    if t.right.Fork? {
      Regroup(InOrder(t.left), t.node, InOrder(t.right.left), t.right.node, InOrder(t.right.right));
    }
    if t.left.Fork? {
      Regroup(InOrder(t.left.left), t.left.node, InOrder(t.left.right), t.node, InOrder(t.right));
    }
  }

  lemma PlacedAt(a: seq<Node>, m: Node, b: seq<Node>, n: Node)
    requires Sorted(a + [m] + b)
    ensures Sorted(a) && Sorted(b)
    ensures Placed(a + [m] + b, n) == if n.key < m.key then Placed(a, n) + [m] + b else a + [m] + Placed(b, n)
  {
    SortedParts(a, m, b);
    assert a + [m] + b == a + ([m] + b);
    if n.key < m.key {
      PlacedLeft(a, [m] + b, n);
      assert Placed(a, n) + ([m] + b) == Placed(a, n) + [m] + b;
    } else {
      PlacedRight(a + [m], b, n);
    }
  }

  // An insertion puts the new node after all nodes whose key is not greater.
  lemma {:induction false} InsertedOrder(t: Tree, n: Node)
    requires Sorted(InOrder(t))
    ensures InOrder(Inserted(t, n)) == Placed(InOrder(t), n)
    decreases Count(t)
  {
    if t.Fork? {
      var u := Split(t);
      FixedOrder(t);
      assert InOrder(t) == InOrder(u.left) + [u.node] + InOrder(u.right);
      hide Split, Fixed, Sorted, Placed;
      PlacedAt(InOrder(u.left), u.node, InOrder(u.right), n);
      if n.key < u.node.key {
        InsertedOrder(u.left, n);
        FixedOrder(u.(left := Inserted(u.left, n)));
      } else {
        InsertedOrder(u.right, n);
        FixedOrder(u.(right := Inserted(u.right, n)));
      }
    }
  }

  lemma SortedParts(a: seq<Node>, n: Node, b: seq<Node>)
    requires Sorted(a + [n] + b)
    ensures Sorted(a) && Sorted([n] + b) && Sorted(b)
    ensures (forall m <- a :: m.key <= n.key) && (forall m <- b :: n.key <= m.key)
  {
    var s := a + [n] + b;
    assert s[|a|] == n && s[..|a|] == a && s[|a|..] == [n] + b && s[|a| + 1..] == b;
    SortedSlice(s, 0, |a|);
    SortedSlice(s, |a|, |s|);
    SortedSlice(s, |a| + 1, |s|);
    forall m | m in a ensures m.key <= n.key {
      var i :| 0 <= i < |a| && a[i] == m;
      assert s[i] == m;
    }
    forall m | m in b ensures n.key <= m.key {
      var i :| 0 <= i < |b| && b[i] == m;
      assert s[|a| + 1 + i] == m;
    }
  }

  lemma SortedSlice(s: seq<Node>, i: nat, j: nat)
    requires Sorted(s) && i <= j <= |s|
    ensures Sorted(s[i..j])
  {}

  // ----- The depth -----

  function Height(t: Tree): nat {
    if t.Empty? then 0 else 1 + if Height(t.left) <= Height(t.right) then Height(t.right) else Height(t.left)
  }

  lemma {:induction false} ProperDepth(t: Tree)
    requires Proper(t)
    ensures Height(t) <= 2 * Black(t) + (if IsRed(t) then 1 else 0)
    ensures Pow2(Black(t)) <= Count(t) + 1
  {
    if t.Fork? {
      ProperDepth(t.left);
      ProperDepth(t.right);
    }
  }

  // At most twice the logarithm of the number of nodes.
  lemma LogarithmicDepth(t: Tree)
    requires Coloured(t)
    ensures Pow2((Height(t) + 1) / 2) <= 2 * (Count(t) + 1) && Pow2(Height(t) / 2) <= Count(t) + 1
  {
    if t.Fork? {
      ProperDepth(t.left);
      ProperDepth(t.right);
      var b := Black(t.left);
      assert Pow2(b + 1) == 2 * Pow2(b);
      assert Height(t) <= 2 * (b + 1);
      hide Pow2, Height;
      Pow2Monotone(Height(t) / 2, b + 1);
      Pow2Monotone((Height(t) + 1) / 2, b + 1);
    }
  }

  // ----- Whole runs -----

  // The tree after inserting ns one after the other.
  function Built(ns: seq<Node>): Tree {
    if ns == [] then Empty else Inserted(Built(ns[..|ns| - 1]), ns[|ns| - 1])
  }

  lemma {:induction false} InOrderCount(t: Tree)
    ensures |InOrder(t)| == Count(t)
  {
    if t.Fork? {
      InOrderCount(t.left);
      InOrderCount(t.right);
    }
  }

  // Every run of insertions leaves a tree of logarithmic depth with exactly the inserted
  // nodes, in order.
  lemma {:induction false} EveryRun(ns: seq<Node>)
    ensures Coloured(Built(ns)) && Sorted(InOrder(Built(ns))) && multiset(InOrder(Built(ns))) == multiset(ns)
    ensures Pow2(Height(Built(ns)) / 2) <= |ns| + 1
  {
    if ns != [] {
      var front, n := ns[..|ns| - 1], ns[|ns| - 1];
      assert ns == front + [n];
      EveryRun(front);
      hide Inserted, Sorted, Coloured, InOrder, Placed, Height;
      InsertedColours(Built(front), n);
      InsertedOrder(Built(front), n);
      PlacedSorted(InOrder(Built(front)), n);
    }
    var t := Built(ns);
    LogarithmicDepth(t);
    InOrderCount(t);
    assert |InOrder(t)| == |multiset(InOrder(t))| == |multiset(ns)| == |ns|;
  }

  // The root's colour is not part of it: two insertions can leave a red root with a red child.
  lemma RedRoot(a: Node, b: Node)
    requires b.key < a.key
    ensures Built([a, b]).red && IsRed(Built([a, b]).left) && !Proper(Built([a, b]))
  {
    assert [a, b][..1] == [a] && [a][..0] == [];
    assert Built([]) == Empty && Built([a]) == Inserted(Empty, a) == Fork(Empty, a, true, Empty);
    assert Inserted(Empty, b) == Fork(Empty, b, true, Empty);
  }

  // ----- The search -----

  // best is the node of greatest key up to key, null for none.
  predicate IsFloor(s: seq<Node>, key: int, best: Node?) {
    if best == null then forall m <- s :: key < m.key
    else best in s && best.key <= key && forall m <- s :: m.key <= key ==> m.key <= best.key
  }

  // What remains to be searched, and the best so far.
  predicate Searching(s: seq<Node>, rest: seq<Node>, key: int, best: Node?) {
    Sorted(rest) && (forall m <- rest :: m in s) && (best != null ==> best in s && best.key <= key) &&
    forall m <- s :: m.key <= key ==> m in rest || (best != null && m.key <= best.key)
  }

  lemma SearchStep(s: seq<Node>, a: seq<Node>, n: Node, b: seq<Node>, key: int, best: Node?)
    requires Searching(s, a + [n] + b, key, best)
    requires best != null ==> forall m <- a + [n] + b :: best.key <= m.key
    ensures Sorted(a) && Sorted(b)
    ensures n.key == key ==> IsFloor(s, key, n)
    ensures n.key > key ==> Searching(s, a, key, best) && (best != null ==> forall m <- a :: best.key <= m.key)
    ensures n.key < key ==> Searching(s, b, key, n) && forall m <- b :: n.key <= m.key
  {
    SortedParts(a, n, b);
    assert n in a + [n] + b;
    forall m | m in a || m in b ensures m in a + [n] + b {}
    forall m | m in a + [n] + b ensures m in a || m == n || m in b {}
    hide Sorted;
  }

  // rb_search.
  method Search(tree: Node?, key: int, ghost t: Tree) returns (best: Node?)
    requires Is(tree, t) && Sorted(InOrder(t))
    ensures IsFloor(InOrder(t), key, best)
  {
    var p := tree;
    ghost var s := t;
    best := null;
    while p != null
      invariant Is(p, s)
      invariant Searching(InOrder(t), InOrder(s), key, best)
      invariant best != null ==> forall m <- InOrder(s) :: best.key <= m.key
      decreases s
    {
      hide Searching, IsFloor, Sorted;
      SearchStep(InOrder(t), InOrder(s.left), s.node, InOrder(s.right), key, best);
      if p.key == key {
        return p;
      } else if p.key > key {
        p, s := p.left, s.left;
      } else {
        best := p;
        p, s := p.right, s.right;
      }
    }
  }
}
