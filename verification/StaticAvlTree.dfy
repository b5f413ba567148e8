/** The balanced search tree in a fixed array of nodes, used before the heap exists. Live nodes are
    linked by index; unused nodes form a free list through their left links. */
module StaticAvlTree {
  import opened AvlTree
  import opened Options
  import opened Numbers

  datatype AvlNode = AvlNode(key: nat, value: nat, left: Option<nat>, right: Option<nat>, height: int)

  const EMPTY := AvlNode(0, 0, None, None, 0)

  /** Which array slot holds each node of a tree. */
  datatype Shape = E | B(left: Shape, at: nat, right: Shape)

  ghost function Slots(s: Shape): set<nat> {
    if s.E? then {} else Slots(s.left) + {s.at} + Slots(s.right)
  }

  ghost predicate Distinct(s: Shape) {
    s.E? ||
    (&& Distinct(s.left) && Distinct(s.right) && s.at !in Slots(s.left) && s.at !in Slots(s.right)
     && Slots(s.left) !! Slots(s.right))
  }

  ghost function Root(s: Shape): Option<nat> {
    if s.E? then None else Some(s.at)
  }

  ghost predicate InArray(nodes: seq<AvlNode>, s: Shape) {
    forall i :: i in Slots(s) ==> i < |nodes|
  }

  /** The links in the array follow the shape. */
  ghost predicate Linked(nodes: seq<AvlNode>, s: Shape) {
    s.E? ||
    (&& s.at < |nodes| && nodes[s.at].left == Root(s.left) && nodes[s.at].right == Root(s.right)
     && Linked(nodes, s.left) && Linked(nodes, s.right))
  }

  /** The tree that the array holds in this shape. */
  ghost function View(nodes: seq<AvlNode>, s: Shape): Tree
    requires Linked(nodes, s)
  {
    if s.E? then Leaf
    else var n := nodes[s.at]; Node(View(nodes, s.left), n.key, n.value, n.height, View(nodes, s.right))
  }

  /** Writes outside a tree's slots do not change it. */
  lemma {:induction false} Frame(nodes: seq<AvlNode>, nodes': seq<AvlNode>, s: Shape)
    requires Linked(nodes, s) && |nodes'| == |nodes|
    requires forall i :: i in Slots(s) ==> i < |nodes| && nodes'[i] == nodes[i]
    ensures Linked(nodes', s) && View(nodes', s) == View(nodes, s)
  {
    if s.B? {
      Frame(nodes, nodes', s.left);
      Frame(nodes, nodes', s.right);
    }
  }

  lemma {:induction s} LinkedInArray(nodes: seq<AvlNode>, s: Shape)
    requires Linked(nodes, s)
    ensures InArray(nodes, s)
  {
  }

  /** A shape together with an array that holds it. */
  ghost predicate Holds(nodes: seq<AvlNode>, s: Shape, t: Tree) {
    Distinct(s) && Linked(nodes, s) && View(nodes, s) == t
  }

  // ---- the in-place steps, on the contents of the array ----

  function HeightAt(nodes: seq<AvlNode>, i: Option<nat>): int
    requires i.Some? ==> i.value < |nodes|
  {
    if i.Some? then nodes[i.value].height else 0
  }

  /** The links of node `i` stay inside the array. */
  predicate LinksIn(nodes: seq<AvlNode>, i: nat) {
    && i < |nodes|
    && (nodes[i].left.Some? ==> nodes[i].left.value < |nodes|)
    && (nodes[i].right.Some? ==> nodes[i].right.value < |nodes|)
  }

  function Recomputed(nodes: seq<AvlNode>, i: nat): seq<AvlNode>
    requires LinksIn(nodes, i)
  {
    nodes[i := nodes[i].(height := Max(HeightAt(nodes, nodes[i].left), HeightAt(nodes, nodes[i].right)) + 1)]
  }

  lemma ViewRoot(nodes: seq<AvlNode>, s: Shape, t: Tree)
    requires Holds(nodes, s, t)
    ensures t.Leaf? <==> s.E?
    ensures s.B? ==>
              && LinksIn(nodes, s.at) && nodes[s.at].key == t.key && nodes[s.at].value == t.value
              && Holds(nodes, s.left, t.left) && Holds(nodes, s.right, t.right)
              && nodes[s.at].left == Root(s.left) && nodes[s.at].right == Root(s.right)
              && HeightAt(nodes, nodes[s.at].left) == Height(t.left)
              && HeightAt(nodes, nodes[s.at].right) == Height(t.right)
  {
    if s.B? {
      assert s.left.B? ==> s.left.at < |nodes| && Height(View(nodes, s.left)) == nodes[s.left.at].height;
      assert s.right.B? ==> s.right.at < |nodes| && Height(View(nodes, s.right)) == nodes[s.right.at].height;
    }
  }

  /** Only the left subtree changed, in its own slots. */
  lemma LeftChanged(nodes: seq<AvlNode>, nodes': seq<AvlNode>, s: Shape, t: Tree, tl: Tree)
    requires s.B? && Holds(nodes, s, t) && Holds(nodes', s.left, tl) && |nodes'| == |nodes|
    requires forall i :: 0 <= i < |nodes| && i !in Slots(s.left) ==> nodes'[i] == nodes[i]
    ensures Holds(nodes', s, t.(left := tl))
  {
    LinkedInArray(nodes, s.right);
    Frame(nodes, nodes', s.right);
  }

  lemma RightChanged(nodes: seq<AvlNode>, nodes': seq<AvlNode>, s: Shape, t: Tree, tr: Tree)
    requires s.B? && Holds(nodes, s, t) && Holds(nodes', s.right, tr) && |nodes'| == |nodes|
    requires forall i :: 0 <= i < |nodes| && i !in Slots(s.right) ==> nodes'[i] == nodes[i]
    ensures Holds(nodes', s, t.(right := tr))
  {
    LinkedInArray(nodes, s.left);
    Frame(nodes, nodes', s.left);
  }

  /** A node written over two subtrees that its slot is not part of. */
  lemma Compose(nodes: seq<AvlNode>, l: Shape, tl: Tree, i: nat, n: AvlNode, r: Shape, tr: Tree)
    requires Holds(nodes, l, tl) && Holds(nodes, r, tr) && i < |nodes|
    requires i !in Slots(l) && i !in Slots(r) && Slots(l) !! Slots(r)
    requires n.left == Root(l) && n.right == Root(r)
    ensures Holds(nodes[i := n], B(l, i, r), Node(tl, n.key, n.value, n.height, tr))
  {
    LinkedInArray(nodes, l);
    LinkedInArray(nodes, r);
    Frame(nodes, nodes[i := n], l);
    Frame(nodes, nodes[i := n], r);
  }

  lemma RecomputedFixes(nodes: seq<AvlNode>, s: Shape, t: Tree)
    requires s.B? && Holds(nodes, s, t)
    ensures LinksIn(nodes, s.at) && Holds(Recomputed(nodes, s.at), s, Fix(t))
  {
    ViewRoot(nodes, s, t);
    Compose(nodes, s.left, t.left, s.at, Recomputed(nodes, s.at)[s.at], s.right, t.right);
  }

  ghost function TurnLeft(s: Shape): Shape
    requires s.B? && s.right.B?
  {
    B(B(s.left, s.at, s.right.left), s.right.at, s.right.right)
  }

  ghost function TurnRight(s: Shape): Shape
    requires s.B? && s.left.B?
  {
    B(s.left.left, s.left.at, B(s.left.right, s.at, s.right))
  }

  /** The two link writes of a left rotation. */
  function LinksLeft(nodes: seq<AvlNode>, x: nat): (r: seq<AvlNode>)
    requires LinksIn(nodes, x) && nodes[x].right.Some? && nodes[x].right != Some(x)
    ensures |r| == |nodes|
  {
    var y := nodes[x].right.value;
    nodes[y := nodes[y].(left := Some(x))][x := nodes[x].(right := nodes[y].left)]
  }

  function LinksRight(nodes: seq<AvlNode>, y: nat): (r: seq<AvlNode>)
    requires LinksIn(nodes, y) && nodes[y].left.Some? && nodes[y].left != Some(y)
    ensures |r| == |nodes|
  {
    var x := nodes[y].left.value;
    nodes[x := nodes[x].(right := Some(y))][y := nodes[y].(left := nodes[x].right)]
  }

  /** After the link writes, the two height updates complete the rotation. */
  lemma RotatedLeft(nodes: seq<AvlNode>, s: Shape, t: Tree)
    requires s.B? && s.right.B? && Holds(nodes, s, t)
    ensures var x, y := s.at, s.right.at;
            && t.right.Node? && LinksIn(nodes, x) && nodes[x].right == Some(y) && x != y
            && LinksIn(LinksLeft(nodes, x), x) && LinksIn(Recomputed(LinksLeft(nodes, x), x), y)
            && Holds(Recomputed(Recomputed(LinksLeft(nodes, x), x), y), TurnLeft(s), RotateLeft(t))
  {
    var x, y := s.at, s.right.at;
    ViewRoot(nodes, s, t);
    ViewRoot(nodes, s.right, t.right);
    var n1 := LinksLeft(nodes, x);
    var nx := nodes[x := n1[x]];
    var inner, tx := B(s.left, x, s.right.left), t.(right := t.right.left);
    Compose(nodes, s.left, t.left, x, n1[x], s.right.left, t.right.left);
    LinkedInArray(nodes, s.right.right);
    Frame(nodes, nx, s.right.right);
    Compose(nx, inner, tx, y, n1[y], s.right.right, t.right.right);
    assert n1 == nx[y := n1[y]];
    FinishLeft(n1, TurnLeft(s), t.right.(left := tx));
  }

  /** Recomputing the height of the left child and then of the root. */
  lemma FinishLeft(nodes: seq<AvlNode>, s: Shape, t: Tree)
    requires s.B? && s.left.B? && Holds(nodes, s, t)
    ensures t.left.Node? && LinksIn(nodes, s.left.at) && LinksIn(Recomputed(nodes, s.left.at), s.at)
    ensures Holds(Recomputed(Recomputed(nodes, s.left.at), s.at), s, Fix(t.(left := Fix(t.left))))
  {
    ViewRoot(nodes, s, t);
    ViewRoot(nodes, s.left, t.left);
    RecomputedFixes(nodes, s.left, t.left);
    var n2 := Recomputed(nodes, s.left.at);
    LeftChanged(nodes, n2, s, t, Fix(t.left));
    RecomputedFixes(n2, s, t.(left := Fix(t.left)));
  }

  lemma FinishRight(nodes: seq<AvlNode>, s: Shape, t: Tree)
    requires s.B? && s.right.B? && Holds(nodes, s, t)
    ensures t.right.Node? && LinksIn(nodes, s.right.at) && LinksIn(Recomputed(nodes, s.right.at), s.at)
    ensures Holds(Recomputed(Recomputed(nodes, s.right.at), s.at), s, Fix(t.(right := Fix(t.right))))
  {
    ViewRoot(nodes, s, t);
    ViewRoot(nodes, s.right, t.right);
    RecomputedFixes(nodes, s.right, t.right);
    var n2 := Recomputed(nodes, s.right.at);
    RightChanged(nodes, n2, s, t, Fix(t.right));
    RecomputedFixes(n2, s, t.(right := Fix(t.right)));
  }

  lemma RotatedRight(nodes: seq<AvlNode>, s: Shape, t: Tree)
    requires s.B? && s.left.B? && Holds(nodes, s, t)
    ensures var y, x := s.at, s.left.at;
            && t.left.Node? && LinksIn(nodes, y) && nodes[y].left == Some(x) && x != y
            && LinksIn(LinksRight(nodes, y), y) && LinksIn(Recomputed(LinksRight(nodes, y), y), x)
            && Holds(Recomputed(Recomputed(LinksRight(nodes, y), y), x), TurnRight(s), RotateRight(t))
  {
    var y, x := s.at, s.left.at;
    ViewRoot(nodes, s, t);
    ViewRoot(nodes, s.left, t.left);
    var n1 := LinksRight(nodes, y);
    var ny := nodes[y := n1[y]];
    var inner, ty := B(s.left.right, y, s.right), t.(left := t.left.right);
    Compose(nodes, s.left.right, t.left.right, y, n1[y], s.right, t.right);
    LinkedInArray(nodes, s.left.left);
    Frame(nodes, ny, s.left.left);
    Compose(ny, s.left.left, t.left.left, x, n1[x], inner, ty);
    assert n1 == ny[x := n1[x]];
    FinishRight(n1, TurnRight(s), t.left.(right := ty));
  }

  lemma TurnsKeepSlots(s: Shape)
    requires s.B?
    ensures s.right.B? ==> Slots(TurnLeft(s)) == Slots(s)
    ensures s.left.B? ==> Slots(TurnRight(s)) == Slots(s)
  {
    if s.right.B? {
      assert Slots(s.right) == Slots(s.right.left) + {s.right.at} + Slots(s.right.right);
      assert Slots(TurnLeft(s).left) == Slots(s.left) + {s.at} + Slots(s.right.left);
    }
    if s.left.B? {
      assert Slots(s.left) == Slots(s.left.left) + {s.left.at} + Slots(s.left.right);
      assert Slots(TurnRight(s).right) == Slots(s.left.right) + {s.at} + Slots(s.right);
    }
  }

  /** Nothing outside these slots changed. */
  ghost predicate SameOutside(nodes: seq<AvlNode>, nodes': seq<AvlNode>, slots: set<nat>) {
    |nodes'| == |nodes| && forall i: nat :: i < |nodes| && i !in slots ==> nodes'[i] == nodes[i]
  }

  /** These slots did not change. */
  ghost predicate Kept(nodes: seq<AvlNode>, nodes': seq<AvlNode>, slots: set<nat>) {
    |nodes'| == |nodes| && forall i: nat :: i < |nodes| && i in slots ==> nodes'[i] == nodes[i]
  }

  /** A changed left subtree is linked under its parent again. */
  lemma RelinkLeft(nodes: seq<AvlNode>, nodes': seq<AvlNode>, s: Shape, t: Tree, l: Shape, tl: Tree)
    requires s.B? && Holds(nodes, s, t) && Holds(nodes', l, tl) && Kept(nodes, nodes', {s.at} + Slots(s.right))
    requires s.at !in Slots(l) && Slots(l) !! Slots(s.right)
    ensures Holds(nodes'[s.at := nodes'[s.at].(left := Root(l))], B(l, s.at, s.right), t.(left := tl))
  {
    LinkedInArray(nodes, s.right);
    Frame(nodes, nodes', s.right);
    Compose(nodes', l, tl, s.at, nodes'[s.at].(left := Root(l)), s.right, t.right);
  }

  lemma RelinkRight(nodes: seq<AvlNode>, nodes': seq<AvlNode>, s: Shape, t: Tree, r: Shape, tr: Tree)
    requires s.B? && Holds(nodes, s, t) && Holds(nodes', r, tr) && Kept(nodes, nodes', {s.at} + Slots(s.left))
    requires s.at !in Slots(r) && Slots(r) !! Slots(s.left)
    ensures Holds(nodes'[s.at := nodes'[s.at].(right := Root(r))], B(s.left, s.at, r), t.(right := tr))
  {
    LinkedInArray(nodes, s.left);
    Frame(nodes, nodes', s.left);
    Compose(nodes', s.left, t.left, s.at, nodes'[s.at].(right := Root(r)), r, tr);
  }

  /** The root takes over its successor's entry. */
  lemma Successor(nodes: seq<AvlNode>, nodes': seq<AvlNode>, s: Shape, t: Tree, r: Shape, tr: Tree, n: AvlNode)
    requires s.B? && Holds(nodes, s, t) && Holds(nodes', r, tr) && Kept(nodes, nodes', {s.at} + Slots(s.left))
    requires s.at !in Slots(r) && Slots(r) !! Slots(s.left)
    ensures Holds(nodes'[s.at := nodes'[s.at].(key := n.key, value := n.value, right := Root(r))], B(s.left, s.at, r),
                  t.(key := n.key, value := n.value, right := tr))
  {
    LinkedInArray(nodes, s.left);
    Frame(nodes, nodes', s.left);
    var node := nodes'[s.at].(key := n.key, value := n.value, right := Root(r));
    Compose(nodes', s.left, t.left, s.at, node, r, tr);
  }

  // ---- the pool of unused nodes ----

  /** The free list: `spare` lists the slots that the left links string together. */
  ghost predicate Chain(nodes: seq<AvlNode>, free: Option<nat>, spare: seq<nat>)
    decreases spare
  {
    if spare == [] then free.None?
    else
      && free == Some(spare[0]) && spare[0] < |nodes| && spare[0] !in spare[1..]
      && Chain(nodes, nodes[spare[0]].left, spare[1..])
  }

  lemma {:induction false} ChainFrame(nodes: seq<AvlNode>, nodes': seq<AvlNode>, free: Option<nat>, spare: seq<nat>)
    requires Chain(nodes, free, spare) && |nodes'| == |nodes|
    requires forall i :: i in spare && i < |nodes| ==> nodes'[i] == nodes[i]
    ensures Chain(nodes', free, spare)
    decreases spare
  {
    if spare != [] {
      ChainFrame(nodes, nodes', nodes[spare[0]].left, spare[1..]);
    }
  }

  /** Every slot below the watermark is either live or on the free list, and never both. */
  ghost predicate Pool(nodes: seq<AvlNode>, free: Option<nat>, initialized: nat, spare: seq<nat>, live: set<nat>) {
    && Chain(nodes, free, spare) && initialized <= |nodes|
    && (forall i :: i in live ==> i < initialized && i !in spare)
    && (forall i :: i in spare ==> i < initialized)
    && (forall i: nat :: i < initialized ==> i in live || i in spare)
  }

  lemma PoolKeeps(nodes: seq<AvlNode>, nodes': seq<AvlNode>, free: Option<nat>, initialized: nat, spare: seq<nat>,
                  live: set<nat>, changed: set<nat>)
    requires Pool(nodes, free, initialized, spare, live) && SameOutside(nodes, nodes', changed) && changed <= live
    ensures Pool(nodes', free, initialized, spare, live)
  {
    ChainFrame(nodes, nodes', free, spare);
  }

  lemma PoolPops(nodes: seq<AvlNode>, free: Option<nat>, initialized: nat, spare: seq<nat>, live: set<nat>, n: AvlNode)
    requires Pool(nodes, free, initialized, spare, live) && free.Some?
    ensures spare != [] && spare[0] == free.value && free.value < |nodes| && free.value !in live
    ensures Pool(nodes[free.value := n], nodes[free.value].left, initialized, spare[1..], live + {free.value})
  {
    ChainFrame(nodes, nodes[free.value := n], nodes[free.value].left, spare[1..]);
    assert spare == [free.value] + spare[1..];
    assert forall i :: i in spare <==> i == free.value || i in spare[1..];
  }

  lemma PoolGrows(nodes: seq<AvlNode>, initialized: nat, spare: seq<nat>, live: set<nat>, n: AvlNode)
    requires Pool(nodes, None, initialized, spare, live) && initialized < |nodes|
    ensures spare == [] && initialized !in live
    ensures Pool(nodes[initialized := n], None, initialized + 1, [], live + {initialized})
  {
  }

  lemma PoolTakesBack(nodes: seq<AvlNode>, free: Option<nat>, initialized: nat, spare: seq<nat>, live: set<nat>, i: nat)
    requires Pool(nodes, free, initialized, spare, live) && i in live
    ensures Pool(nodes[i := EMPTY.(left := free)], Some(i), initialized, [i] + spare, live - {i})
  {
    var nodes' := nodes[i := EMPTY.(left := free)];
    ChainFrame(nodes, nodes', free, spare);
    assert ([i] + spare)[1..] == spare;
  }

  lemma SlotCount(nodes: seq<AvlNode>, s: Shape)
    requires Distinct(s) && Linked(nodes, s)
    ensures |Slots(s)| == Size(View(nodes, s))
  {
    if s.B? {
      SlotCount(nodes, s.left);
      SlotCount(nodes, s.right);
    }
  }

  /** The pool is exhausted exactly when the tree has as many entries as there are nodes. */
  lemma Fullness(nodes: seq<AvlNode>, free: Option<nat>, initialized: nat, spare: seq<nat>, s: Shape)
    requires Pool(nodes, free, initialized, spare, Slots(s)) && Distinct(s) && Linked(nodes, s)
    requires Ordered(View(nodes, s))
    ensures spare == [] && initialized == |nodes| <==> |Contents(View(nodes, s))| == |nodes|
    ensures |Contents(View(nodes, s))| <= |nodes|
  {
    SlotCount(nodes, s);
    SizeIsCount(View(nodes, s));
    var all := UpTo(|nodes|);
    SubsetCount(Slots(s), all);
    if spare == [] && initialized == |nodes| {
      assert Slots(s) == all;
    } else if spare != [] {
      assert spare[0] in all && spare[0] !in Slots(s);
    } else {
      assert initialized in all && initialized !in Slots(s);
    }
  }

  ghost function UpTo(n: nat): (r: set<nat>)
    ensures |r| == n && forall i :: i in r <==> 0 <= i < n
  {
    if n == 0 then {} else UpTo(n - 1) + {n - 1}
  }

  lemma SubsetCount(a: set<nat>, b: set<nat>)
    requires a <= b
    ensures |a| <= |b| && (|a| == |b| ==> a == b)
  {
    assert b == a + (b - a);
  }

  class StaticAvl {
    var root: Option<nat>
    var free: Option<nat>
    var initialized: nat
    const nodes: array<AvlNode>
    ghost var shape: Shape
    ghost var spare: seq<nat>

    method RecomputeHeight(i: nat)
      requires LinksIn(nodes[..], i)
      modifies nodes
      ensures nodes[..] == Recomputed(old(nodes[..]), i)
    {
      var l, r := nodes[i].left, nodes[i].right;
      var leftHeight := if l.Some? then nodes[l.value].height else 0;
      var rightHeight := if r.Some? then nodes[r.value].height else 0;
      nodes[i] := nodes[i].(height := if leftHeight > rightHeight then leftHeight + 1 else rightHeight + 1);
    }

    method RotateLeft(x: nat, ghost s: Shape, ghost t: Tree) returns (y: nat)
      requires s.B? && s.right.B? && s.at == x && Holds(nodes[..], s, t)
      modifies nodes
      ensures y == s.right.at && Holds(nodes[..], TurnLeft(s), AvlTree.RotateLeft(t))
      ensures SameOutside(old(nodes[..]), nodes[..], Slots(s))
    {
      RotatedLeft(nodes[..], s, t);
      ghost var n1 := LinksLeft(nodes[..], x);
      y := nodes[x].right.value;
      var inner := nodes[y].left;
      nodes[y] := nodes[y].(left := Some(x));
      nodes[x] := nodes[x].(right := inner);
      assert nodes[..] == n1;
      RecomputeHeight(x);
      RecomputeHeight(y);
    }

    method RotateRight(y: nat, ghost s: Shape, ghost t: Tree) returns (x: nat)
      requires s.B? && s.left.B? && s.at == y && Holds(nodes[..], s, t)
      modifies nodes
      ensures x == s.left.at && Holds(nodes[..], TurnRight(s), AvlTree.RotateRight(t))
      ensures SameOutside(old(nodes[..]), nodes[..], Slots(s))
    {
      RotatedRight(nodes[..], s, t);
      ghost var n1 := LinksRight(nodes[..], y);
      x := nodes[y].left.value;
      var inner := nodes[x].right;
      nodes[x] := nodes[x].(right := Some(y));
      nodes[y] := nodes[y].(left := inner);
      assert nodes[..] == n1;
      RecomputeHeight(y);
      RecomputeHeight(x);
    }

    /** Recomputes the height of a node and rebalances it. */
    method Restore(index: nat, ghost s: Shape, ghost t: Tree) returns (top: nat, ghost s': Shape)
      requires s.B? && s.at == index && Holds(nodes[..], s, t) && Balanced(t.left) && Balanced(t.right)
      modifies nodes
      ensures s'.B? && top == s'.at && Holds(nodes[..], s', Rebalance(Fix(t))) && Slots(s') == Slots(s)
      ensures SameOutside(old(nodes[..]), nodes[..], Slots(s))
    {
      RecomputedFixes(nodes[..], s, t);
      RecomputeHeight(index);
      top, s' := Balance(index, s, Fix(t));
    }

    method BalanceFactor(index: nat, ghost s: Shape, ghost t: Tree) returns (bf: int)
      requires s.B? && s.at == index && Holds(nodes[..], s, t)
      ensures t.Node? && bf == AvlTree.BalanceFactor(t)
      ensures LinksIn(nodes[..], index) && nodes[index].left == Root(s.left) && nodes[index].right == Root(s.right)
      ensures Holds(nodes[..], s.left, t.left) && Holds(nodes[..], s.right, t.right)
    {
      ViewRoot(nodes[..], s, t);
      var l, r := nodes[index].left, nodes[index].right;
      var leftHeight := if l.Some? then nodes[l.value].height else 0;
      var rightHeight := if r.Some? then nodes[r.value].height else 0;
      bf := leftHeight - rightHeight;
    }

    method Balance(index: nat, ghost s: Shape, ghost t: Tree) returns (top: nat, ghost s': Shape)
      requires s.B? && s.at == index && Holds(nodes[..], s, t) && Balanced(t.left) && Balanced(t.right)
      modifies nodes
      ensures s'.B? && top == s'.at && Holds(nodes[..], s', Rebalance(t)) && Slots(s') == Slots(s)
      ensures SameOutside(old(nodes[..]), nodes[..], Slots(s))
    {
      var bf := BalanceFactor(index, s, t);
      HeightNonnegative(t.left);
      HeightNonnegative(t.right);
      if bf > 1 {
        top, s' := LowerLeft(index, s, t);
      } else if bf < -1 {
        top, s' := LowerRight(index, s, t);
      } else {
        top, s' := index, s;
      }
    }

    method LowerLeft(index: nat, ghost s: Shape, ghost t: Tree) returns (top: nat, ghost s': Shape)
      requires s.B? && s.at == index && Holds(nodes[..], s, t) && t.left.Node? && AvlTree.BalanceFactor(t) > 1
      requires Balanced(t.left)
      modifies nodes
      ensures s'.B? && top == s'.at && Holds(nodes[..], s', Rebalance(t)) && Slots(s') == Slots(s)
      ensures SameOutside(old(nodes[..]), nodes[..], Slots(s))
    {
      ghost var s1, t1 := s, t;
      ViewRoot(nodes[..], s, t);
      var left := nodes[index].left.value;
      var bf := BalanceFactor(left, s.left, t.left);
      if bf < 0 {
        HeightNonnegative(t.left.left);
        HeightNonnegative(t.left.right);
        ViewRoot(nodes[..], s.left.right, t.left.right);
        s1, t1 := StraightenLeft(index, left, s, t);
      }
      TurnsKeepSlots(s1);
      top := RotateRight(index, s1, t1);
      s' := TurnRight(s1);
    }

    /** The first half of a double rotation. */
    method StraightenLeft(index: nat, left: nat, ghost s: Shape, ghost t: Tree)
      returns (ghost s': Shape, ghost t': Tree)
      requires s.B? && s.at == index && Holds(nodes[..], s, t) && s.left.B? && s.left.right.B? && left == s.left.at
      modifies nodes
      ensures t.left.Node? && t' == t.(left := AvlTree.RotateLeft(t.left)) && Holds(nodes[..], s', t')
      ensures s' == s.(left := TurnLeft(s.left)) && Slots(s') == Slots(s)
      ensures SameOutside(old(nodes[..]), nodes[..], Slots(s))
    {
      ViewRoot(nodes[..], s, t);
      TurnsKeepSlots(s.left);
      var newLeft := RotateLeft(left, s.left, t.left);
      s', t' := s.(left := TurnLeft(s.left)), t.(left := AvlTree.RotateLeft(t.left));
      RelinkLeft(old(nodes[..]), nodes[..], s, t, s'.left, t'.left);
      nodes[index] := nodes[index].(left := Some(newLeft));
    }

    method LowerRight(index: nat, ghost s: Shape, ghost t: Tree) returns (top: nat, ghost s': Shape)
      requires s.B? && s.at == index && Holds(nodes[..], s, t) && t.right.Node? && AvlTree.BalanceFactor(t) < -1
      requires Balanced(t.right)
      modifies nodes
      ensures s'.B? && top == s'.at && Holds(nodes[..], s', Rebalance(t)) && Slots(s') == Slots(s)
      ensures SameOutside(old(nodes[..]), nodes[..], Slots(s))
    {
      ghost var s1, t1 := s, t;
      ViewRoot(nodes[..], s, t);
      var right := nodes[index].right.value;
      var bf := BalanceFactor(right, s.right, t.right);
      if bf > 0 {
        HeightNonnegative(t.right.left);
        HeightNonnegative(t.right.right);
        ViewRoot(nodes[..], s.right.left, t.right.left);
        s1, t1 := StraightenRight(index, right, s, t);
      }
      TurnsKeepSlots(s1);
      top := RotateLeft(index, s1, t1);
      s' := TurnLeft(s1);
    }

    /** The first half of a double rotation. */
    method StraightenRight(index: nat, right: nat, ghost s: Shape, ghost t: Tree)
      returns (ghost s': Shape, ghost t': Tree)
      requires s.B? && s.at == index && Holds(nodes[..], s, t) && s.right.B? && s.right.left.B? && right == s.right.at
      modifies nodes
      ensures t.right.Node? && t' == t.(right := AvlTree.RotateRight(t.right)) && Holds(nodes[..], s', t')
      ensures s' == s.(right := TurnRight(s.right)) && Slots(s') == Slots(s)
      ensures SameOutside(old(nodes[..]), nodes[..], Slots(s))
    {
      ViewRoot(nodes[..], s, t);
      TurnsKeepSlots(s.right);
      var newRight := RotateRight(right, s.right, t.right);
      s', t' := s.(right := TurnRight(s.right)), t.(right := AvlTree.RotateRight(t.right));
      RelinkRight(old(nodes[..]), nodes[..], s, t, s'.right, t'.right);
      nodes[index] := nodes[index].(right := Some(newRight));
    }

    /** Links a changed left subtree under its parent and restores the balance there. */
    method AttachLeft(index: nat, child: Option<nat>, ghost before: seq<AvlNode>, ghost s: Shape, ghost t: Tree,
                      ghost lower: Shape, ghost tl: Tree) returns (top: nat, ghost s': Shape)
      requires s.B? && s.at == index && Holds(before, s, t) && Holds(nodes[..], lower, tl) && child == Root(lower)
      requires Kept(before, nodes[..], {index} + Slots(s.right))
      requires index !in Slots(lower) && Slots(lower) !! Slots(s.right) && Balanced(tl) && Balanced(t.right)
      modifies nodes
      ensures s'.B? && top == s'.at && Holds(nodes[..], s', Rebalance(Fix(t.(left := tl))))
      ensures Slots(s') == Slots(lower) + {index} + Slots(s.right)
      ensures SameOutside(old(nodes[..]), nodes[..], Slots(s'))
    {
      RelinkLeft(before, nodes[..], s, t, lower, tl);
      nodes[index] := nodes[index].(left := child);
      top, s' := Restore(index, B(lower, index, s.right), t.(left := tl));
    }

    /** Links a changed right subtree under its parent and restores the balance there. */
    method AttachRight(index: nat, child: Option<nat>, ghost before: seq<AvlNode>, ghost s: Shape, ghost t: Tree,
                      ghost lower: Shape, ghost tl: Tree) returns (top: nat, ghost s': Shape)
      requires s.B? && s.at == index && Holds(before, s, t) && Holds(nodes[..], lower, tl) && child == Root(lower)
      requires Kept(before, nodes[..], {index} + Slots(s.left))
      requires index !in Slots(lower) && Slots(lower) !! Slots(s.left) && Balanced(tl) && Balanced(t.left)
      modifies nodes
      ensures s'.B? && top == s'.at && Holds(nodes[..], s', Rebalance(Fix(t.(right := tl))))
      ensures Slots(s') == Slots(lower) + {index} + Slots(s.left)
      ensures SameOutside(old(nodes[..]), nodes[..], Slots(s'))
    {
      RelinkRight(before, nodes[..], s, t, lower, tl);
      nodes[index] := nodes[index].(right := child);
      top, s' := Restore(index, B(s.left, index, lower), t.(right := tl));
    }

    // ---- insertion ----

    method AllocateNode(key: nat, value: nat, ghost live: set<nat>) returns (index: Option<nat>)
      requires Pool(nodes[..], free, initialized, spare, live)
      modifies nodes, `free, `initialized, `spare
      ensures index.None? <==> old(spare == [] && initialized == nodes.Length)
      ensures index.None? ==> nodes[..] == old(nodes[..]) && Pool(nodes[..], free, initialized, spare, live)
      ensures index.Some? ==>
                && index.value < nodes.Length && index.value !in live
                && nodes[..] == old(nodes[..])[index.value := AvlNode(key, value, None, None, 1)]
                && Pool(nodes[..], free, initialized, spare, live + {index.value})
    {
      ghost var node := AvlNode(key, value, None, None, 1);
      if free.Some? {
        PoolPops(nodes[..], free, initialized, spare, live, node);
        index := free;
        free, spare := nodes[index.value].left, spare[1..];
      } else if initialized < nodes.Length {
        PoolGrows(nodes[..], initialized, spare, live, node);
        index := Some(initialized);
        initialized := initialized + 1;
      } else {
        return None;
      }
      nodes[index.value] := AvlNode(key, value, None, None, 1);
    }

    method InsertAt(current: Option<nat>, key: nat, value: nat, ghost s: Shape, ghost t: Tree, ghost others: set<nat>)
      returns (top: Option<nat>, ghost s': Shape)
      requires current == Root(s) && Holds(nodes[..], s, t) && Avl(t) && Slots(s) !! others
      requires Pool(nodes[..], free, initialized, spare, Slots(s) + others)
      modifies nodes, `free, `initialized, `spare
      ensures top.None? <==> key !in Contents(t) && old(spare == [] && initialized == nodes.Length)
      ensures top.None? ==> nodes[..] == old(nodes[..]) && s' == s
      ensures top.Some? ==> s'.B? && top.value == s'.at && Holds(nodes[..], s', AvlTree.Insert(t, key, value))
      ensures Slots(s') !! others && Kept(old(nodes[..]), nodes[..], others)
      ensures Pool(nodes[..], free, initialized, spare, Slots(s') + others)
      decreases s
    {
      if current.None? {
        ViewRoot(nodes[..], s, t);
        top := AllocateNode(key, value, Slots(s) + others);
        if top.Some? {
          s' := B(E, top.value, E);
          assert Slots(s') + others == Slots(s) + others + {top.value};
        } else {
          s' := s;
        }
        return;
      }
      var index := current.value;
      ViewRoot(nodes[..], s, t);
      InsertCorrect(t, key, value);
      if key < nodes[index].key {
        top, s' := InsertLeft(index, key, value, s, t, others);
      } else if key > nodes[index].key {
        top, s' := InsertRight(index, key, value, s, t, others);
      } else {
        Compose(nodes[..], s.left, t.left, index, nodes[index].(value := value), s.right, t.right);
        nodes[index] := nodes[index].(value := value);
        PoolKeeps(old(nodes[..]), nodes[..], free, initialized, spare, Slots(s) + others, {index});
        top, s' := Some(index), s;
      }
    }

    method InsertLeft(index: nat, key: nat, value: nat, ghost s: Shape, ghost t: Tree, ghost others: set<nat>)
      returns (top: Option<nat>, ghost s': Shape)
      requires s.B? && s.at == index && Holds(nodes[..], s, t) && Avl(t) && Slots(s) !! others
      requires Pool(nodes[..], free, initialized, spare, Slots(s) + others) && key < t.key
      modifies nodes, `free, `initialized, `spare
      ensures top.None? <==> key !in Contents(t) && old(spare == [] && initialized == nodes.Length)
      ensures top.None? ==> nodes[..] == old(nodes[..]) && s' == s
      ensures top.Some? ==> s'.B? && top.value == s'.at && Holds(nodes[..], s', AvlTree.Insert(t, key, value))
      ensures Slots(s') !! others && Kept(old(nodes[..]), nodes[..], others)
      ensures Pool(nodes[..], free, initialized, spare, Slots(s') + others)
      decreases s, 0
    {
      hide Ordered, Balanced, Contents, View, Linked;
      ViewRoot(nodes[..], s, t);
      AvlParts(t);
      OneSide(t, key);
      InsertCorrect(t.left, key, value);
      ghost var rest := others + {index} + Slots(s.right);
      assert Slots(s) + others == Slots(s.left) + rest;
      ghost var lower;
      var child := nodes[index].left;
      top, lower := InsertAt(child, key, value, s.left, t.left, rest);
      if top.None? {
        s' := s;
        return;
      }
      ghost var mid := nodes[..];
      var above;
      above, s' := AttachLeft(index, top, old(nodes[..]), s, t, lower, AvlTree.Insert(t.left, key, value));
      top := Some(above);
      assert Slots(s') + others == Slots(lower) + rest;
      PoolKeeps(mid, nodes[..], free, initialized, spare, Slots(s') + others, Slots(s'));
    }

    method InsertRight(index: nat, key: nat, value: nat, ghost s: Shape, ghost t: Tree, ghost others: set<nat>)
      returns (top: Option<nat>, ghost s': Shape)
      requires s.B? && s.at == index && Holds(nodes[..], s, t) && Avl(t) && Slots(s) !! others
      requires Pool(nodes[..], free, initialized, spare, Slots(s) + others) && key > t.key
      modifies nodes, `free, `initialized, `spare
      ensures top.None? <==> key !in Contents(t) && old(spare == [] && initialized == nodes.Length)
      ensures top.None? ==> nodes[..] == old(nodes[..]) && s' == s
      ensures top.Some? ==> s'.B? && top.value == s'.at && Holds(nodes[..], s', AvlTree.Insert(t, key, value))
      ensures Slots(s') !! others && Kept(old(nodes[..]), nodes[..], others)
      ensures Pool(nodes[..], free, initialized, spare, Slots(s') + others)
      decreases s, 0
    {
      hide Ordered, Balanced, Contents, View, Linked;
      ViewRoot(nodes[..], s, t);
      AvlParts(t);
      OneSide(t, key);
      InsertCorrect(t.right, key, value);
      ghost var rest := others + {index} + Slots(s.left);
      assert Slots(s) + others == Slots(s.right) + rest;
      ghost var lower;
      var child := nodes[index].right;
      top, lower := InsertAt(child, key, value, s.right, t.right, rest);
      if top.None? {
        s' := s;
        return;
      }
      ghost var mid := nodes[..];
      var above;
      above, s' := AttachRight(index, top, old(nodes[..]), s, t, lower, AvlTree.Insert(t.right, key, value));
      top := Some(above);
      assert Slots(s') + others == Slots(lower) + rest;
      PoolKeeps(mid, nodes[..], free, initialized, spare, Slots(s') + others, Slots(s'));
    }

    // ---- removal ----

    method ReleaseNode(index: nat, ghost live: set<nat>)
      requires Pool(nodes[..], free, initialized, spare, live) && index in live
      modifies nodes, `free, `spare
      ensures nodes[..] == old(nodes[..])[index := nodes[index]]
      ensures Pool(nodes[..], free, initialized, spare, live - {index})
    {
      PoolTakesBack(nodes[..], free, initialized, spare, live, index);
      nodes[index] := EMPTY.(left := free);
      free, spare := Some(index), [index] + spare;
    }

    method TakeMin(index: nat, ghost s: Shape, ghost t: Tree) returns (rest: Option<nat>, min: nat, ghost s': Shape)
      requires s.B? && s.at == index && Holds(nodes[..], s, t) && Avl(t)
      modifies nodes
      ensures t.Node? && Holds(nodes[..], s', AvlTree.TakeMin(t).rest) && rest == Root(s')
      ensures min !in Slots(s') && Slots(s) == Slots(s') + {min} && min < nodes.Length
      ensures nodes[min].key == AvlTree.TakeMin(t).key && nodes[min].value == AvlTree.TakeMin(t).value
      ensures SameOutside(old(nodes[..]), nodes[..], Slots(s))
      decreases s
    {
      hide Ordered, Balanced, Contents, View, Linked;
      ViewRoot(nodes[..], s, t);
      AvlParts(t);
      if nodes[index].left.None? {
        ViewRoot(nodes[..], s.left, t.left);
        return nodes[index].right, index, s.right;
      }
      ViewRoot(nodes[..], s.left, t.left);
      ghost var lower;
      var child := nodes[index].left.value;
      rest, min, lower := TakeMin(child, s.left, t.left);
      TakeMinCorrect(t.left);
      var top;
      top, s' := AttachLeft(index, rest, old(nodes[..]), s, t, lower, AvlTree.TakeMin(t.left).rest);
      rest := Some(top);
    }

    method RemoveAt(current: Option<nat>, key: nat, ghost s: Shape, ghost t: Tree, ghost others: set<nat>)
      returns (top: Option<nat>, removed: Option<nat>, ghost s': Shape)
      requires current == Root(s) && Holds(nodes[..], s, t) && Avl(t) && Slots(s) !! others
      requires Pool(nodes[..], free, initialized, spare, Slots(s) + others)
      modifies nodes, `free, `spare
      ensures removed == AvlTree.Remove(t, key).removed
      ensures top == Root(s') && Holds(nodes[..], s', AvlTree.Remove(t, key).tree)
      ensures Slots(s') !! others && Kept(old(nodes[..]), nodes[..], others)
      ensures removed.None? ==> nodes[..] == old(nodes[..]) && s' == s
      ensures Pool(nodes[..], free, initialized, spare, Slots(s') + others)
      decreases s
    {
      ViewRoot(nodes[..], s, t);
      if current.None? {
        return None, None, s;
      }
      var index := current.value;
      if key < nodes[index].key {
        top, removed, s' := RemoveLeft(index, key, s, t, others);
      } else if key > nodes[index].key {
        top, removed, s' := RemoveRight(index, key, s, t, others);
      } else {
        removed := Some(nodes[index].value);
        top, s' := RemoveHere(index, s, t, others);
      }
    }

    method RemoveLeft(index: nat, key: nat, ghost s: Shape, ghost t: Tree, ghost others: set<nat>)
      returns (top: Option<nat>, removed: Option<nat>, ghost s': Shape)
      requires s.B? && s.at == index && Holds(nodes[..], s, t) && Avl(t) && Slots(s) !! others
      requires Pool(nodes[..], free, initialized, spare, Slots(s) + others) && key < t.key
      modifies nodes, `free, `spare
      ensures removed == AvlTree.Remove(t, key).removed
      ensures top == Root(s') && Holds(nodes[..], s', AvlTree.Remove(t, key).tree)
      ensures Slots(s') !! others && Kept(old(nodes[..]), nodes[..], others)
      ensures removed.None? ==> nodes[..] == old(nodes[..]) && s' == s
      ensures Pool(nodes[..], free, initialized, spare, Slots(s') + others)
      decreases s, 0
    {
      hide Ordered, Balanced, Contents, View, Linked;
      ViewRoot(nodes[..], s, t);
      AvlParts(t);
      RemoveCorrect(t.left, key);
      ghost var rest := others + {index} + Slots(s.right);
      assert Slots(s) + others == Slots(s.left) + rest;
      ghost var lower;
      var child := nodes[index].left;
      top, removed, lower := RemoveAt(child, key, s.left, t.left, rest);
      if removed.None? {
        return Some(index), None, s;
      }
      ghost var mid := nodes[..];
      var above;
      above, s' := AttachLeft(index, top, old(nodes[..]), s, t, lower, AvlTree.Remove(t.left, key).tree);
      top := Some(above);
      assert Slots(s') + others == Slots(lower) + rest;
      PoolKeeps(mid, nodes[..], free, initialized, spare, Slots(s') + others, Slots(s'));
    }

    method RemoveRight(index: nat, key: nat, ghost s: Shape, ghost t: Tree, ghost others: set<nat>)
      returns (top: Option<nat>, removed: Option<nat>, ghost s': Shape)
      requires s.B? && s.at == index && Holds(nodes[..], s, t) && Avl(t) && Slots(s) !! others
      requires Pool(nodes[..], free, initialized, spare, Slots(s) + others) && key > t.key
      modifies nodes, `free, `spare
      ensures removed == AvlTree.Remove(t, key).removed
      ensures top == Root(s') && Holds(nodes[..], s', AvlTree.Remove(t, key).tree)
      ensures Slots(s') !! others && Kept(old(nodes[..]), nodes[..], others)
      ensures removed.None? ==> nodes[..] == old(nodes[..]) && s' == s
      ensures Pool(nodes[..], free, initialized, spare, Slots(s') + others)
      decreases s, 0
    {
      hide Ordered, Balanced, Contents, View, Linked;
      ViewRoot(nodes[..], s, t);
      AvlParts(t);
      RemoveCorrect(t.right, key);
      ghost var rest := others + {index} + Slots(s.left);
      assert Slots(s) + others == Slots(s.right) + rest;
      ghost var lower;
      var child := nodes[index].right;
      top, removed, lower := RemoveAt(child, key, s.right, t.right, rest);
      if removed.None? {
        return Some(index), None, s;
      }
      ghost var mid := nodes[..];
      var above;
      above, s' := AttachRight(index, top, old(nodes[..]), s, t, lower, AvlTree.Remove(t.right, key).tree);
      top := Some(above);
      assert Slots(s') + others == Slots(lower) + rest;
      PoolKeeps(mid, nodes[..], free, initialized, spare, Slots(s') + others, Slots(s'));
    }

    /** Removes the node at `index` itself. */
    method RemoveHere(index: nat, ghost s: Shape, ghost t: Tree, ghost others: set<nat>)
      returns (top: Option<nat>, ghost s': Shape)
      requires s.B? && s.at == index && Holds(nodes[..], s, t) && Avl(t) && Slots(s) !! others
      requires Pool(nodes[..], free, initialized, spare, Slots(s) + others)
      modifies nodes, `free, `spare
      ensures t.Node? && top == Root(s') && Holds(nodes[..], s', AvlTree.Remove(t, t.key).tree)
      ensures Slots(s') !! others && Kept(old(nodes[..]), nodes[..], others)
      ensures Pool(nodes[..], free, initialized, spare, Slots(s') + others)
    {
      ViewRoot(nodes[..], s, t);
      ViewRoot(nodes[..], s.left, t.left);
      ViewRoot(nodes[..], s.right, t.right);
      var left, right := nodes[index].left, nodes[index].right;
      if left.None? || right.None? {
        top, s' := if left.None? then right else left, if left.None? then s.right else s.left;
        LinkedInArray(nodes[..], s');
        ReleaseNode(index, Slots(s) + others);
        Frame(old(nodes[..]), nodes[..], s');
        assert Slots(s') + others == Slots(s) + others - {index};
      } else {
        top, s' := ReplaceBySuccessor(index, right.value, s, t, others);
      }
    }

    /** A node with two children takes over the entry of its successor. */
    method ReplaceBySuccessor(index: nat, right: nat, ghost s: Shape, ghost t: Tree, ghost others: set<nat>)
      returns (top: Option<nat>, ghost s': Shape)
      requires s.B? && s.at == index && Holds(nodes[..], s, t) && Avl(t) && Slots(s) !! others
      requires s.left.B? && s.right.B? && right == s.right.at && t.left.Node? && t.right.Node?
      requires Pool(nodes[..], free, initialized, spare, Slots(s) + others)
      modifies nodes, `free, `spare
      ensures top == Root(s') && Holds(nodes[..], s', AvlTree.Remove(t, t.key).tree)
      ensures Slots(s') !! others && Kept(old(nodes[..]), nodes[..], others)
      ensures Pool(nodes[..], free, initialized, spare, Slots(s') + others)
    {
      var successor;
      ghost var lower;
      successor, lower := TakeOver(index, right, s, t);
      ghost var s1, m := B(s.left, index, lower), AvlTree.TakeMin(t.right);
      ghost var t1 := t.(key := m.key, value := m.value, right := m.rest);
      PoolKeeps(old(nodes[..]), nodes[..], free, initialized, spare, Slots(s) + others, Slots(s));
      ghost var mid := nodes[..];
      LinkedInArray(mid, s1);
      ReleaseNode(successor, Slots(s) + others);
      Frame(mid, nodes[..], s1);
      assert Slots(s1) + others == Slots(s) + others - {successor};
      mid := nodes[..];
      var above;
      above, s' := Restore(index, s1, t1);
      top := Some(above);
      PoolKeeps(mid, nodes[..], free, initialized, spare, Slots(s') + others, Slots(s'));
    }

    method TakeOver(index: nat, right: nat, ghost s: Shape, ghost t: Tree) returns (successor: nat, ghost lower: Shape)
      requires s.B? && s.at == index && Holds(nodes[..], s, t) && Avl(t)
      requires s.right.B? && right == s.right.at && t.right.Node?
      modifies nodes
      ensures successor != index && successor !in Slots(lower) && Slots(s.right) == Slots(lower) + {successor}
      ensures var m := AvlTree.TakeMin(t.right);
              && Balanced(m.rest)
              && Holds(nodes[..], B(s.left, index, lower), t.(key := m.key, value := m.value, right := m.rest))
      ensures SameOutside(old(nodes[..]), nodes[..], Slots(s))
    {
      ViewRoot(nodes[..], s, t);
      TakeMinCorrect(t.right);
      var newRight;
      newRight, successor, lower := TakeMin(right, s.right, t.right);
      Successor(old(nodes[..]), nodes[..], s, t, lower, AvlTree.TakeMin(t.right).rest, nodes[successor]);
      nodes[index] := nodes[index].(key := nodes[successor].key, value := nodes[successor].value, right := newRight);
    }

    // ---- the operations of the tree ----

    ghost predicate Valid()
      reads this, nodes
    {
      && Pool(nodes[..], free, initialized, spare, Slots(shape))
      && root == Root(shape) && Distinct(shape) && Linked(nodes[..], shape) && Avl(View(nodes[..], shape))
    }

    ghost function Model(): map<nat, nat>
      requires Valid()
      reads this, nodes
    {
      Contents(View(nodes[..], shape))
    }

    constructor (n: nat)
      ensures Valid() && Model() == map[] && nodes.Length == n && fresh(nodes)
    {
      root, free, initialized, shape, spare := None, None, 0, E, [];
      nodes := new AvlNode[n](_ => EMPTY);
    }

    /** Insertion fails, changing nothing, exactly when the key is new and every node is in use. */
    method Insert(key: nat, value: nat) returns (ok: bool)
      requires Valid()
      modifies this, nodes
      ensures Valid() && (ok <==> key in old(Model()) || |old(Model())| < nodes.Length)
      ensures Model() == if ok then old(Model())[key := value] else old(Model())
    {
      Fullness(nodes[..], free, initialized, spare, shape);
      InsertCorrect(View(nodes[..], shape), key, value);
      ok := Place(key, value);
    }

    method Place(key: nat, value: nat) returns (ok: bool)
      requires Valid()
      modifies this, nodes
      ensures ok <==> key in old(Model()) || old(spare != [] || initialized != nodes.Length)
      ensures Pool(nodes[..], free, initialized, spare, Slots(shape)) && root == Root(shape)
      ensures Holds(nodes[..], shape, if ok then AvlTree.Insert(old(View(nodes[..], shape)), key, value)
                                      else old(View(nodes[..], shape)))
    {
      assert Slots(shape) + {} == Slots(shape);
      ghost var s';
      var top;
      top, s' := InsertAt(root, key, value, shape, View(nodes[..], shape), {});
      assert Slots(s') + {} == Slots(s');
      if top.None? {
        return false;
      }
      root, shape := top, s';
      return true;
    }

    method Remove(key: nat) returns (removed: Option<nat>)
      requires Valid()
      modifies this, nodes
      ensures Valid() && Model() == old(Model()) - {key}
      ensures removed == if key in old(Model()) then Some(old(Model())[key]) else None
    {
      ghost var t := View(nodes[..], shape);
      assert Slots(shape) + {} == Slots(shape);
      RemoveCorrect(t, key);
      ghost var s';
      root, removed, s' := RemoveAt(root, key, shape, t, {});
      assert Slots(s') + {} == Slots(s');
      shape := s';
    }

    method Find(key: nat) returns (r: Option<nat>)
      requires Valid()
      ensures r == if key in Model() then Some(Model()[key]) else None
    {
      ghost var s, t := shape, View(nodes[..], shape);
      var cursor := root;
      while cursor.Some?
        invariant cursor == Root(s) && Holds(nodes[..], s, t) && Ordered(t)
        invariant key in Model() <==> key in Contents(t)
        invariant key in Model() ==> Model()[key] == Contents(t)[key]
        decreases s
      {
        ViewRoot(nodes[..], s, t);
        var n := nodes[cursor.value];
        if key < n.key {
          cursor, s, t := n.left, s.left, t.left;
        } else if key > n.key {
          cursor, s, t := n.right, s.right, t.right;
        } else {
          return Some(n.value);
        }
      }
      ViewRoot(nodes[..], s, t);
      return None;
    }
  }
}
