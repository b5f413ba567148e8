/** The balanced search tree: insertion, removal, search and range visits on owned subtrees. */
module AvlTree {
  import opened Dyadic
  import opened Options
  import opened Numbers

  datatype Tree = Leaf | Node(left: Tree, key: nat, value: nat, height: int, right: Tree)

  // ---- the operations ----

  function Height(t: Tree): int {
    if t.Leaf? then 0 else t.height
  }

  /** The node with its height computed again from its children. */
  function Fix(t: Tree): Tree
    requires t.Node?
  {
    t.(height := Max(Height(t.left), Height(t.right)) + 1)
  }

  function BalanceFactor(t: Tree): int
    requires t.Node?
  {
    Height(t.left) - Height(t.right)
  }

  function RotateLeft(x: Tree): Tree
    requires x.Node?
  {
    if x.right.Leaf? then x
    else var y := x.right; Fix(y.(left := Fix(x.(right := y.left))))
  }

  function RotateRight(y: Tree): Tree
    requires y.Node?
  {
    if y.left.Leaf? then y
    else var x := y.left; Fix(x.(right := Fix(y.(left := x.right))))
  }

  function Rebalance(t: Tree): Tree
    requires t.Node?
  {
    var bf := BalanceFactor(t);
    if bf > 1 then
      if t.left.Node? && BalanceFactor(t.left) < 0 then RotateRight(t.(left := RotateLeft(t.left)))
      else RotateRight(t)
    else if bf < -1 then
      if t.right.Node? && BalanceFactor(t.right) > 0 then RotateLeft(t.(right := RotateRight(t.right)))
      else RotateLeft(t)
    else t
  }

  function Insert(t: Tree, key: nat, value: nat): (r: Tree)
    ensures r.Node?
  {
    if t.Leaf? then Node(Leaf, key, value, 1, Leaf)
    else if key < t.key then Rebalance(Fix(t.(left := Insert(t.left, key, value))))
    else if key > t.key then Rebalance(Fix(t.(right := Insert(t.right, key, value))))
    else t.(value := value)
  }

  datatype Split = Split(rest: Tree, key: nat, value: nat)

  /** Takes the smallest entry out of a nonempty tree. */
  function TakeMin(t: Tree): Split
    requires t.Node?
  {
    if t.left.Leaf? then Split(t.right, t.key, t.value)
    else var m := TakeMin(t.left); m.(rest := Rebalance(Fix(t.(left := m.rest))))
  }

  datatype Removal = Removal(tree: Tree, removed: Option<nat>)

  function Remove(t: Tree, key: nat): Removal {
    if t.Leaf? then Removal(Leaf, None)
    else if key < t.key then
      var r := Remove(t.left, key);
      if r.removed.None? then Removal(t, None) else Removal(Rebalance(Fix(t.(left := r.tree))), r.removed)
    else if key > t.key then
      var r := Remove(t.right, key);
      if r.removed.None? then Removal(t, None) else Removal(Rebalance(Fix(t.(right := r.tree))), r.removed)
    else if t.left.Leaf? then Removal(t.right, Some(t.value))
    else if t.right.Leaf? then Removal(t.left, Some(t.value))
    else
      var m := TakeMin(t.right);
      Removal(Rebalance(Fix(t.(key := m.key, value := m.value, right := m.rest))), Some(t.value))
  }

  // ---- what a tree means ----

  /** The finite map a tree stands for. */
  ghost function Contents(t: Tree): map<nat, nat> {
    if t.Leaf? then map[] else (Contents(t.left) + Contents(t.right))[t.key := t.value]
  }

  ghost predicate Below(m: map<nat, nat>, key: nat) {
    forall k :: k in m ==> k < key
  }

  ghost predicate Above(m: map<nat, nat>, key: nat) {
    forall k :: k in m ==> key < k
  }

  ghost predicate Ordered(t: Tree) {
    t.Leaf? || (Ordered(t.left) && Ordered(t.right) && Below(Contents(t.left), t.key)
                && Above(Contents(t.right), t.key))
  }

  ghost predicate Balanced(t: Tree) {
    t.Leaf? ||
    (&& Balanced(t.left) && Balanced(t.right)
     && t.height == Max(Height(t.left), Height(t.right)) + 1 && -1 <= BalanceFactor(t) <= 1)
  }

  ghost predicate Avl(t: Tree) {
    Ordered(t) && Balanced(t)
  }

  lemma AvlParts(t: Tree)
    requires Avl(t) && t.Node?
    ensures Avl(t.left) && Avl(t.right) && Balanced(t.left) && Balanced(t.right)
  {
  }

  /** A key is looked for on one side only. */
  lemma OneSide(t: Tree, key: nat)
    requires Ordered(t) && t.Node?
    ensures key < t.key ==> (key in Contents(t) <==> key in Contents(t.left))
    ensures key > t.key ==> (key in Contents(t) <==> key in Contents(t.right))
  {
  }

  lemma {:induction t} HeightNonnegative(t: Tree)
    requires Balanced(t)
    ensures Height(t) >= 0 && (Height(t) == 0 <==> t.Leaf?)
  {
  }

  // ---- rotations ----

  lemma RotationsKeepContents(t: Tree)
    requires t.Node? && Ordered(t)
    ensures Ordered(RotateLeft(t)) && Contents(RotateLeft(t)) == Contents(t)
    ensures Ordered(RotateRight(t)) && Contents(RotateRight(t)) == Contents(t)
  {
    RotateLeftKeeps(t);
    RotateRightKeeps(t);
  }

  lemma RotateLeftKeeps(t: Tree)
    requires t.Node? && Ordered(t)
    ensures Ordered(RotateLeft(t)) && Contents(RotateLeft(t)) == Contents(t)
  {
    if t.right.Node? {
      var y := t.right;
      var x' := Fix(t.(right := y.left));
      NodeContents(y.left, y.key, y.value, y.right);
      NodeContents(t.left, t.key, t.value, y.left);
      assert Contents(y) == (Contents(y.left) + Contents(y.right))[y.key := y.value];
      assert Contents(x') == (Contents(t.left) + Contents(y.left))[t.key := t.value];
      assert y.key in Contents(y);
      assert Above(Contents(y.left), t.key) by {
        forall k | k in Contents(y.left) ensures t.key < k { assert k in Contents(y); }
      }
      assert Ordered(x') && RotateLeft(t) == Fix(y.(left := x'));
      Associate(Contents(t.left), t.key, t.value, Contents(y.left), y.key, y.value, Contents(y.right));
    }
  }

  lemma RotateRightKeeps(t: Tree)
    requires t.Node? && Ordered(t)
    ensures Ordered(RotateRight(t)) && Contents(RotateRight(t)) == Contents(t)
  {
    if t.left.Node? {
      var x := t.left;
      var y' := Fix(t.(left := x.right));
      NodeContents(x.left, x.key, x.value, x.right);
      NodeContents(x.right, t.key, t.value, t.right);
      assert Contents(x) == (Contents(x.left) + Contents(x.right))[x.key := x.value];
      assert Contents(y') == (Contents(x.right) + Contents(t.right))[t.key := t.value];
      assert x.key in Contents(x);
      assert Below(Contents(x.right), t.key) by {
        forall k | k in Contents(x.right) ensures k < t.key { assert k in Contents(x); }
      }
      assert Ordered(y') && RotateRight(t) == Fix(x.(right := y'));
      Associate(Contents(x.left), x.key, x.value, Contents(x.right), t.key, t.value, Contents(t.right));
    }
  }

  lemma NodeContents(l: Tree, key: nat, value: nat, r: Tree)
    ensures var m := (Contents(l) + Contents(r))[key := value];
            forall k :: k in m <==> k == key || k in Contents(l) || k in Contents(r)
  {
  }

  lemma UpdatePart(a: map<nat, nat>, c: map<nat, nat>, k: nat, v: nat, key: nat, value: nat)
    requires key != k
    ensures key !in c ==> (a[key := value] + c)[k := v] == (a + c)[k := v][key := value]
    ensures (a + c[key := value])[k := v] == (a + c)[k := v][key := value]
  {
  }

  lemma RemovePart(a: map<nat, nat>, c: map<nat, nat>, k: nat, v: nat, key: nat)
    requires key != k
    ensures key !in c ==> (a - {key} + c)[k := v] == (a + c)[k := v] - {key}
    ensures key !in a ==> (a + (c - {key}))[k := v] == (a + c)[k := v] - {key}
  {
  }

  lemma ReplaceRoot(a: map<nat, nat>, c: map<nat, nat>, k: nat, v: nat, key: nat)
    requires k !in a && k !in c && key in c
    ensures (a + (c - {key}))[key := c[key]] == (a + c)[k := v] - {k}
  {
  }

  /** The two groupings of three neighbouring parts hold the same entries. */
  lemma Associate(a: map<nat, nat>, k: nat, v: nat, b: map<nat, nat>, k': nat, v': nat, c: map<nat, nat>)
    requires Below(a, k) && Above(b, k) && k < k' && Below(b, k') && Above(c, k')
    ensures (a + (b + c)[k' := v'])[k := v] == ((a + b)[k := v] + c)[k' := v']
    ensures Below((a + b)[k := v], k') && Above((b + c)[k' := v'], k)
  {
    var l, r := (a + (b + c)[k' := v'])[k := v], ((a + b)[k := v] + c)[k' := v'];
    assert l.Keys == r.Keys;
  }

  lemma RebalanceKeepsContents(t: Tree)
    requires t.Node? && Ordered(t)
    ensures Ordered(Rebalance(t)) && Contents(Rebalance(t)) == Contents(t)
  {
    if BalanceFactor(t) > 1 && t.left.Node? && BalanceFactor(t.left) < 0 {
      RotateLeftKeeps(t.left);
      RotateRightKeeps(t.(left := RotateLeft(t.left)));
    } else if BalanceFactor(t) < -1 && t.right.Node? && BalanceFactor(t.right) > 0 {
      RotateRightKeeps(t.right);
      RotateLeftKeeps(t.(right := RotateRight(t.right)));
    } else {
      RotationsKeepContents(t);
    }
  }

  lemma NodeBalanced(l: Tree, key: nat, value: nat, r: Tree)
    requires Balanced(l) && Balanced(r) && -1 <= Height(l) - Height(r) <= 1
    ensures Balanced(Fix(Node(l, key, value, 0, r)))
  {
  }

  /** Two levels of imbalance are repaired, and the height drops by at most one. */
  lemma RebalanceBalances(t: Tree)
    requires t.Node? && Balanced(t.left) && Balanced(t.right) && -2 <= BalanceFactor(t) <= 2
    requires t.height == Max(Height(t.left), Height(t.right)) + 1
    ensures Balanced(Rebalance(t)) && Rebalance(t).Node?
    ensures t.height - 1 <= Height(Rebalance(t)) <= t.height
    ensures -1 <= BalanceFactor(t) <= 1 ==> Rebalance(t) == t
  {
    HeightNonnegative(t.left);
    HeightNonnegative(t.right);
    if BalanceFactor(t) == 2 {
      LeftHeavy(t);
    } else if BalanceFactor(t) == -2 {
      RightHeavy(t);
    }
  }

  lemma LeftHeavy(t: Tree)
    requires t.Node? && t.left.Node? && Balanced(t.left) && Balanced(t.right) && BalanceFactor(t) == 2
    requires t.height == Max(Height(t.left), Height(t.right)) + 1
    ensures Balanced(Rebalance(t)) && Rebalance(t).Node?
    ensures t.height - 1 <= Height(Rebalance(t)) <= t.height
  {
    var x := t.left;
    HeightNonnegative(x.left);
    HeightNonnegative(x.right);
    HeightNonnegative(t.right);
    if BalanceFactor(x) < 0 {
      var z := x.right;
      NodeBalanced(x.left, x.key, x.value, z.left);
      NodeBalanced(z.right, t.key, t.value, t.right);
      assert RotateLeft(x) == Fix(z.(left := Fix(x.(right := z.left))));
    } else {
      NodeBalanced(x.right, t.key, t.value, t.right);
    }
  }

  lemma RightHeavy(t: Tree)
    requires t.Node? && t.right.Node? && Balanced(t.left) && Balanced(t.right) && BalanceFactor(t) == -2
    requires t.height == Max(Height(t.left), Height(t.right)) + 1
    ensures Balanced(Rebalance(t)) && Rebalance(t).Node?
    ensures t.height - 1 <= Height(Rebalance(t)) <= t.height
  {
    var y := t.right;
    HeightNonnegative(y.left);
    HeightNonnegative(y.right);
    HeightNonnegative(t.left);
    if BalanceFactor(y) > 0 {
      var z := y.left;
      NodeBalanced(z.right, y.key, y.value, y.right);
      NodeBalanced(t.left, t.key, t.value, z.left);
      assert RotateRight(y) == Fix(z.(right := Fix(y.(left := z.right))));
    } else {
      NodeBalanced(t.left, t.key, t.value, y.left);
    }
  }

  // ---- insertion ----

  /** Insertion refines the update of a finite map and keeps the tree ordered and balanced. */
  lemma {:induction false} InsertCorrect(t: Tree, key: nat, value: nat)
    requires Avl(t)
    ensures var r := Insert(t, key, value);
            && Avl(r) && Contents(r) == Contents(t)[key := value]
            && Height(t) <= Height(r) <= Height(t) + 1
  {
    if t.Node? && key != t.key {
      var l, r := Contents(t.left), Contents(t.right);
      var t';
      UpdatePart(l, r, t.key, t.value, key, value);
      if key < t.key {
        InsertCorrect(t.left, key, value);
        t' := Fix(t.(left := Insert(t.left, key, value)));
      } else {
        InsertCorrect(t.right, key, value);
        t' := Fix(t.(right := Insert(t.right, key, value)));
      }
      RebalanceKeepsContents(t');
      RebalanceBalances(t');
    }
  }

  // ---- removal ----

  lemma {:induction false} TakeMinCorrect(t: Tree)
    requires t.Node? && Avl(t)
    ensures var m := TakeMin(t);
            && Avl(m.rest) && m.key in Contents(t) && Contents(t)[m.key] == m.value
            && Contents(m.rest) == Contents(t) - {m.key} && Above(Contents(m.rest), m.key)
            && Height(t) - 1 <= Height(m.rest) <= Height(t)
  {
    HeightNonnegative(t.left);
    HeightNonnegative(t.right);
    if t.left.Node? {
      var m := TakeMin(t.left);
      TakeMinCorrect(t.left);
      var t' := Fix(t.(left := m.rest));
      RemovePart(Contents(t.left), Contents(t.right), t.key, t.value, m.key);
      RebalanceKeepsContents(t');
      RebalanceBalances(t');
    }
  }

  /** Removal refines the removal from a finite map and keeps the tree ordered and balanced. */
  lemma {:induction false} RemoveCorrect(t: Tree, key: nat)
    requires Avl(t)
    ensures var r := Remove(t, key);
            && Avl(r.tree) && Contents(r.tree) == Contents(t) - {key}
            && r.removed == (if key in Contents(t) then Some(Contents(t)[key]) else None)
            && Height(t) - 1 <= Height(r.tree) <= Height(t)
  {
    if t.Node? {
      HeightNonnegative(t.left);
      HeightNonnegative(t.right);
      if key < t.key {
        RemoveCorrect(t.left, key);
        RemovePart(Contents(t.left), Contents(t.right), t.key, t.value, key);
        Rejoin(t, t.(left := Remove(t.left, key).tree), key);
      } else if key > t.key {
        RemoveCorrect(t.right, key);
        RemovePart(Contents(t.left), Contents(t.right), t.key, t.value, key);
        Rejoin(t, t.(right := Remove(t.right, key).tree), key);
      } else {
        RemoveRoot(t);
      }
    }
  }

  lemma RemoveRoot(t: Tree)
    requires t.Node? && Avl(t)
    ensures var r := Remove(t, t.key).tree;
            Avl(r) && Contents(r) == Contents(t) - {t.key} && Height(t) - 1 <= Height(r) <= Height(t)
  {
    var l, r := Contents(t.left), Contents(t.right);
    HeightNonnegative(t.left);
    HeightNonnegative(t.right);
    if t.left.Node? && t.right.Node? {
      var m := TakeMin(t.right);
      TakeMinCorrect(t.right);
      ReplaceRoot(l, r, t.key, t.value, m.key);
      Rejoin(t, t.(key := m.key, value := m.value, right := m.rest), t.key);
    } else {
      OnlyChild(l, r, t.key, t.value);
    }
  }

  lemma OnlyChild(a: map<nat, nat>, c: map<nat, nat>, k: nat, v: nat)
    requires k !in a && k !in c
    ensures (map[] + c)[k := v] - {k} == c && (a + map[])[k := v] - {k} == a
  {
  }

  lemma Rejoin(t: Tree, t': Tree, key: nat)
    requires t.Node? && t'.Node? && Avl(t) && Ordered(t') && Contents(t') == Contents(t) - {key}
    requires Balanced(t'.left) && Balanced(t'.right)
    requires Height(t.left) - 1 <= Height(t'.left) <= Height(t.left)
    requires Height(t.right) - 1 <= Height(t'.right) <= Height(t.right)
    requires t'.left == t.left || t'.right == t.right
    ensures var r := Rebalance(Fix(t'));
            Avl(r) && Contents(r) == Contents(t) - {key} && Height(t) - 1 <= Height(r) <= Height(t)
  {
    RebalanceKeepsContents(Fix(t'));
    RebalanceBalances(Fix(t'));
  }

  // ---- search and range visits ----

  method Find(t: Tree, key: nat) returns (r: Option<nat>)
    requires Ordered(t)
    ensures r == if key in Contents(t) then Some(Contents(t)[key]) else None
  {
    var cursor := t;
    while cursor.Node?
      invariant Ordered(cursor)
      invariant key in Contents(t) <==> key in Contents(cursor)
      invariant key in Contents(t) ==> Contents(t)[key] == Contents(cursor)[key]
      decreases cursor
    {
      if key < cursor.key {
        cursor := cursor.left;
      } else if key > cursor.key {
        cursor := cursor.right;
      } else {
        return Some(cursor.value);
      }
    }
    return None;
  }

  /** The entries handed to the visitor, in the order of the visits. */
  function VisitRange(t: Tree, start: nat, end: nat): seq<(nat, nat)> {
    if t.Leaf? then []
    else
      (if t.key > start then VisitRange(t.left, start, end) else []) +
      (if start <= t.key < end then [(t.key, t.value)] else []) +
      (if t.key < end then VisitRange(t.right, start, end) else [])
  }

  ghost predicate Ascending(s: seq<(nat, nat)>) {
    forall i, j :: 0 <= i < j < |s| ==> s[i].0 < s[j].0
  }

  ghost predicate InRange(m: map<nat, nat>, start: nat, end: nat, e: (nat, nat)) {
    start <= e.0 < end && e.0 in m && m[e.0] == e.1
  }

  /** A range visit sees exactly the entries of the range, in ascending order of their keys. */
  lemma {:induction false} VisitRangeCorrect(t: Tree, start: nat, end: nat)
    requires Ordered(t)
    ensures Ascending(VisitRange(t, start, end))
    ensures forall e: (nat, nat) :: e in VisitRange(t, start, end) <==> InRange(Contents(t), start, end, e)
  {
    if t.Node? {
      VisitRangeCorrect(t.left, start, end);
      VisitRangeCorrect(t.right, start, end);
      var a := if t.key > start then VisitRange(t.left, start, end) else [];
      var b := if start <= t.key < end then [(t.key, t.value)] else [];
      var c := if t.key < end then VisitRange(t.right, start, end) else [];
      assert forall e: (nat, nat) :: e in a <==> InRange(Contents(t.left), start, end, e);
      assert forall e: (nat, nat) :: e in c <==> InRange(Contents(t.right), start, end, e);
      forall i | 0 <= i < |a| ensures a[i].0 < t.key { assert a[i] in a; }
      forall j | 0 <= j < |c| ensures t.key < c[j].0 { assert c[j] in c; }
      JoinAscending(a, b, c, t.key);
      assert VisitRange(t, start, end) == a + b + c;
    }
  }

  lemma JoinAscending(a: seq<(nat, nat)>, b: seq<(nat, nat)>, c: seq<(nat, nat)>, key: nat)
    requires Ascending(a) && Ascending(c) && |b| <= 1 && (|b| == 1 ==> b[0].0 == key)
    requires forall i :: 0 <= i < |a| ==> a[i].0 < key
    requires forall j :: 0 <= j < |c| ==> key < c[j].0
    ensures Ascending(a + b + c)
  {
  }

  // ---- heights ----

  function Size(t: Tree): nat {
    if t.Leaf? then 0 else Size(t.left) + 1 + Size(t.right)
  }

  lemma {:induction false} SizeIsCount(t: Tree)
    requires Ordered(t)
    ensures Size(t) == |Contents(t)|
  {
    if t.Node? {
      SizeIsCount(t.left);
      SizeIsCount(t.right);
      var l, r := Contents(t.left), Contents(t.right);
      assert l.Keys !! r.Keys;
      assert (l + r).Keys == l.Keys + r.Keys;
    }
  }

  /** A balanced tree of height `h` holds at least `2^(h/2) - 1` entries. */
  lemma {:induction false} HeightBound(t: Tree)
    requires Balanced(t)
    ensures Height(t) >= 0 && Pow2(Height(t) / 2) <= Size(t) + 1
  {
    HeightNonnegative(t);
    if t.Node? {
      HeightNonnegative(t.left);
      HeightNonnegative(t.right);
      HeightBound(t.left);
      HeightBound(t.right);
      if Height(t) >= 2 {
        Pow2Monotone(Height(t) / 2 - 1, Height(t.left) / 2);
        Pow2Monotone(Height(t) / 2 - 1, Height(t.right) / 2);
      }
    }
  }

  /** The 16-bit height of a node never overflows. */
  lemma HeightFits(t: Tree)
    requires Balanced(t) && Size(t) < 0x1_0000_0000_0000_0000
    ensures 0 <= Height(t) < 130
  {
    HeightBound(t);
    Pow2Of64();
    if 65 <= Height(t) / 2 {
      Pow2Monotone(64, Height(t) / 2);
      assert false;
    }
  }
}
