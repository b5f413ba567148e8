/** What the buddy free lists mean: one list of block starts per order. */
module FreeLists {
  import opened Dyadic

  type Lists = seq<seq<nat>>

  /** A page number is a 64-bit address without its 12 page bits, and no region reaches the
      end of the address space. */
  const PAGE_LIMIT: nat := 0x10_0000_0000_0000

  lemma PageLimitIsPow2()
    ensures PAGE_LIMIT == Pow2(52)
  {
    assert Pow2(13) == 8192;
    Pow2Add(13, 13);
    Pow2Add(26, 26);
  }

  ghost predicate Has(l: Lists, o: nat, b: nat) {
    o < |l| && b in l[o]
  }

  ghost predicate Covered(l: Lists, p: nat) {
    exists o: nat, b: nat :: Has(l, o, b) && InBlock(p, b, o)
  }

  /** The free pages. */
  ghost function Pages(l: Lists): iset<nat> {
    iset p: nat | Covered(l, p)
  }

  ghost predicate InRange(p: nat, base: nat, count: nat) {
    base <= p < base + count
  }

  ghost function Range(base: nat, count: nat): iset<nat> {
    iset p: nat | InRange(p, base, count)
  }

  function Buddy(b: nat, o: nat): nat
    requires Aligned(b, o)
  {
    // Toggles bit `o`, as the exclusive or with the block size does on an aligned start.
    if Aligned(b, o + 1) then b + Pow2(o)
    else OddBlock(b, o); b - Pow2(o)
  }

  lemma OddBlock(b: nat, o: nat)
    requires Aligned(b, o) && !Aligned(b, o + 1)
    ensures Pow2(o) <= b && Aligned(b - Pow2(o), o + 1)
  {
    var m := Pow2(o);
    var k := b / m;
    var j := k / 2;
    assert b == k * m;
    Regroup(j, m);
    AlignedMultiple(j, o + 1);
    assert k == 2 * j || k == 2 * j + 1;
  }

  lemma Regroup(j: nat, m: nat)
    ensures (2 * j) * m == j * (2 * m) && (2 * j + 1) * m == j * (2 * m) + m
  {
  }

  ghost predicate InBounds(l: Lists) {
    forall o: nat, b: nat :: Has(l, o, b) ==> Aligned(b, o) && b + Pow2(o) < PAGE_LIMIT
  }

  ghost predicate NoRepeats(l: Lists) {
    forall o: nat, i: nat, j: nat :: o < |l| && i < j < |l[o]| ==> l[o][i] != l[o][j]
  }

  ghost predicate Apart(b: nat, o: nat, b': nat, o': nat) {
    b + Pow2(o) <= b' || b' + Pow2(o') <= b
  }

  ghost predicate Disjoint(l: Lists) {
    forall o: nat, b: nat, o': nat, b': nat ::
      Has(l, o, b) && Has(l, o', b') && (o != o' || b != b') ==> Apart(b, o, b', o')
  }

  ghost predicate WellFormed(l: Lists) {
    InBounds(l) && NoRepeats(l) && Disjoint(l)
  }

  ghost predicate NoBuddies(l: Lists)
    requires InBounds(l)
  {
    forall o: nat, b: nat :: Has(l, o, b) ==> !Has(l, o, Buddy(b, o))
  }

  /** The invariant of every pool between calls. */
  ghost predicate Canonical(l: Lists) {
    WellFormed(l) && NoBuddies(l)
  }

  /** `b` starts a free block of order `o` that is not part of a larger free block. */
  ghost predicate Maximal(free: iset<nat>, o: nat, b: nat) {
    && Aligned(b, o)
    && Range(b, Pow2(o)) <= free
    && !(Range(Parent(b, o), Pow2(o + 1)) <= free)
  }

  ghost function Parent(b: nat, o: nat): nat
    requires Aligned(b, o)
  {
    if Aligned(b, o + 1) then b else Buddy(b, o)
  }

  lemma BuddyFacts(b: nat, o: nat)
    requires Aligned(b, o)
    ensures Aligned(Buddy(b, o), o) && Buddy(Buddy(b, o), o) == b
    ensures Aligned(Parent(b, o), o + 1)
    ensures Parent(b, o) == if Buddy(b, o) < b then Buddy(b, o) else b
    ensures Parent(b, o) <= b < b + Pow2(o) <= Parent(b, o) + Pow2(o + 1)
    ensures Parent(b, o) + Pow2(o + 1) == (if Buddy(b, o) < b then b else Buddy(b, o)) + Pow2(o)
  {
    AlignedSelf(o);
    if Aligned(b, o + 1) {
      AlignedStep(b, Pow2(o), o);
      HalfIsOdd(b, o);
    } else {
      OddBlock(b, o);
      AlignedStep(Pow2(o), b, o);
    }
  }

  lemma HalfIsOdd(b: nat, o: nat)
    requires Aligned(b, o + 1)
    ensures !Aligned(b + Pow2(o), o + 1)
  {
    var m := Pow2(o + 1);
    DivideUnique(b + Pow2(o), m, b / m, Pow2(o));
  }

  /** A wholly free aligned block lies inside one block of the lists. */
  lemma {:induction false} InsideOneBlock(l: Lists, o: nat, b: nat) returns (o': nat, b': nat)
    requires Canonical(l) && Aligned(b, o) && Range(b, Pow2(o)) <= Pages(l)
    ensures Has(l, o', b') && o <= o' && b' <= b && b + Pow2(o) <= b' + Pow2(o')
    decreases o
  {
    if o == 0 {
      assert b in Range(b, Pow2(0));
      o', b' :| Has(l, o', b') && InBlock(b, b', o');
    } else {
      var h := Pow2(o - 1);
      AlignedFiner(b, o - 1, o);
      AlignedSelf(o - 1);
      AlignedStep(b, h, o - 1);
      assert forall p :: p in Range(b, h) || p in Range(b + h, h) ==> p in Range(b, Pow2(o));
      var lo, lb := InsideOneBlock(l, o - 1, b);
      var ro, rb := InsideOneBlock(l, o - 1, b + h);
      HalvesNotBoth(l, o - 1, b);
      if o <= lo {
        Nested(b, b, o, lb, lo);
        o', b' := lo, lb;
      } else {
        assert lb == b;
        assert o <= ro;
        Nested(b + h, b, o, rb, ro);
        o', b' := ro, rb;
      }
    }
  }

  lemma HalvesNotBoth(l: Lists, o: nat, b: nat)
    requires Canonical(l) && Aligned(b, o + 1)
    ensures !(Has(l, o, b) && Has(l, o, b + Pow2(o)))
  {
    AlignedFiner(b, o, o + 1);
    assert Buddy(b, o) == b + Pow2(o);
  }

  lemma BlockIsFree(l: Lists, o: nat, b: nat)
    requires Has(l, o, b)
    ensures Range(b, Pow2(o)) <= Pages(l)
  {
    forall p | p in Range(b, Pow2(o)) ensures Covered(l, p) {
      assert InBlock(p, b, o);
    }
  }

  lemma SameBlock(l: Lists, p: nat, o: nat, b: nat, o': nat, b': nat)
    requires WellFormed(l) && Has(l, o, b) && Has(l, o', b') && InBlock(p, b, o) && InBlock(p, b', o')
    ensures o == o' && b == b'
  {
    assert (o == o' && b == b') || Apart(b, o, b', o');
  }

  lemma ParentIsNotFree(l: Lists, o: nat, b: nat)
    requires Canonical(l) && Has(l, o, b)
    ensures !(Range(Parent(b, o), Pow2(o + 1)) <= Pages(l))
  {
    BuddyFacts(b, o);
    if Range(Parent(b, o), Pow2(o + 1)) <= Pages(l) {
      var o', b' := InsideOneBlock(l, o + 1, Parent(b, o));
      SameBlock(l, b, o, b, o', b');
      assert false;
    }
  }

  /** The blocks on the lists are exactly the maximal free blocks. */
  lemma BlocksAreMaximal(l: Lists, o: nat, b: nat)
    requires Canonical(l)
    ensures Has(l, o, b) <==> Maximal(Pages(l), o, b)
  {
    if Has(l, o, b) {
      BlockIsFree(l, o, b);
      ParentIsNotFree(l, o, b);
    }
    if Maximal(Pages(l), o, b) {
      var o', b' := InsideOneBlock(l, o, b);
      BlockIsFree(l, o', b');
      BuddyFacts(b, o);
      if o < o' {
        Nested(b, Parent(b, o), o + 1, b', o');
        assert false;
      }
      Nested(b, b', o', b, o);
    }
  }

  /** Equal free sets have equal blocks at every order. */
  lemma Canonicity(l: Lists, l': Lists)
    requires Canonical(l) && Canonical(l') && Pages(l) == Pages(l')
    ensures forall o: nat, b: nat :: Has(l, o, b) <==> Has(l', o, b)
  {
    forall o: nat, b: nat ensures Has(l, o, b) <==> Has(l', o, b) {
      BlocksAreMaximal(l, o, b);
      BlocksAreMaximal(l', o, b);
    }
  }

  // ---- single list updates ----

  /** `Vec::swap_remove`: the last element takes the place of the removed one. */
  function SwapRemove<T>(s: seq<T>, i: nat): (r: seq<T>)
    requires i < |s|
    ensures |r| == |s| - 1
    ensures forall x :: x in r ==> x in s
  {
    s[i := s[|s| - 1]][..|s| - 1]
  }

  lemma SwapRemoveMembers(s: seq<nat>, i: nat)
    requires i < |s| && forall j: nat, k: nat :: j < k < |s| ==> s[j] != s[k]
    ensures forall x :: x in SwapRemove(s, i) <==> x in s && x != s[i]
    ensures var r := SwapRemove(s, i); forall j: nat, k: nat :: j < k < |r| ==> r[j] != r[k]
  {
    var r := SwapRemove(s, i);
    forall x | x in s && x != s[i] ensures x in r {
      var j :| 0 <= j < |s| && s[j] == x;
      assert r[if j == |s| - 1 then i else j] == x;
    }
  }

  /** Removing one block takes exactly its pages off the free set. */
  lemma RemoveBlock(l: Lists, o: nat, i: nat)
    requires Canonical(l) && o < |l| && i < |l[o]|
    ensures var b, l' := l[o][i], l[o := SwapRemove(l[o], i)];
            && Canonical(l')
            && Pages(l') == Pages(l) - Range(b, Pow2(o))
            && PageCount(l') + Pow2(o) == PageCount(l)
  {
    RemovedShape(l, o, i);
    RemovedCount(l, o, i);
    var b, l' := l[o][i], l[o := SwapRemove(l[o], i)];
    SmallerStaysCanonical(l, l', o, b);
    RemovedPages(l, l', o, b);
  }

  lemma RemovedCount(l: Lists, o: nat, i: nat)
    requires o < |l| && i < |l[o]|
    ensures PageCount(l[o := SwapRemove(l[o], i)]) + Pow2(o) == PageCount(l)
  {
    var s, n := SwapRemove(l[o], i), Pow2(o);
    PageCountUpdate(l, o, s);
    Distribute(|s|, 1, n);
  }

  lemma RemovedShape(l: Lists, o: nat, i: nat)
    requires NoRepeats(l) && o < |l| && i < |l[o]|
    ensures var b, l' := l[o][i], l[o := SwapRemove(l[o], i)];
            Adds(l', l, o, b) && !Has(l', o, b) && NoRepeats(l')
  {
    SwapRemoveMembers(l[o], i);
  }

  lemma SmallerStaysCanonical(l: Lists, l': Lists, o: nat, b: nat)
    requires Canonical(l) && Adds(l', l, o, b) && NoRepeats(l')
    ensures Canonical(l')
  {
    assert InBounds(l');
    assert Disjoint(l');
  }

  lemma RemovedPages(l: Lists, l': Lists, o: nat, b: nat)
    requires Adds(l', l, o, b) && !Has(l', o, b) && Disjoint(l)
    ensures Pages(l') == Pages(l) - Range(b, Pow2(o))
  {
    AddedPages(l', l, o, b);
    forall p: nat | Covered(l', p) ensures !InRange(p, b, Pow2(o)) {
      var o', b' :| Has(l', o', b') && InBlock(p, b', o');
      assert Has(l, o', b') && Has(l, o, b) && Apart(b, o, b', o');
    }
  }

  /** Adding a block whose buddy is not listed keeps the lists canonical. */
  lemma AddBlock(l: Lists, o: nat, b: nat)
    requires Canonical(l) && o < |l| && Aligned(b, o) && b + Pow2(o) < PAGE_LIMIT
    requires forall p :: p in Range(b, Pow2(o)) ==> p !in Pages(l)
    requires !Has(l, o, Buddy(b, o))
    ensures var l' := l[o := l[o] + [b]];
            && Canonical(l')
            && Pages(l') == Pages(l) + Range(b, Pow2(o))
            && PageCount(l') == PageCount(l) + Pow2(o)
  {
    var l' := l[o := l[o] + [b]];
    NewBlockApart(l, o, b);
    AddedShape(l, o, b);
    AddedCount(l, o, b);
    AddedNoBuddies(l, l', o, b);
    AddedPages(l, l', o, b);
  }

  lemma AddedCount(l: Lists, o: nat, b: nat)
    requires o < |l|
    ensures PageCount(l[o := l[o] + [b]]) == PageCount(l) + Pow2(o)
  {
    var s, n := l[o] + [b], Pow2(o);
    PageCountUpdate(l, o, s);
    Distribute(|l[o]|, 1, n);
  }

  lemma AddedShape(l: Lists, o: nat, b: nat)
    requires WellFormed(l) && o < |l| && Aligned(b, o) && b + Pow2(o) < PAGE_LIMIT
    requires forall o': nat, b': nat :: Has(l, o', b') ==> Apart(b, o, b', o')
    ensures var l' := l[o := l[o] + [b]]; Adds(l, l', o, b) && WellFormed(l')
  {
    var l' := l[o := l[o] + [b]];
    assert Adds(l, l', o, b);
    assert !Apart(b, o, b, o) && !Has(l, o, b);
    assert InBounds(l');
    assert NoRepeats(l');
    assert Disjoint(l');
  }

  lemma NewBlockApart(l: Lists, o: nat, b: nat)
    requires forall p :: p in Range(b, Pow2(o)) ==> p !in Pages(l)
    ensures forall o': nat, b': nat :: Has(l, o', b') ==> Apart(b, o, b', o')
  {
    forall o': nat, b': nat | Has(l, o', b') ensures Apart(b, o, b', o') {
      var p := if b < b' then b' else b;
      assert InBlock(p, b', o') ==> Covered(l, p);
      assert InRange(p, b, Pow2(o)) ==> p in Range(b, Pow2(o));
    }
  }

  ghost predicate Adds(l: Lists, l': Lists, o: nat, b: nat) {
    forall o': nat, b': nat :: Has(l', o', b') <==> Has(l, o', b') || (o' == o && b' == b)
  }

  lemma AddedNoBuddies(l: Lists, l': Lists, o: nat, b: nat)
    requires InBounds(l) && InBounds(l') && NoBuddies(l) && Adds(l, l', o, b)
    requires Aligned(b, o) && !Has(l, o, Buddy(b, o))
    ensures NoBuddies(l')
  {
    BuddyFacts(b, o);
    forall o': nat, b': nat | Has(l', o', b') ensures !Has(l', o', Buddy(b', o')) {
      BuddyFacts(b', o');
    }
  }

  lemma AddedPages(l: Lists, l': Lists, o: nat, b: nat)
    requires Adds(l, l', o, b)
    ensures Pages(l') == Pages(l) + Range(b, Pow2(o))
  {
    assert Has(l', o, b);
    forall p: nat ensures Covered(l', p) <==> Covered(l, p) || InRange(p, b, Pow2(o)) {
      if Covered(l', p) {
        var o', b' :| Has(l', o', b') && InBlock(p, b', o');
        assert Has(l, o', b') || InRange(p, b, Pow2(o));
      } 
      if Covered(l, p) {
        var o', b' :| Has(l, o', b') && InBlock(p, b', o');
        assert Has(l', o', b');
      }
      if InRange(p, b, Pow2(o)) {
        assert InBlock(p, b, o);
      }
    }
  }

  lemma GrowLists(l: Lists)
    requires Canonical(l)
    ensures Canonical(l + [[]]) && Pages(l + [[]]) == Pages(l) && PageCount(l + [[]]) == PageCount(l)
  {
    var l' := l + [[]];
    assert forall o: nat, b: nat :: Has(l', o, b) <==> Has(l, o, b);
    assert l'[..|l|] == l;
    forall p: nat ensures Covered(l', p) <==> Covered(l, p) {
    }
  }

  // ---- counting pages ----

  /** The free page count as the pool adds it up, list by list. */
  function PageCount(l: Lists): nat {
    if l == [] then 0 else PageCount(l[..|l| - 1]) + |l[|l| - 1]| * Pow2(|l| - 1)
  }

  lemma {:induction false} PageCountUpdate(l: Lists, o: nat, s: seq<nat>)
    requires o < |l|
    ensures PageCount(l[o := s]) + |l[o]| * Pow2(o) == PageCount(l) + |s| * Pow2(o)
  {
    var k := |l| - 1;
    if o == k {
      assert l[o := s][..k] == l[..k];
    } else {
      PageCountUpdate(l[..k], o, s);
      assert l[o := s][..k] == l[..k][o := s];
    }
  }

  ghost function PageSet(l: Lists): set<nat> {
    set p: nat | p < PAGE_LIMIT && Covered(l, p)
  }

  ghost function RangeSet(base: nat, count: nat): set<nat> {
    set p: nat | base <= p < base + count && InRange(p, base, count)
  }

  lemma {:induction false} RangeSetSize(base: nat, count: nat)
    ensures |RangeSet(base, count)| == count
  {
    if count == 0 {
      assert RangeSet(base, count) == {};
    } else {
      RangeSetSize(base, count - 1);
      assert RangeSet(base, count) == RangeSet(base, count - 1) + {base + count - 1};
    }
  }

  lemma {:induction false} NonemptyList(l: Lists) returns (o: nat)
    requires PageCount(l) > 0
    ensures o < |l| && l[o] != []
  {
    if l[|l| - 1] != [] {
      o := |l| - 1;
    } else {
      o := NonemptyList(l[..|l| - 1]);
    }
  }

  lemma {:induction false} EmptyLists(l: Lists)
    requires PageCount(l) == 0
    ensures forall o: nat :: o < |l| ==> l[o] == []
  {
    if l != [] {
      var k := |l| - 1;
      var n, m := |l[k]|, Pow2(k);
      assert n > 0 ==> n * m >= m;
      EmptyLists(l[..k]);
      assert forall o: nat :: o < k ==> l[o] == l[..k][o];
    }
  }

  lemma PageSetSplit(l: Lists, l': Lists, b: nat, n: nat)
    requires Pages(l') == Pages(l) - Range(b, n) && Range(b, n) <= Pages(l) && b + n < PAGE_LIMIT
    ensures |PageSet(l)| == |PageSet(l')| + n
  {
    RangeSetSize(b, n);
    forall p: nat ensures Covered(l, p) <==> Covered(l', p) || InRange(p, b, n)
                  ensures !(Covered(l', p) && InRange(p, b, n)) {
      assert Covered(l, p) <==> p in Pages(l);
      assert Covered(l', p) <==> p in Pages(l');
      assert InRange(p, b, n) <==> p in Range(b, n);
    }
    assert PageSet(l) == PageSet(l') + RangeSet(b, n);
    assert PageSet(l') !! RangeSet(b, n);
  }

  lemma DropFirstBlock(l: Lists) returns (l': Lists, n: nat)
    requires Canonical(l) && PageCount(l) > 0
    ensures Canonical(l') && n > 0
    ensures PageCount(l) == PageCount(l') + n && |PageSet(l)| == |PageSet(l')| + n
  {
    var o := NonemptyList(l);
    var b, s := l[o][0], SwapRemove(l[o], 0);
    n, l' := Pow2(o), l[o := s];
    assert Has(l, o, b);
    RemoveBlock(l, o, 0);
    BlockIsFree(l, o, b);
    PageSetSplit(l, l', b, n);
  }

  lemma NothingFree(l: Lists)
    requires PageCount(l) == 0
    ensures PageSet(l) == {}
  {
    EmptyLists(l);
    assert forall o: nat, b: nat :: !Has(l, o, b);
  }

  /** The count is the number of free pages. */
  lemma {:induction false} PageCountIsSize(l: Lists)
    requires Canonical(l)
    ensures PageCount(l) == |PageSet(l)|
    decreases PageCount(l)
  {
    if PageCount(l) == 0 {
      NothingFree(l);
    } else {
      var l', n := DropFirstBlock(l);
      PageCountIsSize(l');
    }
  }
}
