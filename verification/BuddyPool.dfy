/** The coalescing free lists of one kind of physical memory. */
module BuddyPools {
  import opened Dyadic
  import opened FreeLists
  import opened Options

  datatype AllocError = InvalidArgument | PermissionDenied | OutOfMemory
  datatype Outcome = Done | Failed(error: AllocError)
  datatype Place = Place(order: nat, index: nat, base: nat)

  const WORD_BITS: nat := 64
  const WORD_LIMIT: nat := 0x1_0000_0000_0000_0000

  lemma WordLimitIsPow2()
    ensures WORD_LIMIT == Pow2(64)
  {
    PageLimitIsPow2();
    assert Pow2(12) == 4096;
    Pow2Add(52, 12);
  }

  /** `1usize.checked_shl(order)`. */
  function BlockPages(order: nat): (r: Option<nat>)
    ensures r.Some? <==> order < WORD_BITS
    ensures r.Some? ==> r.value == Pow2(order)
  {
    if order < WORD_BITS then Some(Pow2(order)) else None
  }

  lemma OrderFits(order: nat)
    requires Pow2(order) < PAGE_LIMIT
    ensures order < 52
  {
    PageLimitIsPow2();
    if 52 <= order {
      Pow2Monotone(52, order);
    }
  }

  function CeilLog2(v: nat): (r: nat)
    requires v > 0
    ensures v <= Pow2(r) && forall k: nat :: v <= Pow2(k) ==> r <= k
  {
    var f := FloorLog2(v);
    assert forall k: nat :: k < f ==> Pow2(k) < v by {
      forall k: nat | k < f ensures Pow2(k) < v { Pow2Monotone(k, f); }
    }
    if v == Pow2(f) then f else f + 1
  }

  /** The largest order whose block starts at `base` and fits in `count` pages. */
  method LargestAlignedOrder(base: nat, count: nat) returns (r: Option<nat>)
    requires base < WORD_LIMIT && count < WORD_LIMIT
    ensures r.None? <==> count == 0
    ensures r.Some? ==> Aligned(base, r.value) && Pow2(r.value) <= count
    ensures r.Some? ==> forall k: nat :: Aligned(base, k) && Pow2(k) <= count ==> k <= r.value
  {
    hide Pow2, FloorLog2, Aligned;
    if count == 0 {
      return None;
    }
    var order: nat := FloorLog2(count);
    WordLimitIsPow2();
    if WORD_BITS <= order { Pow2Monotone(WORD_BITS, order); }
    forall k: nat | order < k ensures count < Pow2(k) { Pow2Monotone(order + 1, k); }
    while true
      invariant order < WORD_BITS && Pow2(order) <= count
      invariant forall k: nat :: order < k && Pow2(k) <= count ==> !Aligned(base, k)
      decreases order
    {
      var pages := BlockPages(order);
      AlignedTo(base, order);
      if base % pages.value == 0 || order == 0 {
        return Some(order);
      }
      Pow2Monotone(order - 1, order);
      order := order - 1;
    }
  }

  lemma AlignedTo(base: nat, order: nat)
    ensures Aligned(base, order) <==> base % Pow2(order) == 0
    ensures order == 0 ==> Aligned(base, order)
  {
  }

  class BuddyPool {
    var freeLists: Lists

    ghost predicate Valid()
      reads this
    {
      Canonical(freeLists) && |freeLists| <= 52
    }

    ghost function Free(): iset<nat>
      reads this
    {
      Pages(freeLists)
    }

    constructor ()
      ensures Valid() && Free() == iset{} && PageCount(freeLists) == 0
    {
      freeLists := [];
      new;
      assert forall p: nat :: !Covered(freeLists, p);
    }

    method EnsureOrder(order: nat)
      requires Valid() && order < 52
      modifies this
      ensures Valid() && order < |freeLists|
      ensures Free() == old(Free()) && PageCount(freeLists) == old(PageCount(freeLists))
    {
      while |freeLists| <= order
        invariant Valid()
        invariant Free() == old(Free()) && PageCount(freeLists) == old(PageCount(freeLists))
        decreases order + 1 - |freeLists|
      {
        GrowLists(freeLists);
        freeLists := freeLists + [[]];
      }
    }

    method FindBlockIndex(order: nat, base: nat) returns (r: Option<nat>)
      ensures r.Some? <==> Has(freeLists, order, base)
      ensures r.Some? ==> r.value < |freeLists[order]| && freeLists[order][r.value] == base
    {
      if order >= |freeLists| {
        return None;
      }
      var index := 0;
      while index < |freeLists[order]|
        invariant index <= |freeLists[order]|
        invariant forall j :: 0 <= j < index ==> freeLists[order][j] != base
      {
        if freeLists[order][index] == base {
          return Some(index);
        }
        index := index + 1;
      }
      return None;
    }

    /** Adds a block, merging it with its buddy for as long as the buddy is free. */
    method AddBlock(base: nat, order: nat) returns (r: Outcome)
      requires Valid()
      requires Aligned(base, order) && base + Pow2(order) < PAGE_LIMIT
      requires forall p :: p in Range(base, Pow2(order)) ==> p !in Free()
      modifies this
      ensures r == Done && Valid()
      ensures Free() == old(Free()) + Range(base, Pow2(order))
      ensures PageCount(freeLists) == old(PageCount(freeLists)) + Pow2(order)
    {
      var b: nat, o: nat := base, order;
      while true
        invariant Valid()
        invariant Aligned(b, o) && b + Pow2(o) < PAGE_LIMIT
        invariant forall p :: p in Range(b, Pow2(o)) ==> p !in Free()
        invariant Free() + Range(b, Pow2(o)) == old(Free()) + Range(base, Pow2(order))
        invariant PageCount(freeLists) + Pow2(o) == old(PageCount(freeLists)) + Pow2(order)
        decreases 52 - o
      {
        OrderFits(o);
        EnsureOrder(o);
        var pages := BlockPages(o);
        if pages.None? || b % pages.value != 0 {
          return Failed(InvalidArgument);
        }
        var buddy := Buddy(b, o);
        var found := FindBlockIndex(o, buddy);
        if found.Some? {
          b, o := Merge(b, o, buddy, found.value);
          continue;
        }
        found := FindBlockIndex(o, b);
        BlockNotListed(b, o);
        if found.None? {
          FreeLists.AddBlock(freeLists, o, b);
          freeLists := freeLists[o := freeLists[o] + [b]];
        }
        return Done;
      }
    }

    lemma BlockNotListed(b: nat, o: nat)
      requires forall p :: p in Range(b, Pow2(o)) ==> p !in Free()
      ensures !Has(freeLists, o, b)
    {
      assert b in Range(b, Pow2(o));
      assert Has(freeLists, o, b) && InBlock(b, b, o) ==> Covered(freeLists, b);
    }

    /** One step of coalescing: the listed buddy leaves its list and the pair continues. */
    method Merge(b: nat, o: nat, buddy: nat, index: nat) returns (b': nat, o': nat)
      requires Valid() && Aligned(b, o) && b + Pow2(o) < PAGE_LIMIT
      requires buddy == Buddy(b, o) && o < |freeLists| && index < |freeLists[o]|
      requires freeLists[o][index] == buddy
      requires forall p :: p in Range(b, Pow2(o)) ==> p !in Free()
      modifies this
      ensures Valid() && o' == o + 1 && Aligned(b', o') && b' + Pow2(o') < PAGE_LIMIT
      ensures forall p :: p in Range(b', Pow2(o')) ==> p !in Free()
      ensures Free() + Range(b', Pow2(o')) == old(Free()) + Range(b, Pow2(o))
      ensures PageCount(freeLists) + Pow2(o') == old(PageCount(freeLists)) + Pow2(o)
    {
      MergeStep(freeLists, b, o, index);
      freeLists := freeLists[o := SwapRemove(freeLists[o], index)];
      b' := if buddy < b then buddy else b;
      o' := o + 1;
    }

    static lemma MergeStep(l: Lists, b: nat, o: nat, index: nat)
      requires Canonical(l) && Aligned(b, o) && b + Pow2(o) < PAGE_LIMIT
      requires o < |l| && index < |l[o]| && l[o][index] == Buddy(b, o)
      requires forall p :: p in Range(b, Pow2(o)) ==> p !in Pages(l)
      ensures var l' := l[o := SwapRemove(l[o], index)];
              && Canonical(l')
              && Aligned(Parent(b, o), o + 1) && Parent(b, o) + Pow2(o + 1) < PAGE_LIMIT
              && Parent(b, o) == (if Buddy(b, o) < b then Buddy(b, o) else b)
              && (forall p :: p in Range(Parent(b, o), Pow2(o + 1)) ==> p !in Pages(l'))
              && Pages(l') + Range(Parent(b, o), Pow2(o + 1)) == Pages(l) + Range(b, Pow2(o))
              && PageCount(l') + Pow2(o + 1) == PageCount(l) + Pow2(o)
    {
      var l' := l[o := SwapRemove(l[o], index)];
      var buddy := Buddy(b, o);
      assert Has(l, o, buddy);
      BlockIsFree(l, o, buddy);
      RemoveBlock(l, o, index);
      BuddyFacts(b, o);
      MergedPages(Pages(l), Parent(b, o), b, buddy, Pow2(o));
    }

    static lemma MergedPages(f: iset<nat>, parent: nat, b: nat, buddy: nat, n: nat)
      requires (parent == b && buddy == b + n) || (parent == buddy && b == buddy + n)
      requires Range(buddy, n) <= f && forall p :: p in Range(b, n) ==> p !in f
      ensures f - Range(buddy, n) + Range(parent, 2 * n) == f + Range(b, n)
      ensures forall p :: p in Range(parent, 2 * n) ==> p !in f - Range(buddy, n)
    {
      assert Range(parent, 2 * n) == Range(b, n) + Range(buddy, n);
    }

    /** Frees the pages `base .. base + count`, as a sequence of the largest aligned blocks. */
    method AddRange(base: nat, count: nat) returns (r: Outcome)
      requires Valid() && base + count < PAGE_LIMIT
      requires forall p :: p in Range(base, count) ==> p !in Free()
      modifies this
      ensures r == Done && Valid()
      ensures Free() == old(Free()) + Range(base, count)
      ensures PageCount(freeLists) == old(PageCount(freeLists)) + count
    {
      var b: nat, n: nat := base, count;
      while n != 0
        invariant Valid() && b + n == base + count && base <= b
        invariant Free() == old(Free()) + Range(base, b - base)
        invariant PageCount(freeLists) + n == old(PageCount(freeLists)) + count
      {
        var order := LargestAlignedOrder(b, n);
        var pages := BlockPages(order.value);
        OrderFits(order.value);
        NextPart(old(Free()), base, b, Pow2(order.value), count);
        r := AddBlock(b, order.value);
        b := b + pages.value;
        n := n - pages.value;
      }
      return Done;
    }

    static lemma NextPart(f: iset<nat>, base: nat, b: nat, n: nat, count: nat)
      requires base <= b && b + n <= base + count
      requires forall p :: p in Range(base, count) ==> p !in f
      ensures forall p :: p in Range(b, n) ==> p !in f + Range(base, b - base)
      ensures f + Range(base, b - base) + Range(b, n) == f + Range(base, b + n - base)
    {
      assert Range(b, n) <= Range(base, count);
      assert Range(base, b - base) + Range(b, n) == Range(base, b + n - base);
    }

    method FindContainingBlock(page: nat) returns (r: Option<Place>)
      requires Valid()
      ensures r.Some? <==> page in Free()
      ensures r.Some? ==> r.value.order < |freeLists| && r.value.index < |freeLists[r.value.order]|
      ensures r.Some? ==> freeLists[r.value.order][r.value.index] == r.value.base
      ensures r.Some? ==> InBlock(page, r.value.base, r.value.order)
    {
      var order := 0;
      while order < |freeLists|
        invariant order <= |freeLists|
        invariant forall o: nat, b: nat :: o < order && Has(freeLists, o, b) ==> !InBlock(page, b, o)
      {
        var index := 0;
        while index < |freeLists[order]|
          invariant index <= |freeLists[order]|
          invariant forall j :: 0 <= j < index ==> !InBlock(page, freeLists[order][j], order)
        {
          var base := freeLists[order][index];
          assert Has(freeLists, order, base);
          OrderFits(order);
          var pages := BlockPages(order);
          var end := base + pages.value;
          if page >= base && page < end {
            assert Covered(freeLists, page);
            return Some(Place(order, index, base));
          }
          index := index + 1;
        }
        order := order + 1;
      }
      return None;
    }

    /** Decides whether every page of the range is free. */
    method ContainsRange(base: nat, count: nat) returns (r: bool)
      requires Valid() && base < WORD_LIMIT && count < WORD_LIMIT
      ensures r <==> count != 0 && Range(base, count) <= Free()
    {
      if base + count >= WORD_LIMIT {
        OutOfReach(base, count);
        return false;
      }
      if count == 0 {
        return false;
      }
      var end := base + count;
      var current := base;
      while current < end
        invariant base <= current <= end
        invariant Range(base, current - base) <= Free()
      {
        var found := FindContainingBlock(current);
        if found.None? {
          assert current in Range(base, count);
          return false;
        }
        var place := found.value;
        assert Has(freeLists, place.order, place.base);
        OrderFits(place.order);
        BlockIsFree(freeLists, place.order, place.base);
        var pages := BlockPages(place.order);
        var next := if place.base + pages.value < end then place.base + pages.value else end;
        forall p | p in Range(base, next - base) ensures p in Free() {
          assert p in Range(base, current - base) || p in Range(place.base, Pow2(place.order));
        }
        current := next;
      }
      return true;
    }

    lemma OutOfReach(base: nat, count: nat)
      requires Valid() && base + count >= WORD_LIMIT && base < WORD_LIMIT
      ensures count != 0 && !(Range(base, count) <= Free())
    {
      var p := base + count - 1;
      assert p in Range(base, count);
      assert !Covered(freeLists, p);
    }

    /** Takes a wholly free range out of the lists, returning the ends of split blocks. */
    method CarveRange(base: nat, count: nat) returns (r: Outcome)
      requires Valid() && base + count < WORD_LIMIT && Range(base, count) <= Free()
      modifies this
      ensures r == Done && Valid()
      ensures Free() == old(Free()) - Range(base, count)
      ensures PageCount(freeLists) + count == old(PageCount(freeLists))
    {
      var end := base + count;
      var current := base;
      while current < end
        invariant Valid() && base <= current <= end
        invariant Free() == old(Free()) - Range(base, current - base)
        invariant PageCount(freeLists) + (current - base) == old(PageCount(freeLists))
      {
        assert current in Range(base, count);
        var found := FindContainingBlock(current);
        var place := found.value;
        ghost var before := Free();
        current := CarveBlock(place, current, end);
        assert Free() == before - Range(base, current - base);
        assert Free() == old(Free()) - Range(base, current - base);
      }
      return Done;
    }

    /** Cuts `current .. min(end, block end)` out of one block. */
    method CarveBlock(place: Place, current: nat, end: nat) returns (cut: nat)
      requires Valid() && current < end
      requires place.order < |freeLists| && place.index < |freeLists[place.order]|
      requires freeLists[place.order][place.index] == place.base
      requires InBlock(current, place.base, place.order)
      modifies this
      ensures Valid() && current < cut <= end
      ensures Free() == old(Free()) - Range(current, cut - current)
      ensures PageCount(freeLists) + (cut - current) == old(PageCount(freeLists))
    {
      ghost var l, o := freeLists, place.order;
      assert Has(l, o, place.base);
      OrderFits(o);
      RemoveBlock(l, o, place.index);
      BlockIsFree(l, o, place.base);
      var pages := BlockPages(place.order);
      var blockEnd := place.base + pages.value;
      freeLists := freeLists[place.order := SwapRemove(freeLists[place.order], place.index)];
      if place.base < current {
        var _ := AddRange(place.base, current - place.base);
      }
      cut := if blockEnd < end then blockEnd else end;
      if cut < blockEnd {
        var _ := AddRange(cut, blockEnd - cut);
      }
      CutFromBlock(old(Free()), place.base, current, cut, blockEnd);
    }

    static lemma CutFromBlock(f: iset<nat>, base: nat, current: nat, cut: nat, end: nat)
      requires base <= current <= cut <= end && Range(base, end - base) <= f
      ensures f - Range(base, end - base) + Range(base, current - base) + Range(cut, end - cut)
           == f - Range(current, cut - current)
    {
    }

    method AllocateRange(base: nat, count: nat) returns (r: Outcome)
      requires Valid() && base < WORD_LIMIT && count < WORD_LIMIT
      modifies this
      ensures Valid()
      ensures r == Done <==> count != 0 && Range(base, count) <= old(Free())
      ensures r == Done ==> Free() == old(Free()) - Range(base, count)
      ensures r == Done ==> PageCount(freeLists) + count == old(PageCount(freeLists))
      ensures r != Done ==> freeLists == old(freeLists)
    {
      if count == 0 {
        return Failed(InvalidArgument);
      }
      if base + count >= WORD_LIMIT {
        OutOfReach(base, count);
        return Failed(InvalidArgument);
      }
      var free := ContainsRange(base, count);
      if !free {
        return Failed(OutOfMemory);
      }
      r := CarveRange(base, count);
    }

    /** The start of a free block of at least `count` pages; fails only when no aligned window
        of the rounded-up power of two is free. */
    method FindFirstFit(count: nat) returns (r: Option<nat>)
      requires Valid() && count < WORD_LIMIT
      ensures count == 0 ==> r.None?
      ensures r.Some? ==> Aligned(r.value, CeilLog2(count)) && Range(r.value, Pow2(CeilLog2(count))) <= Free()
      ensures count != 0 && r.None? ==>
                forall b: nat :: Aligned(b, CeilLog2(count)) ==> !(Range(b, Pow2(CeilLog2(count))) <= Free())
    {
      if count == 0 {
        return None;
      }
      ghost var wanted := CeilLog2(count);
      var order := CeilLog2(count);
      while order < |freeLists|
        invariant wanted <= order
        invariant forall o: nat, b: nat :: wanted <= o < order ==> !Has(freeLists, o, b)
      {
        if freeLists[order] != [] {
          var base := freeLists[order][0];
          assert Has(freeLists, order, base);
          BlockIsFree(freeLists, order, base);
          AlignedFiner(base, wanted, order);
          Pow2Monotone(wanted, order);
          assert Range(base, Pow2(wanted)) <= Range(base, Pow2(order));
          return Some(base);
        }
        order := order + 1;
      }
      forall b: nat | Aligned(b, wanted) && Range(b, Pow2(wanted)) <= Free() ensures false {
        var o', b' := InsideOneBlock(freeLists, wanted, b);
      }
      return None;
    }

    /** Adds up the lists as the pool does; saturation is never reached. */
    method FreePageCount() returns (pages: nat)
      requires Valid()
      ensures pages == |PageSet(freeLists)| == PageCount(freeLists)
    {
      pages := 0;
      var order := 0;
      CountFits(freeLists);
      while order < |freeLists|
        invariant order <= |freeLists|
        invariant pages == PageCount(freeLists[..order])
      {
        PageCountPrefix(freeLists, order + 1);
        assert freeLists[..order + 1][..order] == freeLists[..order];
        var size := BlockPages(order);
        var blockPages := if size.Some? then size.value else 0;
        if freeLists[order] != [] {
          assert Has(freeLists, order, freeLists[order][0]);
          OrderFits(order);
        }
        var term := SaturatingMul(|freeLists[order]|, blockPages);
        pages := SaturatingAdd(pages, term);
        order := order + 1;
      }
      assert freeLists[..order] == freeLists;
    }
  }

  function SaturatingAdd(a: nat, b: nat): nat {
    if a + b < WORD_LIMIT then a + b else WORD_LIMIT - 1
  }

  function SaturatingMul(a: nat, b: nat): nat {
    if a * b < WORD_LIMIT then a * b else WORD_LIMIT - 1
  }

  lemma CountFits(l: Lists)
    requires Canonical(l)
    ensures PageCount(l) == |PageSet(l)| <= PAGE_LIMIT
  {
    PageCountIsSize(l);
    RangeSetSize(0, PAGE_LIMIT);
    assert forall p: nat :: p in PageSet(l) ==> InRange(p, 0, PAGE_LIMIT);
    SubsetSize(PageSet(l), RangeSet(0, PAGE_LIMIT));
  }

  lemma {:induction false} SubsetSize(s: set<nat>, t: set<nat>)
    requires s <= t
    ensures |s| <= |t|
  {
    assert t == s + (t - s);
  }

  lemma {:induction false} PageCountPrefix(l: Lists, k: nat)
    requires k <= |l|
    ensures PageCount(l[..k]) <= PageCount(l)
    decreases |l|
  {
    if k == |l| {
      assert l[..k] == l;
    } else {
      PageCountPrefix(l[..|l| - 1], k);
      assert l[..|l| - 1][..k] == l[..k];
    }
  }
}
