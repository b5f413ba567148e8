/** The search for the lowest aligned, wholly free window of an extent. */
module AlignedWindows {
  import opened Dyadic
  import opened FreeLists
  import opened BuddyPools
  import opened Options
  import opened Numbers

  const PAGE_SIZE: nat := 4096

  predicate IsPow2(n: nat) {
    n > 0 && n == Pow2(FloorLog2(n))
  }

  /** An aligned window of `bytes` inside `start .. end` whose pages are all free. */
  ghost predicate Window(free: iset<nat>, start: nat, end: nat, bytes: nat, address: nat)
    requires bytes > 0
  {
    Fits(start, end, bytes, address) && Range(address / PAGE_SIZE, bytes / PAGE_SIZE) <= free
  }

  ghost predicate Fits(start: nat, end: nat, bytes: nat, address: nat)
    requires bytes > 0
  {
    address % bytes == 0 && start <= address && address + bytes <= end
  }

  ghost predicate LeastOf(r: Option<nat>, start: nat, end: nat, bytes: nat)
    requires bytes > 0
  {
    forall a: nat :: Fits(start, end, bytes, a) ==> r.Some? && r.value <= a
  }

  /** `r` is not above any window of `start .. end` that lies in the block of order `o` at `page`. */
  ghost predicate NotAbove(r: Option<nat>, start: nat, end: nat, bytes: nat, page: nat, o: nat)
    requires bytes > 0
  {
    LeastOf(r, Max(page * PAGE_SIZE, start), Min(end, (page + Pow2(o)) * PAGE_SIZE), bytes)
  }

  /** A power of two of at least a page is a power of two of pages. */
  lemma WholePages(bytes: nat)
    requires PAGE_SIZE <= bytes && IsPow2(bytes)
    ensures bytes == PAGE_SIZE * (bytes / PAGE_SIZE)
    ensures bytes / PAGE_SIZE == Pow2(FloorLog2(bytes / PAGE_SIZE))
  {
    var k := FloorLog2(bytes);
    assert Pow2(12) == PAGE_SIZE;
    if k < 12 { Pow2Monotone(k + 1, 12); assert false; }
    Pow2Add(k - 12, 12);
    DivideUnique(bytes, PAGE_SIZE, Pow2(k - 12), 0);
    var f := FloorLog2(Pow2(k - 12));
    Pow2Reflects(f, k - 12);
    if f < k - 12 { Pow2Monotone(f + 1, k - 12); assert false; }
  }

  lemma ExactQuotient(a: nat, m: nat)
    requires m > 0 && a % m == 0
    ensures a == (a / m) * m
  {
  }

  lemma PagesOfMultiple(a: nat, bytes: nat, n: nat, q: nat)
    requires bytes == PAGE_SIZE * n && a == q * bytes
    ensures a / PAGE_SIZE == q * n && a % PAGE_SIZE == 0
  {
    assert q * (PAGE_SIZE * n) == (q * n) * PAGE_SIZE;
    DivideUnique(a, PAGE_SIZE, q * n, 0);
  }

  lemma WindowPages(bytes: nat, a: nat)
    requires PAGE_SIZE <= bytes && IsPow2(bytes) && a % bytes == 0
    ensures a == PAGE_SIZE * (a / PAGE_SIZE) && a % PAGE_SIZE == 0
    ensures Aligned(a / PAGE_SIZE, FloorLog2(bytes / PAGE_SIZE))
    ensures bytes == PAGE_SIZE * (bytes / PAGE_SIZE)
  {
    WholePages(bytes);
    ExactQuotient(a, bytes);
    var n, q := bytes / PAGE_SIZE, a / bytes;
    PagesOfMultiple(a, bytes, n, q);
    AlignedMultiple(q, FloorLog2(n));
  }

  /** The lowest aligned window of a wholly free block, if the block holds one. */
  function Candidate(start: nat, end: nat, bytes: nat, page: nat, o: nat): (r: Option<nat>)
    requires bytes > 0
  {
    var base, blockEnd := page * PAGE_SIZE, (page + Pow2(o)) * PAGE_SIZE;
    if Max(base, start) + bytes - 1 >= WORD_LIMIT then None
    else
      var address := AlignUp(Max(base, start), bytes);
      if address + bytes < WORD_LIMIT && address + bytes <= Min(end, blockEnd) then Some(address) else None
  }

  lemma CandidateIsLowest(start: nat, end: nat, bytes: nat, page: nat, o: nat)
    requires bytes > 0 && end < WORD_LIMIT
    ensures NotAbove(Candidate(start, end, bytes, page, o), start, end, bytes, page, o)
    ensures var c := Candidate(start, end, bytes, page, o);
            c.Some? ==> Fits(Max(page * PAGE_SIZE, start), Min(end, (page + Pow2(o)) * PAGE_SIZE), bytes, c.value)
  {
    AlignUpLeast(Max(page * PAGE_SIZE, start), bytes);
  }

  lemma CandidateIsWindow(l: Lists, start: nat, end: nat, bytes: nat, page: nat, o: nat)
    requires Has(l, o, page) && PAGE_SIZE <= bytes && IsPow2(bytes) && end < WORD_LIMIT
    requires Candidate(start, end, bytes, page, o).Some?
    ensures Window(Pages(l), start, end, bytes, Candidate(start, end, bytes, page, o).value)
  {
    var c := Candidate(start, end, bytes, page, o).value;
    CandidateIsLowest(start, end, bytes, page, o);
    WindowPages(bytes, c);
    BlockIsFree(l, o, page);
    assert Range(c / PAGE_SIZE, bytes / PAGE_SIZE) <= Range(page, Pow2(o));
  }

  /** Every window lies in one listed block of at least its own order. */
  lemma WindowInBlock(l: Lists, start: nat, end: nat, bytes: nat, a: nat) returns (o: nat, page: nat)
    requires Canonical(l) && PAGE_SIZE <= bytes && IsPow2(bytes) && Window(Pages(l), start, end, bytes, a)
    ensures Has(l, o, page) && FloorLog2(bytes / PAGE_SIZE) <= o
    ensures Fits(Max(page * PAGE_SIZE, start), Min(end, (page + Pow2(o)) * PAGE_SIZE), bytes, a)
  {
    WholePages(bytes);
    WindowPages(bytes, a);
    o, page := InsideOneBlock(l, FloorLog2(bytes / PAGE_SIZE), a / PAGE_SIZE);
  }

  ghost predicate NotAboveLists(r: Option<nat>, start: nat, end: nat, bytes: nat, l: Lists, from: nat, to: nat)
    requires bytes > 0
  {
    forall o: nat, page: nat :: from <= o < to && Has(l, o, page) ==> NotAbove(r, start, end, bytes, page, o)
  }

  lemma LowerStillNotAbove(r: Option<nat>, r': Option<nat>, start: nat, end: nat, bytes: nat, page: nat, o: nat)
    requires bytes > 0 && NotAbove(r, start, end, bytes, page, o)
    requires r.Some? ==> r'.Some? && r'.value <= r.value
    ensures NotAbove(r', start, end, bytes, page, o)
  {
  }

  /** Looks only at the blocks that are large enough, yet finds the lowest window of all. */
  method LowestWindow(l: Lists, start: nat, end: nat, bytes: nat) returns (r: Option<nat>)
    requires Canonical(l) && |l| <= 52 && start < end < WORD_LIMIT && PAGE_SIZE <= bytes < WORD_LIMIT && IsPow2(bytes)
    ensures r.Some? ==> Window(Pages(l), start, end, bytes, r.value)
    ensures forall a: nat :: Window(Pages(l), start, end, bytes, a) ==> r.Some? && r.value <= a
  {
    var wanted := FloorLog2(bytes / PAGE_SIZE);
    r := None;
    var order := wanted;
    while order < |l|
      invariant wanted <= order
      invariant r.Some? ==> Window(Pages(l), start, end, bytes, r.value)
      invariant NotAboveLists(r, start, end, bytes, l, wanted, order)
    {
      r := LowestInList(l, wanted, order, start, end, bytes, r);
      order := order + 1;
    }
    forall a: nat | Window(Pages(l), start, end, bytes, a) ensures r.Some? && r.value <= a {
      var o, page := WindowInBlock(l, start, end, bytes, a);
      assert NotAbove(r, start, end, bytes, page, o);
    }
  }

  method LowestInList(l: Lists, ghost wanted: nat, order: nat, start: nat, end: nat, bytes: nat, best: Option<nat>)
    returns (r: Option<nat>)
    requires Canonical(l) && order < |l| <= 52 && end < WORD_LIMIT && PAGE_SIZE <= bytes < WORD_LIMIT && IsPow2(bytes)
    requires best.Some? ==> Window(Pages(l), start, end, bytes, best.value)
    requires NotAboveLists(best, start, end, bytes, l, wanted, order)
    ensures r.Some? ==> Window(Pages(l), start, end, bytes, r.value)
    ensures NotAboveLists(r, start, end, bytes, l, wanted, order + 1)
  {
    hide Window, Candidate, Pages, NotAbove, Canonical, IsPow2;
    r := best;
    var index := 0;
    while index < |l[order]|
      invariant index <= |l[order]|
      invariant r.Some? ==> Window(Pages(l), start, end, bytes, r.value)
      invariant best.Some? ==> r.Some? && r.value <= best.value
      invariant forall j :: 0 <= j < index ==> NotAbove(r, start, end, bytes, l[order][j], order)
    {
      var page := l[order][index];
      assert Has(l, order, page);
      var address := Candidate(start, end, bytes, page, order);
      CandidateIsLowest(start, end, bytes, page, order);
      if address.Some? {
        CandidateIsWindow(l, start, end, bytes, page, order);
      }
      if address.Some? && (r.None? || address.value < r.value) {
        forall j | 0 <= j < index ensures NotAbove(address, start, end, bytes, l[order][j], order) {
          LowerStillNotAbove(r, address, start, end, bytes, l[order][j], order);
        }
        r := address;
      } else {
        LowerStillNotAbove(address, r, start, end, bytes, page, order);
      }
      index := index + 1;
    }
    forall o: nat, page: nat | wanted <= o < order + 1 && Has(l, o, page)
      ensures NotAbove(r, start, end, bytes, page, o)
    {
      if o < order {
        LowerStillNotAbove(best, r, start, end, bytes, page, o);
      }
    }
  }
}
