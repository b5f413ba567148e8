/** Cutting an aligned block out of an untyped range: the prefixes before it, and how many there are. */
module Splitting {
  import opened Dyadic
  import opened Options
  import opened Numbers

  const PAGE_BITS: nat := 12
  const PAGE_SIZE: nat := 4096
  const WORD_BITS: nat := 64
  const WORD_LIMIT: nat := 0x1_0000_0000_0000_0000

  /** The number of trailing zero bits of a machine word. */
  function TrailingZeros(v: nat): (r: nat)
    ensures r <= WORD_BITS
  {
    ZerosFrom(v, 0)
  }

  function ZerosFrom(v: nat, k: nat): (r: nat)
    requires k <= WORD_BITS
    ensures k <= r <= WORD_BITS
    decreases WORD_BITS - k
  {
    if k == WORD_BITS || !Aligned(v, k + 1) then k else ZerosFrom(v, k + 1)
  }

  lemma {:induction false} ZerosFromIsLargest(v: nat, k: nat)
    requires k <= WORD_BITS && Aligned(v, k)
    ensures Aligned(v, ZerosFrom(v, k)) && (ZerosFrom(v, k) < WORD_BITS ==> !Aligned(v, ZerosFrom(v, k) + 1))
    decreases WORD_BITS - k
  {
    if k < WORD_BITS && Aligned(v, k + 1) {
      ZerosFromIsLargest(v, k + 1);
    }
  }

  /** It is the largest order at which the word is aligned. */
  lemma TrailingZerosIsLargest(v: nat, k: nat)
    requires 0 < v < WORD_LIMIT
    ensures TrailingZeros(v) < WORD_BITS && (Aligned(v, k) <==> k <= TrailingZeros(v))
  {
    var t := TrailingZeros(v);
    assert Pow2(0) == 1;
    ZerosFromIsLargest(v, 0);
    if t == WORD_BITS {
      Pow2Of64();
      assert false;
    }
    if k <= t {
      AlignedFiner(v, k, t);
    } else if Aligned(v, k) {
      AlignedFiner(v, t + 1, k);
    }
  }

  lemma ZeroIsAligned()
    ensures TrailingZeros(0) == WORD_BITS
  {
    assert Pow2(0) == 1;
    ZerosFromIsLargest(0, 0);
    AlignedSelf(TrailingZeros(0) + 1);
  }

  /** The order of the next prefix in front of `end`. */
  function PrefixRadix(start: nat, end: nat): (r: Option<nat>)
    ensures r.Some? ==> start < end
  {
    if end < start then None
    else if end - start < PAGE_SIZE || !PageAligned(start) || !PageAligned(end) then None
    else Some(Min(TrailingZeros(start), FloorLog2(end - start)))
  }

  predicate PageAligned(address: nat) {
    Aligned(address, PAGE_BITS)
  }

  lemma PageBits()
    ensures Pow2(PAGE_BITS) == PAGE_SIZE
  {
    assert Pow2(12) == 4096;
  }

  lemma WholePages(start: nat, end: nat)
    requires PageAligned(start) && PageAligned(end) && start < end
    ensures end - start >= PAGE_SIZE
  {
  }

  /** A page-aligned gap always has a next prefix, which does not reach past the gap. The gap behind
      it is page-aligned again. */
  lemma PrefixFits(start: nat, end: nat)
    requires PageAligned(start) && PageAligned(end) && start < end < WORD_LIMIT
    ensures PrefixRadix(start, end).Some?
    ensures var r := PrefixRadix(start, end).value;
            PAGE_BITS <= r < WORD_BITS && start + Pow2(r) <= end && PageAligned(start + Pow2(r))
  {
    hide TrailingZeros, FloorLog2, PageAligned;
    WholePages(start, end);
    LogBounds(end - start);
    var r, l := PrefixRadix(start, end).value, FloorLog2(end - start);
    AtLeastPages(start);
    Pow2Monotone(r, l);
    StepAligned(start, r);
  }

  /** The next prefix starts aligned to its own size. */
  lemma PrefixAligned(start: nat, end: nat)
    requires PageAligned(start) && start < WORD_LIMIT && PrefixRadix(start, end).Some?
    ensures Aligned(start, PrefixRadix(start, end).value)
  {
    StartAligned(start, PrefixRadix(start, end).value);
  }

  lemma AtLeastPages(start: nat)
    requires PageAligned(start) && start < WORD_LIMIT
    ensures PAGE_BITS <= TrailingZeros(start)
  {
    hide TrailingZeros, PageAligned;
    StartAligned(start, PAGE_BITS);
  }

  lemma StaysAligned(start: nat, r: nat)
    requires r <= TrailingZeros(start) && PageAligned(start) && start + Pow2(r) < WORD_LIMIT
    ensures r <= TrailingZeros(start + Pow2(r))
  {
    hide TrailingZeros, PageAligned;
    StartAligned(start, r);
    AlignedSelf(r);
    AlignedStep(start, Pow2(r), r);
    TrailingZerosIsLargest(start + Pow2(r), r);
  }

  lemma StartAligned(start: nat, r: nat)
    requires PageAligned(start) && start < WORD_LIMIT
    ensures r <= TrailingZeros(start) ==> Aligned(start, r)
    ensures PAGE_BITS <= TrailingZeros(start)
  {
    hide TrailingZeros;
    if start > 0 {
      TrailingZerosIsLargest(start, PAGE_BITS);
      TrailingZerosIsLargest(start, r);
    } else {
      ZeroIsAligned();
      AlignedSelf(r);
    }
  }

  lemma StepAligned(start: nat, r: nat)
    requires PageAligned(start) && PAGE_BITS <= r
    ensures PageAligned(start + Pow2(r))
  {
    PageBits();
    AlignedSelf(r);
    AlignedFiner(Pow2(r), PAGE_BITS, r);
    AlignedStep(start, Pow2(r), PAGE_BITS);
  }

  lemma LogBounds(v: nat)
    requires PAGE_SIZE <= v < WORD_LIMIT
    ensures PAGE_BITS <= FloorLog2(v) < WORD_BITS
  {
    PageBits();
    Pow2Of64();
    var l := FloorLog2(v);
    if l < PAGE_BITS {
      Pow2Monotone(l + 1, PAGE_BITS);
      assert false;
    }
    if WORD_BITS <= l {
      Pow2Monotone(WORD_BITS, l);
      assert false;
    }
  }

  /** How many prefixes the greedy loop takes from `start` to `end`. */
  ghost function Prefixes(start: nat, end: nat): nat
    decreases if start < end then end - start else 0
  {
    if PrefixRadix(start, end).None? then 0 else 1 + Prefixes(start + Pow2(PrefixRadix(start, end).value), end)
  }

  lemma OnePrefix(start: nat, end: nat, r: nat)
    requires PrefixRadix(start, end) == Some(r)
    ensures Prefixes(start, end) == 1 + Prefixes(start + Pow2(r), end)
  {
    hide TrailingZeros, FloorLog2, PageAligned;
  }

  ghost predicate Gap(start: nat, end: nat) {
    PageAligned(start) && PageAligned(end) && start <= end < WORD_LIMIT
  }

  /** The gap is empty, or its start is aligned beyond its length, which is below `2^l`. */
  ghost predicate Falling(start: nat, end: nat, l: nat) {
    Gap(start, end) && (start < end ==> end - start < Pow2(l) && FloorLog2(end - start) < TrailingZeros(start))
  }

  lemma {:induction false} LogIsUnique(v: nat, l: nat)
    requires v > 0 && v < Pow2(l)
    ensures FloorLog2(v) < l
  {
    if l <= FloorLog2(v) {
      Pow2Monotone(l, FloorLog2(v));
    }
  }

  lemma FallingStep(start: nat, end: nat, l: nat) returns (r: nat)
    requires Falling(start, end, l) && start < end
    ensures PrefixRadix(start, end) == Some(r) && PAGE_BITS <= r < l && Falling(start + Pow2(r), end, r)
  {
    hide TrailingZeros, FloorLog2, PageAligned;
    PrefixFits(start, end);
    r := FloorLog2(end - start);
    LogIsUnique(end - start, l);
    var next := start + Pow2(r);
    if next < end {
      LogIsUnique(end - next, r);
      StaysAligned(start, r);
    }
  }

  /** Descending: once the start is aligned beyond the gap, the orders strictly decrease. */
  lemma {:induction false} Descending(start: nat, end: nat, l: nat)
    requires Falling(start, end, l) && PAGE_BITS <= l
    ensures Prefixes(start, end) <= l - PAGE_BITS
    decreases end - start
  {
    hide TrailingZeros, FloorLog2, PrefixRadix, PageAligned;
    if start < end {
      var r := FallingStep(start, end, l);
      OnePrefix(start, end, r);
      Descending(start + Pow2(r), end, r);
    }
  }

  /** Ascending: a prefix as large as the start's alignment leaves a better aligned start. */
  lemma Ascends(start: nat)
    requires 0 < start && start + Pow2(TrailingZeros(start)) < WORD_LIMIT
    ensures TrailingZeros(start + Pow2(TrailingZeros(start))) > TrailingZeros(start)
  {
    hide TrailingZeros, PageAligned;
    var t := TrailingZeros(start);
    TrailingZerosIsLargest(start, t);
    TrailingZerosIsLargest(start, t + 1);
    OddMultiple(start, Pow2(t));
    TrailingZerosIsLargest(start + Pow2(t), t + 1);
  }

  lemma OddMultiple(v: nat, m: nat)
    requires m > 0 && v % m == 0 && v % (2 * m) != 0
    ensures (v + m) % (2 * m) == 0
  {
    var q := v / m;
    if q % 2 == 0 {
      assert v == (q / 2) * (2 * m) + 0;
      DivideUnique(v, 2 * m, q / 2, 0);
    } else {
      assert v + m == (q / 2 + 1) * (2 * m) + 0 by {
        assert v == (2 * (q / 2) + 1) * m;
      }
      DivideUnique(v + m, 2 * m, q / 2 + 1, 0);
    }
  }

  /** Once the start is aligned beyond the gap, fewer prefixes remain than there are address bits. */
  lemma FewRemain(start: nat, end: nat)
    requires Gap(start, end) && (start < end ==> FloorLog2(end - start) < TrailingZeros(start))
    ensures Prefixes(start, end) <= WORD_BITS - PAGE_BITS
  {
    hide TrailingZeros, FloorLog2, PageAligned;
    if start < end {
      WholePages(start, end);
      LogBounds(end - start);
      Descending(start, end, FloorLog2(end - start) + 1);
    }
  }

  /** One more prefix of a gap whose start limits the prefix: the start is better aligned afterwards. */
  lemma RisingStep(start: nat, end: nat, t: nat)
    requires Gap(start, end) && start < end && TrailingZeros(start) == t <= FloorLog2(end - start)
    ensures PrefixRadix(start, end) == Some(t) && PAGE_BITS <= t < WORD_BITS
    ensures Gap(start + Pow2(t), end) && t < TrailingZeros(start + Pow2(t))
  {
    hide TrailingZeros, FloorLog2, PageAligned;
    PrefixFits(start, end);
    WholePages(start, end);
    LogBounds(end - start);
    AtLeastPages(start);
    ZeroIsAligned();
    Ascends(start);
  }

  lemma {:induction false} Rising(start: nat, end: nat, t: nat)
    requires Gap(start, end) && start < end && TrailingZeros(start) == t <= FloorLog2(end - start)
    ensures t < WORD_BITS && Prefixes(start, end) <= (WORD_BITS - t) + (WORD_BITS - PAGE_BITS)
    decreases end - start
  {
    hide TrailingZeros, FloorLog2, PrefixRadix, PageAligned;
    RisingStep(start, end, t);
    OnePrefix(start, end, t);
    var next := start + Pow2(t);
    if next < end && TrailingZeros(next) <= FloorLog2(end - next) {
      Rising(next, end, TrailingZeros(next));
    } else {
      FewRemain(next, end);
    }
  }

  /** At most two prefixes per address bit above the page bits. */
  lemma PrefixBound(start: nat, end: nat)
    requires Gap(start, end)
    ensures Prefixes(start, end) <= 2 * (WORD_BITS - PAGE_BITS)
  {
    hide TrailingZeros, FloorLog2, PrefixRadix, PageAligned;
    if start < end && TrailingZeros(start) <= FloorLog2(end - start) {
      AtLeastPages(start);
      Rising(start, end, TrailingZeros(start));
    } else {
      FewRemain(start, end);
    }
  }
}
