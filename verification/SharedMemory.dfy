/** Free ranges under two indexes, and the reservations of shared memory made from them. */
module SharedMemory {
  import opened Options
  import opened Capabilities

  // ---- sets of ranges ----

  /** Lengths by first element. */
  type Ranges = map<nat, nat>

  predicate Within(m: Ranges, s: nat, x: nat) {
    s in m && s <= x < s + m[s]
  }

  ghost predicate Covers(m: Ranges, x: nat) {
    exists s {:trigger Within(m, s, x)} :: Within(m, s, x)
  }

  /** No range is empty, and between two ranges there is a gap. */
  ghost predicate Separated(m: Ranges) {
    && (forall s :: s in m ==> m[s] > 0)
    && forall s, t :: s in m && t in m && s < t ==> s + m[s] < t
  }

  /** Some element of `start .. start + count` is covered. */
  ghost predicate Meets(m: Ranges, start: nat, count: nat) {
    exists x {:trigger Covers(m, x)} :: start <= x < start + count && Covers(m, x)
  }

  lemma Without(m: Ranges, s: nat, x: nat)
    requires Separated(m) && s in m
    ensures Separated(m - {s})
    ensures Covers(m - {s}, x) <==> Covers(m, x) && !(s <= x < s + m[s])
  {
    var m' := m - {s};
    if Covers(m', x) {
      var t: nat :| Within(m', t, x);
      assert Within(m, t, x) && t != s;
    }
    if Covers(m, x) && !(s <= x < s + m[s]) {
      var t: nat :| Within(m, t, x);
      assert Within(m', t, x);
    }
  }

  lemma With(m: Ranges, s: nat, c: nat, x: nat)
    requires Separated(m) && c > 0 && forall t :: t in m ==> t + m[t] < s || s + c < t
    ensures Separated(m[s := c])
    ensures Covers(m[s := c], x) <==> Covers(m, x) || s <= x < s + c
  {
    var m' := m[s := c];
    if Covers(m', x) {
      var t: nat :| Within(m', t, x);
      assert t != s ==> Within(m, t, x);
    }
    if Covers(m, x) {
      var t: nat :| Within(m, t, x);
      assert Within(m', t, x);
    }
    if s <= x < s + c {
      assert Within(m', s, x);
    }
  }

  /** A range that meets nothing covered lies beside every range. */
  lemma Apart(m: Ranges, start: nat, count: nat, t: nat)
    requires Separated(m) && !Meets(m, start, count) && count > 0 && t in m
    ensures t + m[t] <= start || start + count <= t
  {
    if start <= t < start + count {
      assert Within(m, t, t) && Covers(m, t);
    } else if t < start < t + m[t] {
      assert Within(m, t, start) && Covers(m, start);
    }
  }

  /** Nothing is covered right in front of a range. */
  lemma LeftNeighbour(m: Ranges, n: Ranges, t: nat, s: nat)
    requires Separated(m) && s in m && t < s && Within(n, t, s)
    ensures exists x {:trigger Covers(m, x)} :: !(Covers(m, x) <==> Covers(n, x))
  {
    assert Within(n, t, s - 1) && Covers(n, s - 1);
    assert !Covers(m, s - 1);
  }

  /** The covered elements determine the ranges: there is one separated way to cover a set. */
  lemma CoveredOnce(m: Ranges, n: Ranges, s: nat)
    requires Separated(m) && Separated(n) && (forall x {:trigger Covers(m, x)} :: Covers(m, x) <==> Covers(n, x))
    requires s in m
    ensures s in n && m[s] <= n[s]
  {
    assert Within(m, s, s) && Covers(m, s);
    var t: nat :| Within(n, t, s);
    if t < s {
      LeftNeighbour(m, n, t, s);
    }
    if s + n[s] < s + m[s] {
      var e := s + n[s];
      assert Within(m, s, e) && Covers(m, e) && Covers(n, e);
      var u: nat :| Within(n, u, e);
      assert false;
    }
  }

  lemma Canonical(m: Ranges, n: Ranges)
    requires Separated(m) && Separated(n) && forall x {:trigger Covers(m, x)} :: Covers(m, x) <==> Covers(n, x)
    ensures m == n
  {
    forall s | s in m ensures s in n && m[s] <= n[s] {
      CoveredOnce(m, n, s);
    }
    assert forall x {:trigger Covers(n, x)} :: Covers(n, x) <==> Covers(m, x);
    forall s | s in n ensures s in m && n[s] <= m[s] {
      CoveredOnce(n, m, s);
    }
  }

  // ---- ordered lookups ----

  /** The greatest key below the bound. */
  method LastBelow<V>(m: map<nat, V>, bound: nat) returns (r: Option<nat>)
    ensures r.Some? ==> r.value in m && r.value < bound && forall k :: k in m && k < bound ==> k <= r.value
    ensures r.None? ==> forall k :: k in m ==> k >= bound
  {
    r := None;
    var rest := m.Keys;
    while rest != {}
      invariant rest <= m.Keys
      invariant r.Some? ==>
                r.value in m && r.value < bound && forall k :: k in m && k !in rest && k < bound ==> k <= r.value
      invariant r.None? ==> forall k :: k in m && k !in rest ==> k >= bound
      decreases rest
    {
      var k :| k in rest;
      if k < bound && (r.None? || r.value < k) {
        r := Some(k);
      }
      rest := rest - {k};
    }
  }

  /** The least key from the bound on. */
  method FirstFrom(m: Ranges, bound: nat) returns (r: Option<nat>)
    ensures r.Some? ==> r.value in m && r.value >= bound && forall k :: k in m && k >= bound ==> r.value <= k
    ensures r.None? ==> forall k :: k in m ==> k < bound
  {
    r := None;
    var rest := m.Keys;
    while rest != {}
      invariant rest <= m.Keys
      invariant r.Some? ==>
                r.value in m && r.value >= bound && forall k :: k in m && k !in rest && k >= bound ==> r.value <= k
      invariant r.None? ==> forall k :: k in m && k !in rest ==> k < bound
      decreases rest
    {
      var k :| k in rest;
      if k >= bound && (r.None? || k < r.value) {
        r := Some(k);
      }
      rest := rest - {k};
    }
  }

  predicate Precedes(a: (nat, nat), b: (nat, nat)) {
    a.0 < b.0 || (a.0 == b.0 && a.1 <= b.1)
  }

  /** The least pair, by length and then by start, from a length on. */
  method SmallestFrom(s: set<(nat, nat)>, count: nat) returns (r: Option<(nat, nat)>)
    ensures r.Some? ==>
              r.value in s && r.value.0 >= count && forall e :: e in s && e.0 >= count ==> Precedes(r.value, e)
    ensures r.None? ==> forall e :: e in s ==> e.0 < count
  {
    r := None;
    var rest := s;
    while rest != {}
      invariant rest <= s
      invariant r.Some? ==>
                && r.value in s && r.value.0 >= count
                && forall e :: e in s && e !in rest && e.0 >= count ==> Precedes(r.value, e)
      invariant r.None? ==> forall e :: e in s && e !in rest ==> e.0 < count
      decreases rest
    {
      var e: (nat, nat) :| e in rest;
      if e.0 >= count && (r.None? || !Precedes(r.value, e)) {
        r := Some(e);
      }
      rest := rest - {e};
    }
  }

  // ---- free ranges ----

  /** A range at least as long as asked for; none that is long enough is shorter, or as short and lower. */
  ghost predicate BestFit(m: Ranges, count: nat, start: nat) {
    start in m && m[start] >= count && forall s :: s in m && m[s] >= count ==> Precedes((m[start], start), (m[s], s))
  }

  ghost predicate Agree(m: Ranges, bySize: set<(nat, nat)>) {
    forall c, s :: (c, s) in bySize <==> s in m && m[s] == c
  }

  class FreeRanges {
    var byAddress: Ranges
    var bySize: set<(nat, nat)>

    ghost predicate Valid()
      reads this
    {
      Agree(byAddress, bySize) && Separated(byAddress)
    }

    constructor ()
      ensures Valid() && byAddress == map[]
    {
      byAddress, bySize := map[], {};
    }

    method Find(count: nat) returns (r: Option<nat>)
      requires Valid()
      ensures r.Some? ==> BestFit(byAddress, count, r.value)
      ensures r.None? ==> forall s :: s in byAddress ==> byAddress[s] < count
    {
      var e := SmallestFrom(bySize, count);
      if e.None? {
        assert forall s :: s in byAddress ==> (byAddress[s], s) in bySize;
        return None;
      }
      assert forall s :: s in byAddress ==> (byAddress[s], s) in bySize;
      return Some(e.value.1);
    }

    method Remove(start: nat) returns (count: nat)
      requires Agree(byAddress, bySize) && start in byAddress
      modifies this
      ensures Agree(byAddress, bySize) && count == old(byAddress)[start] && byAddress == old(byAddress) - {start}
    {
      count := byAddress[start];
      byAddress := byAddress - {start};
      bySize := bySize - {(count, start)};
    }

    /** Takes out the range that ends where a new one starts. */
    method JoinPrevious(start: nat, count: nat) returns (first: nat, length: nat)
      requires Valid() && Pending(byAddress, byAddress, start, count, start, count)
      modifies this
      ensures Agree(byAddress, bySize) && Pending(old(byAddress), byAddress, start, count, first, length)
      ensures forall t :: t in byAddress ==> t + byAddress[t] != first
    {
      hide Covers;
      first, length := start, count;
      var previous := LastBelow(byAddress, start);
      if previous.Some? && previous.value + byAddress[previous.value] == start {
        JoinBefore(byAddress, byAddress, start, count, start, count, previous.value);
        var joined := Remove(previous.value);
        first, length := previous.value, length + joined;
      }
    }

    /** Takes out the range that starts where a new one ends. */
    method JoinNext(first: nat, count: nat, ghost m0: Ranges, ghost start: nat, ghost added: nat) returns (length: nat)
      requires Agree(byAddress, bySize) && Pending(m0, byAddress, start, added, first, count)
      requires forall t :: t in byAddress ==> t + byAddress[t] != first
      modifies this
      ensures Agree(byAddress, bySize) && Pending(m0, byAddress, start, added, first, length)
      ensures forall t :: t in byAddress ==> t + byAddress[t] != first && t != first + length
    {
      hide Covers;
      length := count;
      var next := FirstFrom(byAddress, first);
      if next.Some? && first + length == next.value {
        JoinAfter(m0, byAddress, start, added, first, length, next.value);
        var joined := Remove(next.value);
        length := length + joined;
      }
    }

    /** Adds a range that meets none of the others, joining it with those beside it. */
    method Insert(start: nat, count: nat)
      requires Valid() && count > 0 && !Meets(byAddress, start, count)
      modifies this
      ensures Valid() && Added(old(byAddress), byAddress, start, count)
    {
      hide Covers, Meets, Added;
      ghost var m0 := byAddress;
      NotYet(m0, start, count);
      var first, length := JoinPrevious(start, count);
      length := JoinNext(first, length, m0, start, count);
      Settle(m0, byAddress, start, count, first, length);
      byAddress := byAddress[first := length];
      bySize := bySize + {(length, first)};
    }

    /** Takes the front of a free range. */
    method Take(start: nat, count: nat)
      requires Valid() && start in byAddress && 0 < count <= byAddress[start]
      modifies this
      ensures Valid() && Removed(old(byAddress), byAddress, start, count)
    {
      hide Covers, Meets, Added, Removed;
      ghost var m0 := byAddress;
      var length := Remove(start);
      Dropped(m0, start);
      ghost var m1 := byAddress;
      if length > count {
        RestIsFree(m0, start, start + count, length - count);
        Insert(start + count, length - count);
        PutBack(m0, m1, byAddress, start, length, start + count, length - count);
      }
    }

    /** Withdraws whatever is free of a range. */
    method Exclude(start: nat, count: nat)
      requires Valid() && count > 0
      modifies this
      ensures Valid() && Removed(old(byAddress), byAddress, start, count)
    {
      hide Covers, Meets, Added, Removed;
      ghost var m0 := byAddress;
      var end := start + count;
      ghost var from := end;
      NothingRemoved(m0, end);
      while true
        invariant Valid() && start <= from <= end && Removed(m0, byAddress, from, end - from)
        decreases from
      {
        ghost var m1 := byAddress;
        var base := LastBelow(byAddress, end);
        if base.None? || base.value + byAddress[base.value] <= start {
          NothingLeft(m0, byAddress, start, from, end, base);
          return;
        }
        Progress(m0, byAddress, start, from, end, base.value);
        var length := Remove(base.value);
        Dropped(m1, base.value);
        if base.value + length > end {
          TailIsFree(m1, base.value, end);
          Insert(end, base.value + length - end);
        }
        ghost var m2 := byAddress;
        if base.value < start {
          HeadIsFree(m1, m2, base.value, length, start, end);
          Insert(base.value, start - base.value);
        }
        Cut(m0, m1, m2, byAddress, base.value, length, start, from, end);
        from := if base.value < start then start else base.value;
      }
    }
  }

  ghost predicate Added(m: Ranges, m': Ranges, start: nat, count: nat) {
    forall x: nat {:trigger Covers(m', x)} :: Covers(m', x) <==> Covers(m, x) || start <= x < start + count
  }

  ghost predicate Removed(m: Ranges, m': Ranges, start: nat, count: nat) {
    forall x: nat {:trigger Covers(m', x)} :: Covers(m', x) <==> Covers(m, x) && !(start <= x < start + count)
  }

  // ---- inserting ----

  /** A range that is still to be stored, joined with the neighbours already taken out. */
  ghost predicate Pending(m0: Ranges, m: Ranges, start: nat, count: nat, first: nat, length: nat) {
    && Separated(m) && length > 0
    && (forall t :: t in m ==> t + m[t] <= first || first + length <= t)
    && forall x: nat {:trigger Covers(m, x)} :: Covers(m, x) || first <= x < first + length <==>
         Covers(m0, x) || start <= x < start + count
  }

  lemma NotYet(m: Ranges, start: nat, count: nat)
    requires Separated(m) && count > 0 && !Meets(m, start, count)
    ensures Pending(m, m, start, count, start, count)
  {
    forall t | t in m ensures t + m[t] <= start || start + count <= t {
      Apart(m, start, count, t);
    }
  }

  lemma JoinBefore(m0: Ranges, m: Ranges, start: nat, count: nat, first: nat, length: nat, p: nat)
    requires Pending(m0, m, start, count, first, length) && p in m && p + m[p] == first
    ensures Pending(m0, m - {p}, start, count, p, length + m[p])
    ensures forall t :: t in m - {p} ==> t + m[t] != p
  {
    hide Covers;
    Without(m, p, 0);
    forall x: nat
      ensures Covers(m - {p}, x) || p <= x < p + (length + m[p]) <==> Covers(m0, x) || start <= x < start + count
    {
      Without(m, p, x);
      if p <= x < first {
        InRange(m, p, x);
      }
    }
  }

  lemma JoinAfter(m0: Ranges, m: Ranges, start: nat, count: nat, first: nat, length: nat, p: nat)
    requires Pending(m0, m, start, count, first, length) && p in m && p == first + length
    ensures Pending(m0, m - {p}, start, count, first, length + m[p])
    ensures forall t :: t in m - {p} ==> t != p + m[p]
  {
    hide Covers;
    Without(m, p, 0);
    forall x: nat
      ensures Covers(m - {p}, x) || first <= x < first + (length + m[p]) <==>
                Covers(m0, x) || start <= x < start + count
    {
      Without(m, p, x);
      if p <= x < p + m[p] {
        InRange(m, p, x);
      }
    }
  }

  lemma Settle(m0: Ranges, m: Ranges, start: nat, count: nat, first: nat, length: nat)
    requires Pending(m0, m, start, count, first, length)
    requires forall t :: t in m ==> t + m[t] != first && t != first + length
    ensures Separated(m[first := length]) && Added(m0, m[first := length], start, count)
  {
    hide Covers;
    With(m, first, length, 0);
    forall x: nat ensures Covers(m[first := length], x) <==> Covers(m0, x) || start <= x < start + count {
      With(m, first, length, x);
    }
  }

  // ---- removing ----

  lemma Dropped(m: Ranges, s: nat)
    requires Separated(m) && s in m
    ensures Separated(m - {s}) && Removed(m, m - {s}, s, m[s])
  {
    hide Covers;
    Without(m, s, 0);
    forall x: nat ensures Covers(m - {s}, x) <==> Covers(m, x) && !(s <= x < s + m[s]) {
      Without(m, s, x);
    }
  }

  /** Part of a range that was taken out is not covered. */
  lemma RestIsFree(m: Ranges, s: nat, from: nat, count: nat)
    requires Separated(m) && s in m && s <= from && from + count <= s + m[s]
    ensures !Meets(m - {s}, from, count)
  {
    Dropped(m, s);
  }

  lemma TailIsFree(m: Ranges, s: nat, end: nat)
    requires Separated(m) && s in m && s < end < s + m[s]
    ensures !Meets(m - {s}, end, s + m[s] - end)
  {
    Dropped(m, s);
  }

  lemma InRange(m: Ranges, s: nat, x: nat)
    requires Within(m, s, x)
    ensures Covers(m, x)
  {
  }

  lemma PutBack(m0: Ranges, m1: Ranges, m2: Ranges, s: nat, length: nat, from: nat, count: nat)
    requires s in m0 && m0[s] == length && Removed(m0, m1, s, length) && Added(m1, m2, from, count)
    requires s <= from && from + count == s + length
    ensures Removed(m0, m2, s, from - s)
  {
    forall x: nat ensures Covers(m2, x) <==> Covers(m0, x) && !(s <= x < from) {
      if s <= x < s + length {
        InRange(m0, s, x);
      }
      assert Covers(m1, x) <==> Covers(m0, x) && !(s <= x < s + length);
    }
  }

  lemma NothingRemoved(m: Ranges, at: nat)
    ensures Removed(m, m, at, 0)
  {
  }

  lemma HeadIsFree(m1: Ranges, m2: Ranges, s: nat, length: nat, start: nat, end: nat)
    requires Separated(m1) && s in m1 && m1[s] == length && s < start < s + length && start < end
    requires m2 == m1 - {s} || (s + length > end && Added(m1 - {s}, m2, end, s + length - end))
    ensures !Meets(m2, s, start - s)
  {
    Dropped(m1, s);
    forall x: nat | s <= x < start ensures !Covers(m2, x) {
      assert !Covers(m1 - {s}, x);
    }
  }

  /** No range from below reaches into what is to be excluded. */
  lemma NothingLeft(m0: Ranges, m: Ranges, start: nat, from: nat, end: nat, base: Option<nat>)
    requires Separated(m) && start <= from <= end && Removed(m0, m, from, end - from)
    requires base.None? ==> forall k :: k in m ==> k >= end
    requires base.Some? ==>
              && base.value in m && base.value + m[base.value] <= start
              && forall k :: k in m && k < end ==> k <= base.value
    ensures Removed(m0, m, start, end - start)
  {
    forall x: nat ensures Covers(m, x) <==> Covers(m0, x) && !(start <= x < end) {
      if start <= x < end && Covers(m, x) {
        var s: nat :| Within(m, s, x);
        assert false;
      }
    }
  }

  /** A range that reaches in starts below what is already excluded. */
  lemma Progress(m0: Ranges, m: Ranges, start: nat, from: nat, end: nat, base: nat)
    requires Separated(m) && start <= from <= end && Removed(m0, m, from, end - from) && start < end
    requires base in m && base < end && base + m[base] > start
    ensures base < from && start < from
  {
    assert Within(m, base, base) && Covers(m, base);
    if from <= start {
      var x := if base < start then start else base;
      assert Within(m, base, x) && Covers(m, x);
    }
  }

  /** The two ends of a range are put back, the part between them is gone. */
  lemma Cut(m0: Ranges, m1: Ranges, m2: Ranges, m3: Ranges, s: nat, length: nat, start: nat, from: nat, end: nat)
    requires start < from <= end && Removed(m0, m1, from, end - from) && s in m1 && m1[s] == length && Separated(m1)
    requires s < from && s + length > start
    requires forall k :: k in m1 && k < end ==> k <= s
    requires if s + length > end then Added(m1 - {s}, m2, end, s + length - end) else m2 == m1 - {s}
    requires if s < start then Added(m2, m3, s, start - s) else m3 == m2
    ensures var from' := if s < start then start else s;
            Removed(m0, m3, from', end - from')
  {
    var from' := if s < start then start else s;
    Dropped(m1, s);
    forall x: nat ensures Covers(m3, x) <==> Covers(m0, x) && !(from' <= x < end) {
      assert Covers(m1, x) <==> Covers(m0, x) && !(from <= x < end);
      assert Covers(m1 - {s}, x) <==> Covers(m1, x) && !(s <= x < s + length);
      if s <= x < s + length {
        InRange(m1, s, x);
      } else if from' <= x < from && Covers(m1, x) {
        var t: nat :| Within(m1, t, x);
        assert false;
      }
    }
  }

  // ---- reservations ----

  const PAGE_SIZE: nat := 4096
  const WORD: nat := 0x1_0000_0000_0000_0000

  datatype Reservation = Reservation(baseVa: nat, startSlot: nat, pageCount: nat)

  function EndVa(r: Reservation): nat {
    r.baseVa + r.pageCount * PAGE_SIZE
  }

  function FirstPage(r: Reservation): nat {
    r.baseVa / PAGE_SIZE
  }

  /** Active reservations by base address. */
  type Active = map<nat, Reservation>

  ghost predicate WellFormed(active: Active, b: nat) {
    b in active ==> active[b].baseVa == b && b % PAGE_SIZE == 0 && active[b].pageCount > 0
  }

  /** Two reservations overlap neither in addresses nor in slots. */
  ghost predicate Disjoint(active: Active, b: nat, c: nat) {
    b in active && c in active && b != c ==>
      && (EndVa(active[b]) <= c || EndVa(active[c]) <= b)
      && (active[b].startSlot + active[b].pageCount <= active[c].startSlot
          || active[c].startSlot + active[c].pageCount <= active[b].startSlot)
  }

  /** The slots of a reservation are below the watermark and not free. */
  ghost predicate SlotsTaken(active: Active, slots: Ranges, nextSlot: nat, b: nat) {
    b in active ==>
      && active[b].startSlot + active[b].pageCount <= nextSlot
      && !Meets(slots, active[b].startSlot, active[b].pageCount)
  }

  ghost predicate Kept(active: Active, slots: Ranges, nextSlot: nat) {
    && (forall b {:trigger WellFormed(active, b)} :: WellFormed(active, b))
    && (forall b, c {:trigger Disjoint(active, b, c)} :: Disjoint(active, b, c))
    && (forall b {:trigger SlotsTaken(active, slots, nextSlot, b)} :: SlotsTaken(active, slots, nextSlot, b))
    && (forall x: nat {:trigger Covers(slots, x)} :: Covers(slots, x) ==> x < nextSlot)
  }

  /** No page of an active reservation is free. */
  ghost predicate PagesApart(active: Active, pages: Ranges) {
    forall b {:trigger b in active} :: b in active ==> !Meets(pages, FirstPage(active[b]), active[b].pageCount)
  }

  /** Some active reservation has an address in the range. */
  ghost predicate Occupied(active: Active, base: nat, end: nat) {
    exists b {:trigger b in active} :: b in active && b < end && EndVa(active[b]) > base
  }

  /** It is enough to look at the reservation with the highest base below the end of the range. */
  lemma PredecessorSuffices(active: Active, slots: Ranges, nextSlot: nat, base: nat, end: nat, last: Option<nat>)
    requires Kept(active, slots, nextSlot) && base < end
    requires last.Some? ==>
              last.value in active && last.value < end && forall b :: b in active && b < end ==> b <= last.value
    requires last.None? ==> forall b :: b in active ==> b >= end
    ensures Occupied(active, base, end) <==> last.Some? && EndVa(active[last.value]) > base
  {
    if Occupied(active, base, end) {
      var b :| b in active && b < end && EndVa(active[b]) > base;
      assert Disjoint(active, b, last.value) && WellFormed(active, b) && WellFormed(active, last.value);
    }
  }

  // ---- choosing slots and addresses ----

  ghost predicate HasFit(m: Ranges, count: nat) {
    exists s :: s in m && m[s] >= count
  }

  /** Slots come from the best fitting free range, or else from the watermark. */
  ghost predicate SlotChosen(slots: Ranges, nextSlot: nat, count: nat, slot: nat) {
    BestFit(slots, count, slot) || (!HasFit(slots, count) && slot == nextSlot)
  }

  /** Addresses are those asked for; else the best fitting free range, or else the end of the heap. */
  ghost predicate BaseChosen(pages: Ranges, heapNext: nat, count: nat, requested: nat, base: nat) {
    if requested != 0 then base == requested else
    (base % PAGE_SIZE == 0 && BestFit(pages, count, base / PAGE_SIZE)) || (!HasFit(pages, count) && base == heapNext)
  }

  ghost predicate Accepted(active: Active, heapLimit: nat, count: nat, maxSlots: nat, requested: nat, slot: nat,
                           base: nat) {
    && count > 0 && requested % PAGE_SIZE == 0 && slot + count < WORD && slot + count <= maxSlots && base != 0
    && base + count * PAGE_SIZE < WORD && (requested != 0 || base + count * PAGE_SIZE <= heapLimit)
    && !Occupied(active, base, base + count * PAGE_SIZE)
  }

  /** Free slots after a reservation. */
  ghost predicate SlotsAfter(slots: Ranges, slots': Ranges, nextSlot: nat, nextSlot': nat, r: Reservation) {
    if HasFit(slots, r.pageCount) then Removed(slots, slots', r.startSlot, r.pageCount) && nextSlot' == nextSlot
    else slots' == slots && nextSlot' == nextSlot + r.pageCount
  }

  ghost predicate PagesAfter(pages: Ranges, pages': Ranges, heapNext: nat, heapNext': nat, requested: nat,
                             r: Reservation) {
    if requested != 0 || HasFit(pages, r.pageCount) then
      Removed(pages, pages', FirstPage(r), r.pageCount) && heapNext' == heapNext
    else pages' == pages && heapNext' == EndVa(r)
  }

  /** A best fit holds what is taken from its front. */
  lemma FitIsCovered(m: Ranges, count: nat, s: nat, x: nat)
    requires BestFit(m, count, s) && s <= x < s + count
    ensures Covers(m, x)
  {
    assert Within(m, s, x);
  }

  /** The chosen slots are no active reservation's. */
  lemma SlotsAreNew(active: Active, slots: Ranges, nextSlot: nat, count: nat, slot: nat, b: nat)
    requires Kept(active, slots, nextSlot) && SlotChosen(slots, nextSlot, count, slot) && count > 0 && b in active
    ensures slot + count <= active[b].startSlot || active[b].startSlot + active[b].pageCount <= slot
  {
    hide Covers;
    assert SlotsTaken(active, slots, nextSlot, b) && WellFormed(active, b);
    if BestFit(slots, count, slot) && slot < active[b].startSlot + active[b].pageCount
       && active[b].startSlot < slot + count {
      var x := if slot < active[b].startSlot then active[b].startSlot else slot;
      FitIsCovered(slots, count, slot, x);
      assert false;
    }
  }

  /** The watermark stays above the slots in use. */
  lemma BelowWatermark(active: Active, slots: Ranges, nextSlot: nat, count: nat, slot: nat)
    requires Kept(active, slots, nextSlot) && SlotChosen(slots, nextSlot, count, slot) && count > 0
    ensures HasFit(slots, count) ==> slot + count <= nextSlot
  {
    if BestFit(slots, count, slot) {
      FitIsCovered(slots, count, slot, slot + count - 1);
    }
  }

  /** A reservation of chosen slots and unoccupied addresses keeps everything apart. */
  lemma ReservedKeeps(active: Active, slots: Ranges, slots': Ranges, nextSlot: nat, nextSlot': nat, r: Reservation)
    requires Kept(active, slots, nextSlot) && SlotChosen(slots, nextSlot, r.pageCount, r.startSlot) && r.pageCount > 0
    requires r.baseVa % PAGE_SIZE == 0 && !Occupied(active, r.baseVa, EndVa(r))
    requires SlotsAfter(slots, slots', nextSlot, nextSlot', r)
    ensures r.baseVa !in active && Kept(active[r.baseVa := r], slots', nextSlot')
  {
    hide Covers;
    var active' := active[r.baseVa := r];
    BelowWatermark(active, slots, nextSlot, r.pageCount, r.startSlot);
    assert WellFormed(active, r.baseVa);
    forall b ensures WellFormed(active', b) {
      assert WellFormed(active, b);
    }
    forall b, c ensures Disjoint(active', b, c) {
      ReservedDisjoint(active, slots, nextSlot, r, b, c);
    }
    forall b ensures SlotsTaken(active', slots', nextSlot', b) {
      assert SlotsTaken(active, slots, nextSlot, b);
      if b == r.baseVa && !HasFit(slots, r.pageCount) {
        assert forall x: nat :: Covers(slots, x) ==> x < nextSlot;
      }
    }
  }

  lemma ReservedDisjoint(active: Active, slots: Ranges, nextSlot: nat, r: Reservation, b: nat, c: nat)
    requires Kept(active, slots, nextSlot) && SlotChosen(slots, nextSlot, r.pageCount, r.startSlot) && r.pageCount > 0
    requires !Occupied(active, r.baseVa, EndVa(r))
    ensures Disjoint(active[r.baseVa := r], b, c)
  {
    assert Disjoint(active, b, c) && WellFormed(active, b) && WellFormed(active, c);
    if b in active {
      SlotsAreNew(active, slots, nextSlot, r.pageCount, r.startSlot, b);
    }
    if c in active {
      SlotsAreNew(active, slots, nextSlot, r.pageCount, r.startSlot, c);
    }
  }

  /** A reservation that is given back. */
  lemma RecycledKeeps(active: Active, slots: Ranges, slots': Ranges, nextSlot: nat, b: nat)
    requires Kept(active, slots, nextSlot) && b in active
    requires Added(slots, slots', active[b].startSlot, active[b].pageCount)
    ensures Kept(active - {b}, slots', nextSlot)
  {
    hide Covers;
    var active' := active - {b};
    assert SlotsTaken(active, slots, nextSlot, b);
    forall c ensures WellFormed(active', c) {
      assert WellFormed(active, c);
    }
    forall c, d ensures Disjoint(active', c, d) {
      assert Disjoint(active, c, d);
    }
    forall c ensures SlotsTaken(active', slots', nextSlot, c) {
      assert SlotsTaken(active, slots, nextSlot, c) && Disjoint(active, b, c);
    }
  }

  /** A request for any addresses that no free range can hold, while a page where the heap will grow is free. */
  ghost predicate GrowsOver(pages: Ranges, heapNext: nat, count: nat, requested: nat) {
    requested == 0 && !HasFit(pages, count) && Meets(pages, heapNext / PAGE_SIZE, count)
  }

  /** Free pages stay apart from the reservations exactly when the heap does not grow over a free page. */
  lemma PagesStayApart(active: Active, pages: Ranges, pages': Ranges, heapNext: nat, heapNext': nat, requested: nat,
                       r: Reservation)
    requires PagesApart(active, pages) && PagesAfter(pages, pages', heapNext, heapNext', requested, r)
    requires r.baseVa !in active
    requires BaseChosen(pages, heapNext, r.pageCount, requested, r.baseVa)
    ensures PagesApart(active[r.baseVa := r], pages') <==> !GrowsOver(pages, heapNext, r.pageCount, requested)
  {
    hide Covers;
    var active' := active[r.baseVa := r];
    if !GrowsOver(pages, heapNext, r.pageCount, requested) {
      forall b | b in active' ensures !Meets(pages', FirstPage(active'[b]), active'[b].pageCount) {
      }
    } else {
      assert r.baseVa in active' && active'[r.baseVa] == r;
    }
  }

  /** Giving back what was taken restores the free ranges exactly. */
  lemma GivenBack(m0: Ranges, m1: Ranges, m2: Ranges, start: nat, count: nat)
    requires Separated(m0) && Separated(m2) && Removed(m0, m1, start, count) && Added(m1, m2, start, count)
    requires forall x: nat {:trigger Covers(m0, x)} :: start <= x < start + count ==> Covers(m0, x)
    ensures m2 == m0
  {
    forall x: nat ensures Covers(m2, x) <==> Covers(m0, x) {
      assert Covers(m1, x) <==> Covers(m0, x) && !(start <= x < start + count);
    }
    Canonical(m2, m0);
  }

  // ---- the reservations of one process ----

  class SharedMemorySpace {
    const slots: FreeRanges
    const pages: FreeRanges
    const heapLimit: nat
    var active: Active
    var nextSlot: nat
    var heapNext: nat

    ghost predicate Valid()
      reads this, slots, pages
    {
      && slots != pages && slots.Valid() && pages.Valid() && heapNext % PAGE_SIZE == 0
      && Kept(active, slots.byAddress, nextSlot)
    }

    constructor (nextSlot: nat, heapNext: nat, heapLimit: nat)
      requires heapNext % PAGE_SIZE == 0
      ensures Valid() && fresh(slots) && fresh(pages)
      ensures active == map[] && slots.byAddress == map[] && pages.byAddress == map[]
      ensures this.nextSlot == nextSlot && this.heapNext == heapNext && this.heapLimit == heapLimit
    {
      slots := new FreeRanges();
      pages := new FreeRanges();
      this.nextSlot, this.heapNext, this.heapLimit := nextSlot, heapNext, heapLimit;
      active := map[];
    }

    /** Slots and addresses for a reservation, not taken yet. */
    method Choose(count: nat, requested: nat)
      returns (freeSlot: Option<nat>, freePage: Option<nat>, slot: nat, base: nat)
      requires Valid() && count > 0
      ensures SlotChosen(slots.byAddress, nextSlot, count, slot)
      ensures BaseChosen(pages.byAddress, heapNext, count, requested, base)
      ensures if HasFit(slots.byAddress, count) then freeSlot == Some(slot) && BestFit(slots.byAddress, count, slot)
              else freeSlot == None
      ensures if requested == 0 && HasFit(pages.byAddress, count) then
                freePage == Some(base / PAGE_SIZE) && BestFit(pages.byAddress, count, base / PAGE_SIZE)
                && base % PAGE_SIZE == 0
              else freePage == None
    {
      freeSlot := slots.Find(count);
      freePage := None;
      if requested == 0 {
        freePage := pages.Find(count);
      }
      slot := if freeSlot.Some? then freeSlot.value else nextSlot;
      base := if requested != 0 then requested else if freePage.Some? then freePage.value * PAGE_SIZE else heapNext;
    }

    method Overlaps(base: nat, end: nat) returns (r: bool)
      requires Valid() && base < end
      ensures r <==> Occupied(active, base, end)
    {
      var last := LastBelow(active, end);
      PredecessorSuffices(active, slots.byAddress, nextSlot, base, end, last);
      return last.Some? && EndVa(active[last.value]) > base;
    }

    /** Reserves slots and addresses, or changes nothing. */
    method ReserveAt(count: nat, maxSlots: nat, requested: nat) returns (r: Outcome<Reservation>)
      requires Valid()
      modifies this, slots, pages
      ensures Valid()
      ensures r.Error? ==>
                && active == old(active) && nextSlot == old(nextSlot) && heapNext == old(heapNext)
                && slots.byAddress == old(slots.byAddress) && pages.byAddress == old(pages.byAddress)
      ensures r.Error? ==>
                forall slot, base {:trigger Accepted(old(active), heapLimit, count, maxSlots, requested, slot, base)} ::
                  && SlotChosen(old(slots.byAddress), old(nextSlot), count, slot)
                  && BaseChosen(old(pages.byAddress), old(heapNext), count, requested, base)
                  ==> !Accepted(old(active), heapLimit, count, maxSlots, requested, slot, base)
      ensures r.Value? ==>
                && r.value.pageCount == count && active == old(active)[r.value.baseVa := r.value]
                && r.value.baseVa !in old(active)
                && SlotChosen(old(slots.byAddress), old(nextSlot), count, r.value.startSlot)
                && BaseChosen(old(pages.byAddress), old(heapNext), count, requested, r.value.baseVa)
                && Accepted(old(active), heapLimit, count, maxSlots, requested, r.value.startSlot, r.value.baseVa)
                && SlotsAfter(old(slots.byAddress), slots.byAddress, old(nextSlot), nextSlot, r.value)
                && PagesAfter(old(pages.byAddress), pages.byAddress, old(heapNext), heapNext, requested, r.value)
      ensures r.Value? && PagesApart(old(active), old(pages.byAddress)) ==>
                (PagesApart(active, pages.byAddress) <==>
                   !GrowsOver(old(pages.byAddress), old(heapNext), count, requested))
    {
      hide Covers, Kept, Meets, PagesApart, BestFit, Removed, Occupied;
      if count == 0 || requested % PAGE_SIZE != 0 {
        return Error(InvalidArgument);
      }
      var freeSlot, freePage, slot, base := Choose(count, requested);
      ChosenOnce(slots.byAddress, pages.byAddress, nextSlot, heapNext, count, requested, slot, base);
      if slot + count >= WORD || slot + count > maxSlots {
        return Error(InvalidArgument);
      }
      var end := base + count * PAGE_SIZE;
      if count * PAGE_SIZE >= WORD || end >= WORD || base == 0 || (requested == 0 && end > heapLimit) {
        return Error(InvalidArgument);
      }
      var occupied := Overlaps(base, end);
      if occupied {
        return Error(IllegalOperation);
      }
      var res := Reservation(base, slot, count);
      assert base % PAGE_SIZE == 0;
      Consume(freeSlot, freePage, requested, res);
      return Value(res);
    }

    /** Takes what was chosen. */
    method Consume(freeSlot: Option<nat>, freePage: Option<nat>, requested: nat, res: Reservation)
      requires Valid() && res.pageCount > 0 && res.baseVa % PAGE_SIZE == 0 && !Occupied(active, res.baseVa, EndVa(res))
      requires SlotChosen(slots.byAddress, nextSlot, res.pageCount, res.startSlot)
      requires BaseChosen(pages.byAddress, heapNext, res.pageCount, requested, res.baseVa)
      requires if HasFit(slots.byAddress, res.pageCount) then
                 freeSlot == Some(res.startSlot) && BestFit(slots.byAddress, res.pageCount, res.startSlot)
               else freeSlot == None
      requires if requested == 0 && HasFit(pages.byAddress, res.pageCount) then
                 freePage == Some(FirstPage(res)) && BestFit(pages.byAddress, res.pageCount, FirstPage(res))
               else freePage == None
      modifies this, slots, pages
      ensures Valid() && res.baseVa !in old(active) && active == old(active)[res.baseVa := res]
      ensures SlotsAfter(old(slots.byAddress), slots.byAddress, old(nextSlot), nextSlot, res)
      ensures PagesAfter(old(pages.byAddress), pages.byAddress, old(heapNext), heapNext, requested, res)
      ensures PagesApart(old(active), old(pages.byAddress)) ==>
                (PagesApart(active, pages.byAddress) <==>
                   !GrowsOver(old(pages.byAddress), old(heapNext), res.pageCount, requested))
    {
      hide Covers, Kept, Meets, PagesApart, Removed, Occupied;
      ghost var slots0, pages0 := slots.byAddress, pages.byAddress;
      if freeSlot.Some? {
        slots.Take(res.startSlot, res.pageCount);
      }
      if freePage.Some? {
        pages.Take(FirstPage(res), res.pageCount);
      } else if requested != 0 {
        pages.Exclude(FirstPage(res), res.pageCount);
      }
      active := active[res.baseVa := res];
      if freeSlot.None? {
        nextSlot := res.startSlot + res.pageCount;
      }
      if freePage.None? && requested == 0 {
        heapNext := EndVa(res);
      }
      ReservedKeeps(old(active), slots0, slots.byAddress, old(nextSlot), nextSlot, res);
      if PagesApart(old(active), pages0) {
        PagesStayApart(old(active), pages0, pages.byAddress, old(heapNext), heapNext, requested, res);
      }
    }

    /** Gives a reservation back. Its slots are never free already; its pages must not be. */
    method Recycle(res: Reservation)
      requires Valid() && res.baseVa in active && active[res.baseVa] == res
      requires !Meets(pages.byAddress, FirstPage(res), res.pageCount)
      modifies this, slots, pages
      ensures Valid() && active == old(active) - {res.baseVa} && nextSlot == old(nextSlot) && heapNext == old(heapNext)
      ensures Added(old(slots.byAddress), slots.byAddress, res.startSlot, res.pageCount)
      ensures Added(old(pages.byAddress), pages.byAddress, FirstPage(res), res.pageCount)
      ensures PagesApart(old(active), old(pages.byAddress)) ==> PagesApart(active, pages.byAddress)
    {
      hide Covers, Meets, PagesApart, Added;
      ghost var slots0, pages0 := slots.byAddress, pages.byAddress;
      assert SlotsTaken(active, slots0, nextSlot, res.baseVa) && WellFormed(active, res.baseVa);
      active := active - {res.baseVa};
      slots.Insert(res.startSlot, res.pageCount);
      pages.Insert(FirstPage(res), res.pageCount);
      RecycledKeeps(old(active), slots0, slots.byAddress, nextSlot, res.baseVa);
      if PagesApart(old(active), pages0) {
        RecycledApart(old(active), slots0, nextSlot, pages0, pages.byAddress, res.baseVa);
      }
    }

    /** Other mappings take addresses out of the free ranges. */
    method ExcludeVirtual(base: nat, count: nat)
      requires Valid() && count > 0
      modifies pages
      ensures Valid() && Removed(old(pages.byAddress), pages.byAddress, base / PAGE_SIZE, count)
      ensures PagesApart(active, old(pages.byAddress)) ==> PagesApart(active, pages.byAddress)
    {
      hide Kept;
      pages.Exclude(base / PAGE_SIZE, count);
    }
  }

  lemma RecycledApart(active: Active, slots: Ranges, nextSlot: nat, pages: Ranges, pages': Ranges, b: nat)
    requires Kept(active, slots, nextSlot) && b in active && PagesApart(active, pages)
    requires Added(pages, pages', FirstPage(active[b]), active[b].pageCount)
    ensures PagesApart(active - {b}, pages')
  {
    hide Covers;
    forall c | c in active - {b} ensures !Meets(pages', FirstPage(active[c]), active[c].pageCount) {
      assert Disjoint(active, b, c) && WellFormed(active, b) && WellFormed(active, c);
      PagesDisjoint(active[b], active[c]);
    }
  }

  lemma PagesDisjoint(r: Reservation, s: Reservation)
    requires r.baseVa % PAGE_SIZE == 0 && s.baseVa % PAGE_SIZE == 0 && (EndVa(r) <= s.baseVa || EndVa(s) <= r.baseVa)
    ensures FirstPage(r) + r.pageCount <= FirstPage(s) || FirstPage(s) + s.pageCount <= FirstPage(r)
  {
  }

  /** The choice is unique. */
  lemma ChosenOnce(slots: Ranges, pages: Ranges, nextSlot: nat, heapNext: nat, count: nat, requested: nat, slot: nat,
                   base: nat)
    requires SlotChosen(slots, nextSlot, count, slot) && BaseChosen(pages, heapNext, count, requested, base)
    ensures forall slot', base' ::
              SlotChosen(slots, nextSlot, count, slot') && BaseChosen(pages, heapNext, count, requested, base') ==>
                slot' == slot && base' == base
  {
  }

  /** What is free after one page was reserved at a fixed address and given back. */
  lemma OnePageFree(m: Ranges, x: nat)
    requires Separated(m) && Added(map[], m, x, 1)
    ensures m == map[x := 1]
  {
    var n := map[x := 1];
    assert Within(n, x, x);
    forall y: nat ensures Covers(m, y) <==> Covers(n, y) {
      assert !Covers(map[], y);
    }
    Canonical(m, n);
  }

  lemma NothingCovered(m: Ranges)
    requires m == map[]
    ensures forall x: nat {:trigger Covers(m, x)} :: !Covers(m, x)
    ensures forall start, count {:trigger Meets(m, start, count)} :: !Meets(m, start, count)
  {
  }

  lemma NothingToRemove(m: Ranges, start: nat, count: nat)
    requires Separated(m) && Removed(map[], m, start, count)
    ensures m == map[]
  {
    NothingCovered(map[]);
    forall x: nat ensures Covers(m, x) <==> Covers(map[], x) {
    }
    Canonical(m, map[]);
  }

  lemma FreeAndReserved(m: Ranges, active: Active, r: Reservation)
    requires m == map[16 := 1] && active == map[r.baseVa := r] && FirstPage(r) == 16 && r.pageCount > 0
    ensures !PagesApart(active, m) && Meets(m, FirstPage(r), r.pageCount)
  {
    assert Within(m, 16, 16) && Covers(m, 16) && r.baseVa in active;
  }

  /** Growing the heap over a free page leaves that page both free and reserved: one page reserved at the
      end of the heap and given back, then two pages reserved anywhere. The reservation `r` that this makes
      is active, and yet it does not meet what giving it back requires. */
  method HeapGrowsOverFreePage() returns (s: SharedMemorySpace, r: Reservation)
    ensures fresh(s) && s.Valid() && !PagesApart(s.active, s.pages.byAddress)
    ensures r.baseVa in s.active && s.active[r.baseVa] == r && Meets(s.pages.byAddress, FirstPage(r), r.pageCount)
  {
    hide Kept, Covers, Separated;
    s := new SharedMemorySpace(8, 16 * PAGE_SIZE, 64 * PAGE_SIZE);
    var heap := 16 * PAGE_SIZE;
    NothingCovered(map[]);
    assert SlotChosen(map[], 8, 1, 8) && BaseChosen(map[], heap, 1, heap, heap);
    assert Accepted(map[], s.heapLimit, 1, 1000, heap, 8, heap);
    var one := s.ReserveAt(1, 1000, heap);
    NothingToRemove(s.pages.byAddress, 16, 1);
    assert s.pages.byAddress == map[] && s.slots.byAddress == map[] && s.nextSlot == 9
           && one.value == Reservation(heap, 8, 1);
    s.Recycle(one.value);
    OnePageFree(s.pages.byAddress, 16);
    OnePageFree(s.slots.byAddress, 8);
    assert s.active == map[];
    assert SlotChosen(map[8 := 1], 9, 2, 9) && BaseChosen(map[16 := 1], heap, 2, 0, heap);
    assert Accepted(map[], s.heapLimit, 2, 1000, 0, 9, heap);
    var two := s.ReserveAt(2, 1000, 0);
    r := two.value;
    FreeAndReserved(s.pages.byAddress, s.active, r);
  }
}
