/** The still untyped parts of one boot-time Generic. Blocks are cut out on demand; what is in front
    of a block is kept as smaller sources. */
module PhysicalMemorySources {
  import opened Dyadic
  import opened Options
  import opened Capabilities
  import opened Splitting
  import opened UntypedMemory
  import opened CapabilityDirectories

  datatype Source = Source(end: nat, descriptor: Descriptor)

  type Sources = map<nat, Source>

  ghost predicate Covers(sources: Sources, s: nat, x: nat) {
    s in sources && s <= x < sources[s].end
  }

  /** Address `x` is still untyped. */
  ghost predicate Covered(sources: Sources, x: nat) {
    exists s :: Covers(sources, s, x)
  }

  /** The recorded start of a source is where the kernel's watermark stands. */
  ghost predicate SourceAt(sources: Sources, generics: Generics, s: nat) {
    s in sources ==>
      && s < sources[s].end < WORD_LIMIT && sources[s].descriptor in generics
      && generics[sources[s].descriptor].watermark == s && generics[sources[s].descriptor].end == sources[s].end
  }

  ghost predicate Apart(sources: Sources, s: nat, t: nat) {
    s in sources && t in sources && s != t ==>
      && sources[s].descriptor != sources[t].descriptor
      && (s < t ==> sources[s].end <= t) && (t < s ==> sources[t].end <= s)
  }

  /** Sources are disjoint and agree with the kernel; slots beyond `next` are unused. */
  ghost predicate Agree(sources: Sources, generics: Generics, pool: Descriptor, next: nat) {
    && (forall s {:trigger SourceAt(sources, generics, s)} :: SourceAt(sources, generics, s))
    && (forall s, t {:trigger Apart(sources, s, t)} :: Apart(sources, s, t))
    && (forall s :: s in sources ==> sources[s].descriptor != pool)
    && (forall d: Descriptor :: d in generics && d.Slot? ==> d.number < next)
    && pool in generics
  }

  /** Only the pool's own watermark moved, and slots were handed out. */
  lemma PoolMoves(sources: Sources, generics: Generics, pool: Descriptor, next: nat, generics': Generics, next': nat)
    requires Agree(sources, generics, pool, next) && pool in generics' && next <= next'
    requires generics' == generics[pool := generics'[pool]]
    ensures Agree(sources, generics', pool, next') && pool in generics
  {
    forall s ensures SourceAt(sources, generics', s) {
      assert SourceAt(sources, generics, s);
    }
  }

  ghost predicate NotASource(sources: Sources, d: Descriptor) {
    forall s :: s in sources ==> sources[s].descriptor != d
  }

  function Shortened(sources: Sources, c: nat, m: nat, prefix: Option<Descriptor>): Sources
    requires c in sources
  {
    var rest := if m < sources[c].end then (sources - {c})[m := sources[c]] else sources - {c};
    if prefix.Some? then rest[c := Source(m, prefix.value)] else rest
  }

  lemma RestStays(sources: Sources, c: nat, m: nat, prefix: Option<Descriptor>)
    requires c in sources && c < m < sources[c].end
    ensures m in Shortened(sources, c, m, prefix) && Shortened(sources, c, m, prefix)[m] == sources[c]
  {
  }

  /** Cutting `c .. m` off the source at `c`, where the kernel put the new object. */
  lemma Cut(sources: Sources, generics: Generics, pool: Descriptor, next: nat, c: nat, m: nat, bits: nat, slot: nat,
            keep: bool)
    requires Agree(sources, generics, pool, next) && c in sources && c < m <= sources[c].end && slot == next
    requires m == c + Pow2(bits) && Aligned(c, bits) && (keep ==> m < sources[c].end)
    ensures sources[c].descriptor in generics
    ensures var generics' := Converted(generics, sources[c].descriptor, bits, Some(Slot(slot)));
            && Agree(Shortened(sources, c, m, if keep then Some(Slot(slot)) else None), generics', pool, next + 1)
            && Slot(slot) in generics' && generics'[Slot(slot)] == Generic(c, m, c)
            && pool in generics' && generics'[pool] == generics[pool] && pool != Slot(slot)
            && (!keep ==> NotASource(Shortened(sources, c, m, None), Slot(slot)))
  {
    assert SourceAt(sources, generics, c);
    var d := sources[c].descriptor;
    LandsExactly(generics[d], bits);
    var generics' := Converted(generics, d, bits, Some(Slot(slot)));
    var sources' := Shortened(sources, c, m, if keep then Some(Slot(slot)) else None);
    assert generics' == generics[d := generics[d].(watermark := m)][Slot(slot) := Generic(c, m, c)];
    forall s ensures SourceAt(sources', generics', s) {
      assert SourceAt(sources, generics, s) && Apart(sources, s, c);
    }
    forall s, t ensures Apart(sources', s, t) {
      assert Apart(sources, s, t) && Apart(sources, s, c) && Apart(sources, c, t);
      assert SourceAt(sources, generics, s) && SourceAt(sources, generics, t);
    }
    forall s | s in sources'
      ensures sources'[s].descriptor != pool && (!keep ==> sources'[s].descriptor != Slot(slot))
    {
      assert s in sources ==> SourceAt(sources, generics, s);
    }
  }

  /** Cutting keeps every address but those of a block that is taken. */
  lemma CutCoverage(sources: Sources, generics: Generics, pool: Descriptor, next: nat, c: nat, m: nat,
                    prefix: Option<Descriptor>, x: nat)
    requires Agree(sources, generics, pool, next) && c in sources && c < m <= sources[c].end
    ensures Covered(Shortened(sources, c, m, prefix), x) <==> Covered(sources, x) && (prefix.Some? || !(c <= x < m))
  {
    var sources' := Shortened(sources, c, m, prefix);
    if Covered(sources, x) && (prefix.Some? || !(c <= x < m)) {
      var s: nat :| Covers(sources, s, x);
      assert Apart(sources, s, c) && Apart(sources, m, c);
      assert SourceAt(sources, generics, m);
      assert Covers(sources', if s != c then s else if x < m then c else m, x);
    }
    if Covered(sources', x) {
      var s: nat :| Covers(sources', s, x);
      assert Apart(sources, s, c) && SourceAt(sources, generics, s);
      assert Covers(sources, if s in sources && s != c then s else c, x);
    }
  }

  ghost function Block(c: nat, bits: nat): iset<nat> {
    iset x: nat | InBlock(x, c, bits)
  }

  /** Untyped addresses and taken ones share out the whole range. */
  ghost predicate Accounted(sources: Sources, taken: iset<nat>, first: nat, limit: nat) {
    forall x: nat {:trigger Covered(sources, x)} ::
      && (first <= x < limit <==> Covered(sources, x) || x in taken)
      && !(Covered(sources, x) && x in taken)
  }

  lemma CutAccounted(sources: Sources, generics: Generics, pool: Descriptor, next: nat, taken: iset<nat>, first: nat,
                     limit: nat,
                     c: nat, bits: nat, prefix: Option<Descriptor>)
    requires Agree(sources, generics, pool, next) && c in sources && c + Pow2(bits) <= sources[c].end
    requires Accounted(sources, taken, first, limit)
    ensures Accounted(Shortened(sources, c, c + Pow2(bits), prefix),
                      if prefix.Some? then taken else taken + Block(c, bits), first, limit)
  {
    var m := c + Pow2(bits);
    var sources' := Shortened(sources, c, m, prefix);
    var taken' := if prefix.Some? then taken else taken + Block(c, bits);
    forall x: nat
      ensures (first <= x < limit <==> Covered(sources', x) || x in taken') && !(Covered(sources', x) && x in taken')
    {
      CutCoverage(sources, generics, pool, next, c, m, prefix, x);
      assert c <= x < m ==> Covers(sources, c, x);
      assert first <= x < limit <==> Covered(sources, x) || x in taken;
      assert prefix.None? ==> (x in taken' <==> x in taken || InBlock(x, c, bits));
    }
  }

  /** What is left of a budget. */
  function Left(budget: nat, used: nat): nat {
    if used <= budget then budget - used else 0
  }

  /** Making no slot needs no room. */
  lemma RoomForNone(prefixes: seq<Option<nat>>, next: nat, consumed: nat)
    requires |prefixes| == DIRECTORY_LEVELS && consumed <= POOL_BYTES
    ensures HasRoom(prefixes, next, consumed, 0)
  {
    AlignUpLeast(consumed, DIRECTORY_NODE_BYTES);
  }

  const MAX_PREFIXES: nat := 2 * (WORD_BITS - PAGE_BITS)

  /** The prefix loop can make its way from `start` to `address`. */
  predicate Reaches(start: nat, address: nat) {
    start == address || (PageAligned(start) && PageAligned(address))
  }

  lemma AtMostTwoPerBit(start: nat, address: nat)
    requires start <= address < WORD_LIMIT
    ensures Prefixes(start, address) <= MAX_PREFIXES
  {
    if PageAligned(start) && PageAligned(address) {
      PrefixBound(start, address);
    }
  }

  lemma NextPrefix(cursor: nat, address: nat)
    requires cursor < address < WORD_LIMIT
    ensures PrefixRadix(cursor, address).Some? <==> Reaches(cursor, address)
    ensures PrefixRadix(cursor, address).Some? ==>
              var bits := PrefixRadix(cursor, address).value;
              && Aligned(cursor, bits) && cursor + Pow2(bits) <= address && Reaches(cursor + Pow2(bits), address)
              && Prefixes(cursor, address) == 1 + Prefixes(cursor + Pow2(bits), address)
  {
    hide TrailingZeros, FloorLog2;
    if PageAligned(cursor) && PageAligned(address) {
      PrefixFits(cursor, address);
      PrefixAligned(cursor, address);
      OnePrefix(cursor, address, PrefixRadix(cursor, address).value);
    }
  }

  /** What cutting changes. */
  datatype Memory = Memory(sources: Sources, next: nat, budget: nat, taken: iset<nat>, failures: nat)

  /** Slots are used up from the budget. */
  ghost predicate Spent(m: Memory, m': Memory) {
    m.next <= m'.next && m.failures <= m'.failures && m'.budget == Left(m.budget, m'.next - m.next)
  }

  /** Why a valid request fails: a refused conversion, no room in the pool or no more names. */
  ghost predicate Stuck(m: Memory, m': Memory, depth: nat) {
    m'.failures > m.failures || m'.budget == 0 || depth + 4 * 8 + 11 > 64 || m'.next >= NAMESPACE
  }

  ghost predicate CutResult(m: Memory, m': Memory, depth: nat, c: nat, bits: nat, keep: bool, r: Outcome<nat>) {
    && Spent(m, m') && m'.next <= m.next + 1
    && (r.Error? ==> m'.sources == m.sources && m'.taken == m.taken && Stuck(m, m', depth))
    && (r.Value? ==>
          && c in m.sources && m'.next == m.next + 1 && r.value == m.next
          && m'.sources == Shortened(m.sources, c, c + Pow2(bits), if keep then Some(Slot(r.value)) else None)
          && m'.taken == if keep then m.taken else m.taken + Block(c, bits))
  }

  lemma SpentTwice(m: Memory, m1: Memory, m2: Memory, depth: nat)
    requires Spent(m, m1) && Spent(m1, m2)
    ensures Spent(m, m2) && (Stuck(m1, m2, depth) ==> Stuck(m, m2, depth))
  {
  }

  /** On the way to `address`, the source that started at `start` now starts at `cursor`. */
  ghost predicate Nearing(m: Memory, m': Memory, start: nat, cursor: nat, address: nat) {
    && Spent(m, m') && m'.taken == m.taken && start in m.sources && cursor in m'.sources
    && m'.sources[cursor] == m.sources[start] && cursor <= address < m.sources[start].end < WORD_LIMIT
    && m'.next - m.next + Prefixes(cursor, address) <= MAX_PREFIXES
    && (Reaches(start, address) ==> Reaches(cursor, address))
  }

  ghost predicate Stopped(m: Memory, m': Memory, depth: nat, start: nat, address: nat) {
    && Spent(m, m') && m'.taken == m.taken && m'.next <= m.next + MAX_PREFIXES
    && (Reaches(start, address) ==> Stuck(m, m', depth))
  }

  lemma NearingStep(m: Memory, m1: Memory, m2: Memory, depth: nat, start: nat, cursor: nat, address: nat, bits: nat,
                    r: Outcome<nat>)
    requires Nearing(m, m1, start, cursor, address) && cursor < address && PrefixRadix(cursor, address) == Some(bits)
    requires CutResult(m1, m2, depth, cursor, bits, true, r)
    ensures r.Value? ==> Nearing(m, m2, start, cursor + Pow2(bits), address)
    ensures r.Error? ==> Stopped(m, m2, depth, start, address)
  {
    NextPrefix(cursor, address);
    hide PrefixRadix, Prefixes, PageAligned;
    if r.Value? {
      RestStays(m1.sources, cursor, cursor + Pow2(bits), Some(Slot(r.value)));
    }
  }

  lemma NearingMeans(m: Memory, m': Memory, depth: nat, start: nat, cursor: nat, address: nat)
    requires Nearing(m, m', start, cursor, address) && cursor < address
    ensures cursor in m'.sources && address < m'.sources[cursor].end < WORD_LIMIT
    ensures PrefixRadix(cursor, address).None? ==> Stopped(m, m', depth, start, address)
    ensures PrefixRadix(cursor, address).Some? ==>
              var bits := PrefixRadix(cursor, address).value; Aligned(cursor, bits) && cursor + Pow2(bits) <= address
  {
    NextPrefix(cursor, address);
  }

  lemma NearingStarts(m: Memory, start: nat, address: nat)
    requires start in m.sources && start <= address < m.sources[start].end < WORD_LIMIT
    ensures Nearing(m, m, start, start, address)
  {
    AtMostTwoPerBit(start, address);
  }

  // ---- delegation ----

  /** Slot `a` holds a block that is no source, converted up to `at`. */
  ghost predicate Authority(sources: Sources, generics: Generics, pool: Descriptor, a: nat, at: nat) {
    Slot(a) in generics && generics[Slot(a)].watermark == at && pool != Slot(a) && NotASource(sources, Slot(a))
  }

  /** Slot `a` is the authority over exactly this block. */
  ghost predicate Rules(generics: Generics, a: nat, address: nat, radix: nat) {
    && Slot(a) in generics && generics[Slot(a)].base == address
    && generics[Slot(a)].end == address + Pow2(radix)
  }

  lemma AuthorityMoves(sources: Sources, generics: Generics, pool: Descriptor, next: nat, a: nat, at: nat, bits: nat)
    requires Agree(sources, generics, pool, next) && Authority(sources, generics, pool, a, at) && Aligned(at, bits)
    ensures var generics' := Converted(generics, Slot(a), bits, Some(Slot(next)));
            && Agree(sources, generics', pool, next + 1) && Authority(sources, generics', pool, a, at + Pow2(bits))
            && generics'[Slot(a)].base == generics[Slot(a)].base && generics'[Slot(a)].end == generics[Slot(a)].end
            && a != next && pool != Slot(next)
            && Slot(next) in generics' && generics'[Slot(next)] == Generic(at, at + Pow2(bits), at)
            && pool in generics' && generics'[pool] == generics[pool]
            && forall d :: d in generics && d != Slot(a) ==> d in generics' && generics'[d] == generics[d]
  {
    LandsExactly(generics[Slot(a)], bits);
    var generics' := Converted(generics, Slot(a), bits, Some(Slot(next)));
    assert generics' == generics[Slot(a) := generics[Slot(a)].(watermark := at + Pow2(bits))]
                        [Slot(next) := Generic(at, at + Pow2(bits), at)];
    forall s ensures SourceAt(sources, generics', s) {
      assert SourceAt(sources, generics, s);
    }
  }

  datatype Resource = Resource(slot: nat, address: nat, radix: nat)

  /** The radices of the parts: 28, 28, 29, 30, ... */
  function PartRadix(i: nat): nat {
    if i == 0 then 28 else 27 + i
  }

  /** Where part `i` starts. */
  function Offset(i: nat): nat {
    if i == 0 then 0 else Pow2(27 + i)
  }

  /** The parts are adjacent: each ends where the next one starts. */
  lemma PartsAdjacent(i: nat)
    ensures Offset(i) + Pow2(PartRadix(i)) == Offset(i + 1)
  {
    assert i > 0 ==> Pow2(27 + i + 1) == 2 * Pow2(27 + i);
  }

  lemma PartAligned(address: nat, radix: nat, i: nat)
    requires Aligned(address, radix) && i < radix - 27 && radix >= 29
    ensures Aligned(address + Offset(i), PartRadix(i)) && Offset(i) + Pow2(PartRadix(i)) == Offset(i + 1)
  {
    PartsAdjacent(i);
    AlignedFiner(address, PartRadix(i), radix);
    AlignedSelf(PartRadix(i));
    AlignedStep(address, Offset(i), PartRadix(i));
  }

  ghost predicate PartAt(resources: seq<Resource>, generics: Generics, address: nat, i: nat) {
    i < |resources| &&
    var p, at := resources[i], address + Offset(i);
    && p.address == at && p.radix == PartRadix(i) && Slot(p.slot) in generics
    && generics[Slot(p.slot)] == Generic(at, at + Pow2(p.radix), at)
  }

  /** The recorded parts are where the kernel put them. */
  ghost predicate PartsOf(resources: seq<Resource>, generics: Generics, address: nat) {
    forall i: nat {:trigger PartAt(resources, generics, address, i)} ::
      i < |resources| ==> PartAt(resources, generics, address, i)
  }

  /** None of the parts is the authority or the pool. */
  ghost predicate PartsApart(resources: seq<Resource>, pool: Descriptor, a: nat) {
    forall p :: p in resources ==> p.slot != a && Slot(p.slot) != pool
  }

  lemma PartAdded(resources: seq<Resource>, generics: Generics, generics': Generics, pool: Descriptor, a: nat,
                  address: nat, slot: nat)
    requires PartsOf(resources, generics, address) && PartsApart(resources, pool, a)
    requires forall d :: d in generics && d != Slot(a) && d != pool ==> d in generics' && generics'[d] == generics[d]
    requires Slot(slot) in generics'
    requires var at := address + Offset(|resources|);
             generics'[Slot(slot)] == Generic(at, at + Pow2(PartRadix(|resources|)), at)
    requires slot != a && Slot(slot) != pool
    ensures var i := |resources|;
            var resources' := resources + [Resource(slot, address + Offset(i), PartRadix(i))];
            PartsOf(resources', generics', address) && PartsApart(resources', pool, a)
  {
    var i := |resources|;
    var resources' := resources + [Resource(slot, address + Offset(i), PartRadix(i))];
    forall j: nat | j < |resources'| ensures PartAt(resources', generics', address, j) {
      if j < i {
        assert PartAt(resources, generics, address, j) && resources'[j] == resources[j] && resources[j] in resources;
      }
    }
  }

  lemma PartsStay(resources: seq<Resource>, generics: Generics, generics': Generics, pool: Descriptor, a: nat,
                  address: nat)
    requires PartsOf(resources, generics, address) && PartsApart(resources, pool, a)
    requires forall d :: d in generics && d != Slot(a) && d != pool ==> d in generics' && generics'[d] == generics[d]
    ensures PartsOf(resources, generics', address)
  {
    forall j: nat | j < |resources| ensures PartAt(resources, generics', address, j) {
      assert PartAt(resources, generics, address, j) && resources[j] in resources;
    }
  }

  ghost predicate InPart(resources: seq<Resource>, i: nat, x: nat) {
    i < |resources| && InBlock(x, resources[i].address, resources[i].radix)
  }

  lemma {:induction false} OffsetsRise(i: nat, j: nat)
    requires i < j
    ensures Offset(i) + Pow2(PartRadix(i)) <= Offset(j)
    decreases j - i
  {
    PartsAdjacent(i);
    if i + 1 < j {
      OffsetsRise(i + 1, j);
    }
  }

  lemma {:induction false} SomePart(x: nat, n: nat) returns (i: nat)
    requires x < Offset(n)
    ensures i < n && Offset(i) <= x < Offset(i) + Pow2(PartRadix(i))
  {
    PartsAdjacent(n - 1);
    if x >= Offset(n - 1) {
      i := n - 1;
    } else {
      i := SomePart(x, n - 1);
    }
  }

  /** The parts tile the delegated block exactly: every address of it is in one part and in one only. */
  lemma PartsTile(resources: seq<Resource>, generics: Generics, address: nat, radix: nat, x: nat)
    requires PartsOf(resources, generics, address) && |resources| == radix - 27 && radix >= 29
    ensures InBlock(x, address, radix) <==> exists i :: InPart(resources, i, x)
    ensures forall i, j :: InPart(resources, i, x) && InPart(resources, j, x) ==> i == j
  {
    var n := radix - 27;
    if InBlock(x, address, radix) {
      var i := SomePart(x - address, n);
      assert PartAt(resources, generics, address, i) && InPart(resources, i, x);
    }
    forall i: nat | InPart(resources, i, x) ensures InBlock(x, address, radix) {
      assert PartAt(resources, generics, address, i);
      OffsetsRise(i, n);
    }
    forall i: nat, j: nat | InPart(resources, i, x) && InPart(resources, j, x) ensures i == j {
      assert PartAt(resources, generics, address, i) && PartAt(resources, generics, address, j);
      if i < j { OffsetsRise(i, j); }
      if j < i { OffsetsRise(j, i); }
    }
  }

  class PhysicalSources {
    var sources: Sources
    const pool: NodePool
    const directory: CapabilityDirectory
    const kernel: Kernel
    ghost const first: nat
    ghost const limit: nat
    ghost var taken: iset<nat>
    // The pool has room for the nodes of this many more slots.
    ghost var budget: nat

    ghost function State(): Memory
      reads this, directory, kernel
    {
      Memory(sources, directory.next, budget, taken, kernel.failures)
    }

    ghost predicate Valid()
      reads this, pool, directory, kernel
    {
      && directory.Valid() && pool.Valid(kernel)
      && Agree(sources, kernel.generics, pool.descriptor, directory.next)
      && Accounted(sources, taken, first, limit)
      && HasRoom(directory.prefixes, directory.next, pool.consumed, budget)
    }

    /** The part of a boot-time Generic behind its watermark, if there is any. */
    constructor (kernel: Kernel, directory: CapabilityDirectory, pool: NodePool, index: nat)
      requires directory.Valid() && pool.Valid(kernel) && pool.descriptor != Initial(index)
      requires Initial(index) in kernel.generics && kernel.generics[Initial(index)].end < WORD_LIMIT
      requires forall d: Descriptor :: d in kernel.generics && d.Slot? ==> d.number < directory.next
      ensures Valid() && this.kernel == kernel && this.directory == directory && this.pool == pool && taken == iset{}
      ensures first == kernel.generics[Initial(index)].watermark && limit == kernel.generics[Initial(index)].end
    {
      var g := kernel.generics[Initial(index)];
      this.kernel, this.directory, this.pool := kernel, directory, pool;
      sources := if g.watermark < g.end then map[g.watermark := Source(g.end, Initial(index))] else map[];
      first, limit, taken, budget := g.watermark, g.end, iset{}, 0;
      new;
      forall x: nat ensures Covered(sources, x) <==> g.watermark <= x < g.end {
        assert g.watermark <= x < g.end ==> Covers(sources, g.watermark, x);
      }
      assert forall s, t :: Apart(sources, s, t);
      RoomForNone(directory.prefixes, directory.next, pool.consumed);
    }

    /** The start of the source that holds an address. */
    method SourceRange(address: nat) returns (r: Option<nat>)
      requires Valid()
      ensures r.Some? <==> Covered(sources, address)
      ensures r.Some? ==> Covers(sources, r.value, address)
    {
      var keys, best: Option<nat> := sources.Keys, None;
      while keys != {}
        invariant keys <= sources.Keys
        invariant best.Some? ==> best.value in sources && best.value <= address
        invariant forall s :: s in sources && s <= address ==> s in keys || (best.Some? && s <= best.value)
        decreases |keys|
      {
        var s :| s in keys;
        keys := keys - {s};
        if s <= address && (best.None? || s > best.value) {
          best := Some(s);
        }
      }
      if best.None? || sources[best.value].end <= address {
        forall s: nat ensures !Covers(sources, s, address) {
          assert best.Some? ==> Apart(sources, s, best.value);
        }
        return None;
      }
      assert Covers(sources, best.value, address);
      return best;
    }

    /** Takes the next slot of the directory. Until the slot is used it counts as the last one taken. */
    method NewSlot() returns (r: Outcome<nat>)
      requires Valid()
      modifies `budget, pool`consumed, directory, kernel
      ensures directory.Valid() && pool.Valid(kernel) && Accounted(sources, taken, first, limit)
      ensures HasRoom(directory.prefixes, directory.next, pool.consumed, budget)
      ensures Agree(sources, kernel.generics, pool.descriptor, old(directory.next)) && Spent(old(State()), State())
      ensures kernel.generics == old(kernel.generics)[pool.descriptor := kernel.generics[pool.descriptor]]
      ensures r.Value? ==> directory.next == old(directory.next) + 1 && r.value == old(directory.next)
      ensures r.Error? ==> directory.next == old(directory.next) && Stuck(old(State()), State(), directory.rootDepth)
    {
      hide HasRoom, Aligned, Accounted;
      ghost var g0 := kernel.generics;
      r := directory.Allocate(pool, kernel, budget);
      RoomForNone(directory.prefixes, directory.next, pool.consumed);
      budget := Left(budget, directory.next - old(directory.next));
      PoolMoves(sources, g0, pool.descriptor, old(directory.next), kernel.generics, old(directory.next));
    }

    /** Converts the front of a source, `2^bits` bytes, into a Generic of its own. The front is kept as
        a smaller source, or leaves the sources. A failure at any point loses nothing. */
    method CutOff(c: nat, bits: nat, keep: bool) returns (r: Outcome<nat>)
      requires Valid() && c in sources && c + Pow2(bits) <= sources[c].end && Aligned(c, bits)
      requires keep ==> c + Pow2(bits) < sources[c].end
      modifies `sources, `taken, `budget, pool`consumed, directory, kernel
      ensures Valid() && CutResult(old(State()), State(), directory.rootDepth, c, bits, keep, r)
      ensures r.Value? ==>
                && Slot(r.value) in kernel.generics && kernel.generics[Slot(r.value)] == Generic(c, c + Pow2(bits), c)
                && pool.descriptor != Slot(r.value) && (!keep ==> NotASource(sources, Slot(r.value)))
    {
      hide Shortened, Agree, Accounted, Block, HasRoom, Aligned, NodePool.Valid;
      r := NewSlot();
      if r.Error? {
        return;
      }
      var done := UseSlot(c, bits, keep, r.value);
      if done.Err? {
        return Error(done.error);
      }
    }

    method UseSlot(c: nat, bits: nat, keep: bool, slot: nat) returns (r: Status)
      requires directory.Valid() && pool.Valid(kernel) && Accounted(sources, taken, first, limit)
      requires HasRoom(directory.prefixes, directory.next, pool.consumed, budget)
      requires Agree(sources, kernel.generics, pool.descriptor, slot) && directory.next == slot + 1
      requires c in sources && c + Pow2(bits) <= sources[c].end && Aligned(c, bits)
      requires (keep ==> c + Pow2(bits) < sources[c].end)
      modifies `sources, `taken, kernel
      ensures Valid()
      ensures r.Err? ==> sources == old(sources) && taken == old(taken) && kernel.failures > old(kernel.failures)
      ensures r.Ok? ==>
                && sources == Shortened(old(sources), c, c + Pow2(bits), if keep then Some(Slot(slot)) else None)
                && taken == (if keep then old(taken) else old(taken) + Block(c, bits))
                && kernel.failures == old(kernel.failures)
                && Slot(slot) in kernel.generics && kernel.generics[Slot(slot)] == Generic(c, c + Pow2(bits), c)
                && pool.descriptor != Slot(slot) && (!keep ==> NotASource(sources, Slot(slot)))
    {
      hide HasRoom, Aligned, Shortened, Agree, Accounted, Converted, Block, NotASource;
      ghost var g := kernel.generics;
      var m, prefix := c + Pow2(bits), if keep then Some(Slot(slot)) else None;
      Cut(sources, g, pool.descriptor, slot, c, m, bits, slot, keep);
      CutAccounted(sources, g, pool.descriptor, slot, taken, first, limit, c, bits, prefix);
      PoolMoves(sources, g, pool.descriptor, slot, g, directory.next);
      r := kernel.Convert(sources[c].descriptor, bits, Some(Slot(slot)));
      if r.Err? {
        return;
      }
      sources := Shortened(sources, c, m, prefix);
      if !keep {
        taken := taken + Block(c, bits);
      }
    }

    /** The start of the source that holds an address. */
    ghost function StartOf(address: nat): nat
      requires Covered(sources, address)
      reads `sources
    {
      var s: nat :| Covers(sources, s, address); s
    }

    /** A block can be cut out of the source that holds its address. */
    ghost predicate Takeable(address: nat, radix: nat)
      reads `sources
    {
      && radix < WORD_BITS && Aligned(address, radix) && Covered(sources, address)
      && address + Pow2(radix) <= sources[StartOf(address)].end && Reaches(StartOf(address), address)
    }

    lemma SourceBound(s: nat)
      requires Valid() && s in sources
      ensures sources[s].end < WORD_LIMIT
    {
      assert SourceAt(sources, kernel.generics, s);
    }

    lemma UniqueStart(s: nat, address: nat)
      requires Valid() && Covers(sources, s, address)
      ensures Covered(sources, address) && StartOf(address) == s
    {
      assert Apart(sources, s, StartOf(address));
    }

    /** Splits the next prefix off, and answers its order. */
    method Nearer(ghost m: Memory, ghost start: nat, cursor: nat, address: nat) returns (r: Outcome<nat>)
      requires Valid() && cursor < address && Nearing(m, State(), start, cursor, address)
      modifies `sources, `taken, `budget, pool`consumed, directory, kernel
      ensures Valid()
      ensures r.Value? ==>
                cursor + Pow2(r.value) <= address && Nearing(m, State(), start, cursor + Pow2(r.value), address)
      ensures r.Error? ==> Stopped(m, State(), directory.rootDepth, start, address)
    {
      hide PrefixRadix, Aligned, Valid, Nearing, CutResult, Stopped, Spent, Stuck, Shortened;
      ghost var m1 := State();
      NearingMeans(m, m1, directory.rootDepth, start, cursor, address);
      var bits := PrefixRadix(cursor, address);
      if bits.None? {
        return Error(InvalidArgument);
      }
      var cut := CutOff(cursor, bits.value, true);
      NearingStep(m, m1, State(), directory.rootDepth, start, cursor, address, bits.value, cut);
      if cut.Error? {
        return Error(cut.error);
      }
      return Value(bits.value);
    }

    /** Splits prefixes off the source at `start` until a source starts at `address`. */
    method Approach(start: nat, address: nat) returns (r: Status)
      requires Valid() && Covers(sources, start, address)
      modifies `sources, `taken, `budget, pool`consumed, directory, kernel
      ensures Valid()
      ensures r.Ok? ==> Nearing(old(State()), State(), start, address, address)
      ensures r.Err? ==> Stopped(old(State()), State(), directory.rootDepth, start, address)
    {
      hide Valid, Nearing, Stopped;
      ghost var m := State();
      var cursor := start;
      SourceBound(start);
      NearingStarts(m, start, address);
      while cursor < address
        invariant Valid() && cursor <= address && Nearing(m, State(), start, cursor, address)
        decreases address - cursor
      {
        var step := Nearer(m, start, cursor, address);
        if step.Error? {
          return Err(step.error);
        }
        cursor := cursor + Pow2(step.value);
      }
      return Ok;
    }

    /** Cuts an aligned block out of the sources: first the prefixes in front of it, then the block.
        Each lands where the software expects it. Whatever fails, every address stays accounted for;
        once there is room for the slots, only a refused conversion makes a valid request fail. */
    method TakeSlot(address: nat, radix: nat) returns (r: Outcome<nat>)
      requires Valid()
      modifies `sources, `taken, `budget, pool`consumed, directory, kernel
      ensures Valid() && Spent(old(State()), State()) && directory.next <= old(directory.next) + MAX_PREFIXES + 1
      ensures r.Error? ==> taken == old(taken)
      ensures r.Error? && old(Takeable(address, radix)) ==> Stuck(old(State()), State(), directory.rootDepth)
      ensures r.Value? ==>
                && r.value < directory.next && taken == old(taken) + Block(address, radix) && Aligned(address, radix)
                && Slot(r.value) in kernel.generics && pool.descriptor != Slot(r.value)
                && NotASource(sources, Slot(r.value))
                && kernel.generics[Slot(r.value)] == Generic(address, address + Pow2(radix), address)
    {
      hide Prefixes, Aligned, Valid, Shortened, Block, Reaches, NotASource;
      if radix >= WORD_BITS {
        return Error(InvalidArgument);
      }
      var start := SourceRange(address);
      if start.None? {
        return Error(InvalidArgument);
      }
      UniqueStart(start.value, address);
      if !Aligned(address, radix) || address + Pow2(radix) > sources[start.value].end {
        return Error(InvalidArgument);
      }
      var reached := Approach(start.value, address);
      if reached.Err? {
        return Error(reached.error);
      }
      r := CutOff(address, radix, false);
    }

    /** Makes sure that the pool has its reserve, taking a fresh block for it if necessary. `selected` is
        the block that the page allocator reserved for that, if it found one. */
    method EnsureCapacity(selected: Option<nat>) returns (r: Status)
      requires Valid()
      modifies `sources, `taken, `budget, pool, directory, kernel
      ensures Valid() && (r.Ok? ==> budget == DIRECTORY_SLOTS)
      ensures taken == old(taken) || (selected.Some? && taken == old(taken) + Block(selected.value, POOL_RADIX))
      ensures r.Ok? ==>
                || old(pool.HasReserve())
                || (selected.Some? && taken == old(taken) + Block(selected.value, POOL_RADIX))
      ensures old(pool.HasReserve()) ==> r.Ok? && sources == old(sources) && kernel.failures == old(kernel.failures)
    {
      if pool.HasReserve() {
        ReserveSuffices(directory.prefixes, directory.next, pool.consumed, DIRECTORY_SLOTS);
        budget := DIRECTORY_SLOTS;
        return Ok;
      }
      if selected.None? {
        return Err(InvalidArgument);
      }
      var block := TakeSlot(selected.value, POOL_RADIX);
      if block.Error? {
        return Err(block.error);
      }
      NodeSizes();
      pool.Replace(Slot(block.value));
      ReserveSuffices(directory.prefixes, directory.next, 0, DIRECTORY_SLOTS);
      budget := DIRECTORY_SLOTS;
      return Ok;
    }

    // ---- delegation ----

    /** Converts the next part of a delegated block, which lands right behind the previous one. */
    method UseAuthority(a: nat, at: nat, bits: nat) returns (r: Outcome<nat>)
      requires Valid() && Authority(sources, kernel.generics, pool.descriptor, a, at) && Aligned(at, bits)
      modifies `budget, pool`consumed, directory, kernel
      ensures Valid() && Spent(old(State()), State()) && directory.next <= old(directory.next) + 1
      ensures r.Error? ==> Stuck(old(State()), State(), directory.rootDepth)
      ensures r.Value? ==>
                && Authority(sources, kernel.generics, pool.descriptor, a, at + Pow2(bits))
                && r.value == old(directory.next) && Slot(r.value) in kernel.generics && r.value != a
                && Slot(r.value) != pool.descriptor
                && kernel.generics[Slot(r.value)] == Generic(at, at + Pow2(bits), at)
      ensures && Slot(a) in kernel.generics && kernel.generics[Slot(a)].base == old(kernel.generics)[Slot(a)].base
              && kernel.generics[Slot(a)].end == old(kernel.generics)[Slot(a)].end
      ensures forall d :: d in old(kernel.generics) && d != Slot(a) && d != pool.descriptor ==>
                d in kernel.generics && kernel.generics[d] == old(kernel.generics)[d]
    {
      hide Accounted, HasRoom, Aligned, Agree, Converted, NotASource;
      r := NewSlot();
      if r.Error? {
        return;
      }
      ghost var g := kernel.generics;
      AuthorityMoves(sources, g, pool.descriptor, r.value, a, at, bits);
      PoolMoves(sources, g, pool.descriptor, r.value, g, directory.next);
      var done := kernel.Convert(Slot(a), bits, Some(Slot(r.value)));
      if done.Err? {
        return Error(done.error);
      }
    }

    /** The first `i` parts of the delegated block at `address` are made. */
    ghost predicate Halfway(m: Memory, a: nat, address: nat, radix: nat, resources: seq<Resource>)
      reads this, pool, directory, kernel
    {
      && Valid() && Spent(m, State()) && directory.next <= m.next + |resources|
      && Authority(sources, kernel.generics, pool.descriptor, a, address + Offset(|resources|))
      && PartsOf(resources, kernel.generics, address) && PartsApart(resources, pool.descriptor, a)
      && Rules(kernel.generics, a, address, radix)
    }

    method AddPart(ghost m: Memory, a: nat, address: nat, radix: nat, resources: seq<Resource>)
      returns (r: Outcome<Resource>)
      requires Halfway(m, a, address, radix, resources) && 29 <= radix && |resources| < radix - 27
      requires Aligned(address, radix)
      modifies `budget, pool`consumed, directory, kernel
      ensures Valid() && Spent(m, State()) && directory.next <= m.next + |resources| + 1
      ensures r.Value? ==> Halfway(m, a, address, radix, resources + [r.value])
      ensures r.Error? ==> Stuck(m, State(), directory.rootDepth)
      ensures r.Error? ==> PartsOf(resources, kernel.generics, address) && Rules(kernel.generics, a, address, radix)
    {
      hide Valid, Offset, PartRadix, Authority, Aligned, PartsOf, PartsApart, Spent, Stuck;
      var i := |resources|;
      ghost var g, m1 := kernel.generics, State();
      PartAligned(address, radix, i);
      var slot := UseAuthority(a, address + Offset(i), PartRadix(i));
      SpentTwice(m, m1, State(), directory.rootDepth);
      if slot.Error? {
        PartsStay(resources, g, kernel.generics, pool.descriptor, a, address);
        return Error(slot.error);
      }
      PartAdded(resources, g, kernel.generics, pool.descriptor, a, address, slot.value);
      return Value(Resource(slot.value, address + Offset(i), PartRadix(i)));
    }

    /** Splits a delegated block into parts of radix 28, 28, 29, ... up to one less than its own. */
    method SplitAuthority(a: nat, address: nat, radix: nat) returns (resources: seq<Resource>, r: Status)
      requires Valid() && Authority(sources, kernel.generics, pool.descriptor, a, address)
      requires 29 <= radix < WORD_BITS && Aligned(address, radix) && Rules(kernel.generics, a, address, radix)
      modifies `budget, pool`consumed, directory, kernel
      ensures Valid() && Spent(old(State()), State()) && directory.next <= old(directory.next) + (radix - 27)
      ensures PartsOf(resources, kernel.generics, address) && Rules(kernel.generics, a, address, radix)
      ensures if r.Ok? then |resources| == radix - 27 else |resources| < radix - 27
      ensures r.Err? ==> Stuck(old(State()), State(), directory.rootDepth)
    {
      hide Valid, Aligned, Stuck;
      resources := [];
      ghost var m := State();
      assert Halfway(m, a, address, radix, []);
      for i := 0 to radix - 27
        invariant Halfway(m, a, address, radix, resources) && |resources| == i
      {
        var part := AddPart(m, a, address, radix, resources);
        if part.Error? {
          return resources, Err(part.error);
        }
        resources := resources + [part.value];
      }
      return resources, Ok;
    }

    /** Takes a block and splits it. After a successful `EnsureCapacity` a valid request never fails for
        want of nodes: the kernel refused a conversion, or the directory has no more names. */
    method TakeAndSplit(address: nat, radix: nat) returns (authority: Option<nat>, resources: seq<Resource>, r: Status)
      requires Valid() && 29 <= radix < WORD_BITS
      modifies `sources, `taken, `budget, pool`consumed, directory, kernel
      ensures Valid()
      ensures r.Ok? ==> authority.Some? && |resources| == radix - 27
      ensures r.Err? ==> |resources| < radix - 27
      ensures Quarantined(kernel.generics, taken, old(taken), address, radix, authority, resources)
      ensures r.Err? && old(budget) == DIRECTORY_SLOTS && old(Takeable(address, radix)) ==>
                kernel.failures > old(kernel.failures) || directory.rootDepth + 4 * 8 + 11 > 64
                || directory.next >= NAMESPACE
    {
      hide Valid, Takeable, Aligned, Block, NotASource;
      ghost var m := State();
      var slot := TakeSlot(address, radix);
      if slot.Error? {
        return None, [], Err(slot.error);
      }
      ghost var m1 := State();
      assert Authority(sources, kernel.generics, pool.descriptor, slot.value, address);
      resources, r := SplitAuthority(slot.value, address, radix);
      authority := Some(slot.value);
      SpentTwice(m, m1, State(), directory.rootDepth);
    }
  }

  /** What is left of a block whose splitting got as far as this: nothing was taken, or its authority is kept
      together with the parts made so far. */
  ghost predicate Quarantined(generics: Generics, taken: iset<nat>, was: iset<nat>, address: nat, radix: nat,
                              authority: Option<nat>, resources: seq<Resource>) {
    && PartsOf(resources, generics, address)
    && if authority.None? then taken == was && resources == []
       else taken == was + Block(address, radix) && Rules(generics, authority.value, address, radix)
  }

  datatype DelegationState = Reserved | Prepared | HandedOff | Reclaimed

  datatype Delegation = Delegation(address: nat, radix: nat, state: DelegationState, authority: Option<nat>,
                                   resources: seq<Resource>)

  /** Of the addresses that left the sources, all that are not the node pool's are on record. */
  ghost predicate OnlyTaken(was: iset<nat>, taken: iset<nat>, refill: Option<nat>, radix: nat,
                            recorded: seq<Delegation>) {
    forall x :: x in taken && x !in was ==>
      || (refill.Some? && InBlock(x, refill.value, POOL_RADIX))
      || (exists d :: d in recorded && d.authority.Some? && InBlock(x, d.address, d.radix))
  }

  /** The ledger of memory given to other Alphas. */
  class Delegations {
    var records: seq<Delegation>
    const memory: PhysicalSources

    constructor (memory: PhysicalSources)
      ensures this.memory == memory && records == []
    {
      this.memory, records := memory, [];
    }

    /** Reserves a block of `2^radix` bytes and splits it. `refill` and `selected` are what the page
        allocator found for the node pool and for the block. The reservation is recorded before anything
        can fail. */
    method Reserve(radix: nat, refill: Option<nat>, selected: Option<nat>) returns (r: Outcome<nat>)
      requires memory.Valid()
      modifies `records, memory`sources, memory`taken, memory`budget, memory.pool, memory.directory, memory.kernel
      ensures memory.Valid()
      ensures |old(records)| <= |records| <= |old(records)| + 1 && records[..|old(records)|] == old(records)
      ensures r.Value? ==> |records| == |old(records)| + 1 && r.value == |records|
      ensures |records| == |old(records)| + 1 ==>
                && 29 <= radix < WORD_BITS && selected.Some?
                && (old(memory.pool.HasReserve()) || (refill.Some? && Block(refill.value, POOL_RADIX) <= memory.taken))
                && var d := records[|old(records)|];
                   && d.address == selected.value && d.radix == radix
                   && (if r.Value? then d.state == Prepared && d.authority.Some? && |d.resources| == radix - 27
                       else d.state == Reserved && |d.resources| < radix - 27)
                   && (d.authority.Some? ==> Rules(memory.kernel.generics, d.authority.value, d.address, radix))
                   && PartsOf(d.resources, memory.kernel.generics, d.address)
                   && (d.authority.None? ==> d.resources == [])
      ensures 29 <= radix < WORD_BITS && selected.Some? && old(memory.pool.HasReserve()) ==>
                |records| == |old(records)| + 1
      ensures OnlyTaken(old(memory.taken), memory.taken, refill, radix, records[|old(records)|..])
      ensures 29 <= radix < WORD_BITS && selected.Some? && old(memory.pool.HasReserve()) ==>
                old(memory.Takeable(selected.value, radix)) ==>
                  || r.Value? || memory.kernel.failures > old(memory.kernel.failures)
                  || memory.directory.rootDepth + 4 * 8 + 11 > 64 || memory.directory.next >= NAMESPACE
    {
      hide PhysicalSources.Takeable, PhysicalSources.Valid, PartsOf;
      if !(29 <= radix < WORD_BITS) {
        return Error(InvalidArgument);
      }
      var ready := memory.EnsureCapacity(refill);
      if ready.Err? {
        return Error(ready.error);
      }
      if selected.None? {
        return Error(InvalidArgument);
      }
      var index := |records|;
      records := records + [Delegation(selected.value, radix, Reserved, None, [])];
      var authority, resources, split := memory.TakeAndSplit(selected.value, radix);
      records := records[index := records[index].(authority := authority, resources := resources)];
      if split.Err? {
        return Error(split.error);
      }
      records := records[index := records[index].(state := Prepared)];
      return Value(index + 1);
    }

    /** The parts of a prepared delegation can be taken once. */
    method Take(id: nat) returns (r: Outcome<seq<Resource>>)
      modifies `records
      ensures r.Value? <==> 1 <= id <= |old(records)| && old(records)[id - 1].state.Prepared?
      ensures r.Value? ==>
                && r.value == old(records)[id - 1].resources
                && records == old(records)[id - 1 := old(records)[id - 1].(state := HandedOff)]
      ensures r.Error? ==> records == old(records)
    {
      if !(1 <= id <= |records|) {
        return Error(InvalidArgument);
      }
      if !records[id - 1].state.Prepared? {
        return Error(IllegalOperation);
      }
      records := records[id - 1 := records[id - 1].(state := HandedOff)];
      return Value(records[id - 1].resources);
    }
  }
}
