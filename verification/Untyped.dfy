/** Untyped memory as the kernel hands it out: every conversion aligns the watermark of the source up
    to the size of the new object and moves it past the object. */
module UntypedMemory {
  import opened Dyadic
  import opened Options
  import opened Capabilities

  /** A boot-time capability, or a slot of the capability directory. */
  datatype Descriptor = Initial(index: nat) | Slot(number: nat)

  datatype Generic = Generic(base: nat, end: nat, watermark: nat)

  type Generics = map<Descriptor, Generic>

  /** Where an object of `2^bits` bytes lands. */
  function Landing(g: Generic, bits: nat): nat {
    AlignUp(g.watermark, Pow2(bits))
  }

  function Advanced(g: Generic, bits: nat): Generic {
    g.(watermark := Landing(g, bits) + Pow2(bits))
  }

  /** The capabilities after a conversion that succeeded. */
  function Converted(generics: Generics, source: Descriptor, bits: nat, target: Option<Descriptor>): Generics
    requires source in generics
  {
    var g := generics[source];
    var generics' := generics[source := Advanced(g, bits)];
    if target.None? then generics'
    else generics'[target.value := Generic(Landing(g, bits), Landing(g, bits) + Pow2(bits), Landing(g, bits))]
  }

  /** An aligned watermark leaves no padding. */
  lemma LandsExactly(g: Generic, bits: nat)
    requires Aligned(g.watermark, bits)
    ensures Landing(g, bits) == g.watermark
  {
    AlignUpLeast(g.watermark, Pow2(bits));
  }

  lemma AlignUpFrom(base: nat, v: nat, bits: nat)
    requires Aligned(base, bits)
    ensures AlignUp(base + v, Pow2(bits)) == base + AlignUp(v, Pow2(bits))
  {
    var m := Pow2(bits);
    AlignUpLeast(v, m);
    AlignUpLeast(base + v, m);
    AlignedStep(base, AlignUp(v, m), bits);
    AlignedStep(base, AlignUp(base + v, m), bits);
  }

  class Kernel {
    var generics: Generics
    ghost var failures: nat

    /** Creates a Generic at `target`, or another kind of object that is not followed here. A
        conversion may be refused for any reason, and is when the object does not fit. */
    method Convert(source: Descriptor, bits: nat, target: Option<Descriptor>) returns (r: Status)
      requires source in generics
      modifies this
      ensures r.Ok? ==>
                && failures == old(failures) && generics == Converted(old(generics), source, bits, target)
                && Landing(old(generics)[source], bits) + Pow2(bits) <= old(generics)[source].end
      ensures r.Err? ==> generics == old(generics) && failures > old(failures)
    {
      r := *;
      var g := generics[source];
      if r.Ok? && Landing(g, bits) + Pow2(bits) <= g.end {
        generics := Converted(generics, source, bits, target);
      } else {
        r := if r.Ok? then Err(OtherError) else r;
        failures := failures + 1;
      }
    }
  }
}

/** The append-only directory of capability slots and the pool of memory its nodes are made from. */
module CapabilityDirectories {
  import opened Dyadic
  import opened Options
  import opened Capabilities
  import opened UntypedMemory

  const DIRECTORY_LEVELS: nat := 4
  const DIRECTORY_SLOTS: nat := 256
  const DIRECTORY_NODE_BITS: nat := 15
  const DIRECTORY_NODE_BYTES: nat := 32768
  const LEAF_NODE_BYTES: nat := 262144
  const POOL_RADIX: nat := 23
  const POOL_BYTES: nat := 8388608
  const REFILL_RESERVE_BYTES: nat := 2 * DIRECTORY_LEVELS * DIRECTORY_NODE_BYTES + 2 * LEAF_NODE_BYTES
  const NAMESPACE: nat := 0x1_0000_0000

  /** A node is a header and one 64-byte slot per entry, rounded up to a power of two. */
  lemma NodeSizes()
    ensures Pow2(DIRECTORY_NODE_BITS) == DIRECTORY_NODE_BYTES && Pow2(POOL_RADIX) == POOL_BYTES
    ensures Pow2(14) < 64 + 64 * Pow2(8) <= DIRECTORY_NODE_BYTES
    ensures Pow2(17) < 64 + 64 * Pow2(11) <= LEAF_NODE_BYTES
  {
    assert Pow2(8) == 256;
    assert Pow2(7) == 128;
    Pow2Add(7, 7);
    Pow2Add(8, 7);
    Pow2Add(8, 8);
    Pow2Add(15, 8);
    Pow2Add(3, 8);
    Pow2Add(14, 3);
  }

  class NodePool {
    var descriptor: Descriptor
    var consumed: nat

    /** The software's count agrees with the kernel's watermark. */
    ghost predicate Valid(kernel: Kernel)
      reads this, kernel
    {
      && descriptor in kernel.generics && consumed <= POOL_BYTES
      && var g := kernel.generics[descriptor];
         Aligned(g.base, POOL_RADIX) && g.end == g.base + POOL_BYTES && g.watermark == g.base + consumed
    }

    constructor (descriptor: Descriptor)
      ensures this.descriptor == descriptor && consumed == 0
    {
      this.descriptor, consumed := descriptor, 0;
    }

    /** Starts over with another block of untyped memory. */
    method Replace(descriptor: Descriptor)
      modifies this
      ensures this.descriptor == descriptor && consumed == 0
    {
      this.descriptor, consumed := descriptor, 0;
    }

    /** What must be left before anything is taken from the sources. */
    predicate HasReserve()
      reads this
    {
      consumed + REFILL_RESERVE_BYTES <= POOL_BYTES
    }

    function AllocationEnd(bits: nat): Option<nat>
      reads this
    {
      var end := AlignUp(consumed, Pow2(bits)) + Pow2(bits);
      if end <= POOL_BYTES then Some(end) else None
    }

    /** Makes an object of `2^bits` bytes; the software's limit is exactly the kernel's. */
    method Create(kernel: Kernel, bits: nat, target: Option<Descriptor>) returns (r: Status)
      requires Valid(kernel) && bits <= POOL_RADIX && target != Some(descriptor)
      modifies `consumed, kernel
      ensures Valid(kernel) && kernel.failures >= old(kernel.failures)
      ensures r.Ok? ==>
                && old(AllocationEnd(bits)) == Some(consumed) && kernel.failures == old(kernel.failures)
                && kernel.generics == Converted(old(kernel.generics), descriptor, bits, target)
      ensures r.Err? ==> consumed == old(consumed) && kernel.generics == old(kernel.generics)
      ensures r.Err? ==> old(AllocationEnd(bits)).None? || kernel.failures > old(kernel.failures)
    {
      var end := AllocationEnd(bits);
      if end.None? {
        return Err(InvalidArgument);
      }
      ghost var g := kernel.generics[descriptor];
      AlignedFiner(g.base, bits, POOL_RADIX);
      AlignUpFrom(g.base, consumed, bits);
      r := kernel.Convert(descriptor, bits, target);
      if r.Ok? {
        consumed := end.value;
      }
    }
  }

  // ---- how many nodes the next slots need ----

  /** The slots below one node of a level. */
  function Span(level: nat): nat
    requires 1 <= level < DIRECTORY_LEVELS
  {
    if level == 1 then 16777216 else if level == 2 then 65536 else 256
  }

  /** Every node holds 256 slots or nodes of the next level, and the root 256 nodes of the first. */
  lemma SpansNest(level: nat)
    requires 1 <= level < DIRECTORY_LEVELS
    ensures Span(level) == 256 * (if level == 3 then 1 else Span(level + 1))
    ensures NAMESPACE == 256 * Span(1)
  {
  }

  function Prefix(number: nat, level: nat): nat
    requires 1 <= level < DIRECTORY_LEVELS
  {
    number / Span(level)
  }

  /** Nodes of one level still to be made for the next `k` slots. */
  ghost function PendingAt(prefixes: seq<Option<nat>>, next: nat, k: nat, level: nat): int
    requires |prefixes| == DIRECTORY_LEVELS && 1 <= level < DIRECTORY_LEVELS
  {
    if k == 0 then 0
    else (if prefixes[level] == Some(Prefix(next, level)) then 0 else 1)
         + Prefix(next + k - 1, level) - Prefix(next, level)
  }

  ghost function Pending(prefixes: seq<Option<nat>>, next: nat, k: nat): int
    requires |prefixes| == DIRECTORY_LEVELS
  {
    PendingAt(prefixes, next, k, 1) + PendingAt(prefixes, next, k, 2) + PendingAt(prefixes, next, k, 3)
  }

  /** 256 slots touch at most two nodes of each level. */
  lemma PendingIsSmall(prefixes: seq<Option<nat>>, next: nat, k: nat)
    requires |prefixes| == DIRECTORY_LEVELS && k <= DIRECTORY_SLOTS
    ensures 0 <= Pending(prefixes, next, k) <= 6
  {
  }

  /** The pool has room for all the nodes that the next `k` slots need. */
  ghost predicate HasRoom(prefixes: seq<Option<nat>>, next: nat, consumed: nat, k: nat)
    requires |prefixes| == DIRECTORY_LEVELS
  {
    AlignUp(consumed, DIRECTORY_NODE_BYTES) + Pending(prefixes, next, k) * DIRECTORY_NODE_BYTES <= POOL_BYTES
  }

  /** The reserve is enough for 256 slots, alignment padding included. */
  lemma ReserveSuffices(prefixes: seq<Option<nat>>, next: nat, consumed: nat, k: nat)
    requires |prefixes| == DIRECTORY_LEVELS && k <= DIRECTORY_SLOTS && consumed + REFILL_RESERVE_BYTES <= POOL_BYTES
    ensures HasRoom(prefixes, next, consumed, k)
  {
    PendingIsSmall(prefixes, next, k);
    AlignUpLeast(consumed, DIRECTORY_NODE_BYTES);
  }

  lemma PendingIsNatural(prefixes: seq<Option<nat>>, next: nat, k: nat)
    requires |prefixes| == DIRECTORY_LEVELS
    ensures PendingAt(prefixes, next, k, 1) >= 0 && PendingAt(prefixes, next, k, 2) >= 0
    ensures PendingAt(prefixes, next, k, 3) >= 0
  {
  }

  /** Making the node of one level brings the pool forward by one node and the count down by one. */
  lemma NodeMade(prefixes: seq<Option<nat>>, next: nat, consumed: nat, k: nat, level: nat)
    requires |prefixes| == DIRECTORY_LEVELS && 1 <= level < DIRECTORY_LEVELS && k > 0
    requires prefixes[level] != Some(Prefix(next, level))
    ensures var prefixes' := prefixes[level := Some(Prefix(next, level))];
            && Pending(prefixes', next, k) == Pending(prefixes, next, k) - 1 && Pending(prefixes, next, k) >= 1
            && (HasRoom(prefixes, next, consumed, k) ==>
                  && AlignUp(consumed, DIRECTORY_NODE_BYTES) + DIRECTORY_NODE_BYTES <= POOL_BYTES
                  && HasRoom(prefixes', next, AlignUp(consumed, DIRECTORY_NODE_BYTES) + DIRECTORY_NODE_BYTES, k))
  {
    PendingIsNatural(prefixes, next, k);
    hide AlignUp, Prefix;
    var m := DIRECTORY_NODE_BYTES;
    AlignUpLeast(consumed, m);
    AlignUpLeast(AlignUp(consumed, m) + m, m);
  }

  lemma NextSlot(prefixes: seq<Option<nat>>, next: nat, consumed: nat, k: nat)
    requires |prefixes| == DIRECTORY_LEVELS && k > 0
    requires forall level :: 1 <= level < DIRECTORY_LEVELS ==> prefixes[level] == Some(Prefix(next, level))
    ensures HasRoom(prefixes, next, consumed, k) ==> HasRoom(prefixes, next + 1, consumed, k - 1)
  {
    hide AlignUp;
    assert prefixes[1] == Some(Prefix(next, 1)) && prefixes[2] == Some(Prefix(next, 2));
    assert prefixes[3] == Some(Prefix(next, 3));
  }

  class CapabilityDirectory {
    const rootDepth: nat
    var prefixes: seq<Option<nat>>
    var next: nat

    ghost predicate Valid()
      reads this
    {
      |prefixes| == DIRECTORY_LEVELS
    }

    constructor (rootDepth: nat)
      ensures Valid() && next == 0 && this.rootDepth == rootDepth && prefixes == [Some(0), None, None, None]
    {
      this.rootDepth := rootDepth;
      prefixes, next := [Some(0), None, None, None], 0;
    }

    /** The descriptors of this root are long enough for every slot. */
    predicate Addressable()
      reads this
    {
      rootDepth + 4 * 8 + 11 <= 64 && next < NAMESPACE
    }

    /** Makes the node of one level above the next slot, unless it is there. */
    method EnsureNode(pool: NodePool, kernel: Kernel, level: nat, ghost k: nat) returns (r: Status)
      requires Valid() && pool.Valid(kernel) && 1 <= level < DIRECTORY_LEVELS
      modifies `prefixes, pool`consumed, kernel
      ensures Valid() && pool.Valid(kernel)
      ensures kernel.generics == old(kernel.generics)[pool.descriptor := kernel.generics[pool.descriptor]]
      ensures r.Ok? ==>
                prefixes == old(prefixes)[level := Some(Prefix(next, level))] && kernel.failures == old(kernel.failures)
      ensures r.Err? ==>
                && prefixes == old(prefixes) && pool.consumed == old(pool.consumed)
                && kernel.failures >= old(kernel.failures)
      ensures old(HasRoom(prefixes, next, pool.consumed, k)) && k > 0 ==>
                HasRoom(prefixes, next, pool.consumed, k) && (r.Err? ==> kernel.failures > old(kernel.failures))
    {
      hide HasRoom, AlignUp, Prefix, Aligned;
      var prefix := Prefix(next, level);
      if prefixes[level] == Some(prefix) {
        return Ok;
      }
      if k > 0 {
        NodeMade(prefixes, next, pool.consumed, k, level);
      }
      NodeSizes();
      r := pool.Create(kernel, DIRECTORY_NODE_BITS, None);
      if r.Ok? {
        prefixes := prefixes[level := Some(prefix)];
      }
    }

    /** Hands out the next slot, making the nodes above it first. With room for `k` slots the pool is
        never the reason for a failure. */
    method Allocate(pool: NodePool, kernel: Kernel, ghost k: nat) returns (r: Outcome<nat>)
      requires Valid() && pool.Valid(kernel)
      modifies `prefixes, `next, pool`consumed, kernel
      ensures Valid() && pool.Valid(kernel) && kernel.failures >= old(kernel.failures)
      ensures kernel.generics == old(kernel.generics)[pool.descriptor := kernel.generics[pool.descriptor]]
      ensures r.Value? ==> old(Addressable()) && r.value == old(next) && next == old(next) + 1
      ensures r.Error? ==> next == old(next)
      ensures old(HasRoom(prefixes, next, pool.consumed, k)) && k > 0 ==>
                && HasRoom(prefixes, next, pool.consumed, if r.Value? then k - 1 else k)
                && (r.Error? ==> !old(Addressable()) || kernel.failures > old(kernel.failures))
    {
      if !Addressable() {
        return Error(InvalidArgument);
      }
      hide HasRoom, Prefix, Aligned, AlignUp;
      for level := 1 to DIRECTORY_LEVELS
        invariant Valid() && pool.Valid(kernel) && kernel.failures == old(kernel.failures) && next == old(next)
        invariant kernel.generics == old(kernel.generics)[pool.descriptor := kernel.generics[pool.descriptor]]
        invariant forall l :: 1 <= l < level ==> prefixes[l] == Some(Prefix(next, l))
        invariant old(HasRoom(prefixes, next, pool.consumed, k)) && k > 0 ==> HasRoom(prefixes, next, pool.consumed, k)
      {
        var made := EnsureNode(pool, kernel, level, k);
        if made.Err? {
          return Error(made.error);
        }
      }
      if k > 0 {
        NextSlot(prefixes, next, pool.consumed, k);
      }
      r := Value(next);
      next := next + 1;
    }
  }
}
