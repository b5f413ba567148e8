/** Copying memory between processes, page by page, through a window of sixteen mapped pages. */
module MemoryCopies {
  import opened Bytes
  import opened Options
  import opened Numbers
  import opened Capabilities

  const PAGE_SIZE: nat := 4096
  const WINDOW_BASE: nat := 0x6600_0000
  const WINDOW_PAGES: nat := 16
  const WORD: nat := 0x1_0000_0000_0000_0000

  // ---- memory ----

  type Frame = nat

  /** What is in every page frame. */
  type Memory = map<Frame, seq<byte>>

  /** The frame of every mapped page, by the owner of the address space and the page's number. */
  type Table = map<(nat, nat), Frame>

  ghost predicate Paged(mem: Memory) {
    forall f :: f in mem ==> |mem[f]| == PAGE_SIZE
  }

  /** Every mapped page has a frame of its own. */
  ghost predicate Private(table: Table, mem: Memory) {
    && (forall k :: k in table ==> table[k] in mem)
    && forall j, k :: j in table && k in table && table[j] == table[k] ==> j == k
  }

  predicate IsMapped(table: Table, owner: nat, va: nat) {
    (owner, va / PAGE_SIZE) in table
  }

  /** The byte at an address; zero where nothing is mapped. */
  function Byte(mem: Memory, table: Table, owner: nat, va: nat): byte
    requires Paged(mem) && Private(table, mem)
  {
    if IsMapped(table, owner, va) then mem[table[(owner, va / PAGE_SIZE)]][va % PAGE_SIZE] else 0
  }

  /** Copying `n` bytes between two places in frames, as if all were read before any is written. */
  function Copied(mem: Memory, source: Frame, from: nat, destination: Frame, to: nat, n: nat): (r: Memory)
    requires Paged(mem) && source in mem && destination in mem && from + n <= PAGE_SIZE && to + n <= PAGE_SIZE
    ensures Paged(r) && r.Keys == mem.Keys
  {
    mem[destination := Put(mem[destination], to, mem[source][from..from + n])]
  }

  // ---- what a copy between two ranges does ----

  /** The byte at an address after bytes `lo .. hi` of a range were moved. */
  ghost predicate MovedAt(mem0: Memory, mem: Memory, table: Table, so: nat, source: nat, do: nat, destination: nat,
                          lo: nat, hi: nat, owner: nat, va: nat)
    requires Paged(mem0) && Private(table, mem0) && Paged(mem) && Private(table, mem)
  {
    Byte(mem, table, owner, va) ==
    if owner == do && destination + lo <= va < destination + hi then Byte(mem0, table, so, source + (va - destination))
    else Byte(mem0, table, owner, va)
  }

  /** Bytes `lo .. hi` of the destination are those of the source before; nothing else changed. */
  ghost predicate Moved(mem0: Memory, mem: Memory, table: Table, so: nat, source: nat, do: nat, destination: nat,
                        lo: nat, hi: nat) {
    && Paged(mem0) && Private(table, mem0) && Paged(mem) && Private(table, mem) && mem.Keys == mem0.Keys
    && (forall f :: f in mem && f !in table.Values ==> mem[f] == mem0[f])
    && forall owner, va {:trigger MovedAt(mem0, mem, table, so, source, do, destination, lo, hi, owner, va)} ::
         MovedAt(mem0, mem, table, so, source, do, destination, lo, hi, owner, va)
  }

  /** A copy within one page on either side, seen from the address spaces. */
  lemma ByteCopied(mem: Memory, table: Table, so: nat, src: nat, do: nat, dst: nat, n: nat, owner: nat, va: nat)
    requires Paged(mem) && Private(table, mem) && IsMapped(table, so, src) && IsMapped(table, do, dst)
    requires src % PAGE_SIZE + n <= PAGE_SIZE && dst % PAGE_SIZE + n <= PAGE_SIZE
    ensures var mem' := Copied(mem, table[(so, src / PAGE_SIZE)], src % PAGE_SIZE, table[(do, dst / PAGE_SIZE)],
                               dst % PAGE_SIZE, n);
            && Private(table, mem')
            && Byte(mem', table, owner, va) ==
               if owner == do && dst <= va < dst + n then Byte(mem, table, so, src + (va - dst))
               else Byte(mem, table, owner, va)
  {
    var sf, df := table[(so, src / PAGE_SIZE)], table[(do, dst / PAGE_SIZE)];
    var mem' := Copied(mem, sf, src % PAGE_SIZE, df, dst % PAGE_SIZE, n);
    if IsMapped(table, owner, va) && table[(owner, va / PAGE_SIZE)] == df {
      PutAt(mem[df], dst % PAGE_SIZE, mem[sf][src % PAGE_SIZE..src % PAGE_SIZE + n], va % PAGE_SIZE);
      SamePage(dst, va, n);
      if dst <= va < dst + n {
        Within(src, va - dst, n);
      }
    } else if owner == do && dst <= va < dst + n {
      Within(dst, va - dst, n);
    }
  }

  lemma Within(a: nat, k: nat, n: nat)
    requires a % PAGE_SIZE + n <= PAGE_SIZE && k < n
    ensures (a + k) / PAGE_SIZE == a / PAGE_SIZE && (a + k) % PAGE_SIZE == a % PAGE_SIZE + k
  {
  }

  lemma SamePage(a: nat, b: nat, n: nat)
    requires a / PAGE_SIZE == b / PAGE_SIZE && a % PAGE_SIZE + n <= PAGE_SIZE
    ensures a <= b < a + n <==> a % PAGE_SIZE <= b % PAGE_SIZE < a % PAGE_SIZE + n
    ensures b - a == b % PAGE_SIZE - a % PAGE_SIZE
  {
  }

  /** The frames after bytes `a .. a + n` of the ranges were copied. */
  function Step(mem: Memory, table: Table, so: nat, source: nat, do: nat, destination: nat, a: nat, n: nat): Memory
    requires Steps(mem, table, so, source, do, destination, a, n)
  {
    Copied(mem, table[(so, (source + a) / PAGE_SIZE)], (source + a) % PAGE_SIZE,
           table[(do, (destination + a) / PAGE_SIZE)], (destination + a) % PAGE_SIZE, n)
  }

  ghost predicate Steps(mem: Memory, table: Table, so: nat, source: nat, do: nat, destination: nat, a: nat, n: nat) {
    && Paged(mem) && Private(table, mem) && IsMapped(table, so, source + a) && IsMapped(table, do, destination + a)
    && (source + a) % PAGE_SIZE + n <= PAGE_SIZE && (destination + a) % PAGE_SIZE + n <= PAGE_SIZE
  }

  /** The bytes copied so far are `lo .. hi`, those copied now adjoin them and were not overwritten yet. */
  lemma OneMoreChunk(mem0: Memory, mem: Memory, table: Table, so: nat, source: nat, do: nat, destination: nat, lo: nat,
                     hi: nat, a: nat, n: nat)
    requires Moved(mem0, mem, table, so, source, do, destination, lo, hi) && lo <= hi && (a == hi || a + n == lo)
    requires Steps(mem, table, so, source, do, destination, a, n)
    requires so != do || lo == hi || source + a + n <= destination + lo || destination + hi <= source + a
    ensures var lo', hi' := if a == hi then lo else a, if a == hi then a + n else hi;
            Moved(mem0, Step(mem, table, so, source, do, destination, a, n), table, so, source, do, destination,
                  lo', hi')
  {
    hide Byte;
    var mem' := Step(mem, table, so, source, do, destination, a, n);
    var lo', hi' := if a == hi then lo else a, if a == hi then a + n else hi;
    ByteCopied(mem, table, so, source + a, do, destination + a, n, 0, 0);
    forall owner: nat, va: nat ensures MovedAt(mem0, mem', table, so, source, do, destination, lo', hi', owner, va) {
      ByteCopied(mem, table, so, source + a, do, destination + a, n, owner, va);
      assert MovedAt(mem0, mem, table, so, source, do, destination, lo, hi, owner, va);
      if owner == do && destination + a <= va < destination + a + n {
        assert MovedAt(mem0, mem, table, so, source, do, destination, lo, hi, so,
                       source + a + (va - (destination + a)));
      }
    }
  }

  // ---- chunks, and copying upward into a range that overlaps ----

  /** Up to the next page boundary on either side. */
  function ChunkUp(src: nat, dst: nat, remaining: nat): (r: nat)
    ensures r <= remaining && (remaining > 0 ==> r > 0)
    ensures src % PAGE_SIZE + r <= PAGE_SIZE && dst % PAGE_SIZE + r <= PAGE_SIZE
  {
    Min(remaining, Min(PAGE_SIZE - src % PAGE_SIZE, PAGE_SIZE - dst % PAGE_SIZE))
  }

  /** Down to the page boundary below on either side, from the ends of two ranges. */
  function ChunkDown(srcEnd: nat, dstEnd: nat, remaining: nat): (r: nat)
    requires 0 < remaining <= srcEnd && remaining <= dstEnd
    ensures 0 < r <= remaining
    ensures (srcEnd - r) % PAGE_SIZE + r <= PAGE_SIZE && (dstEnd - r) % PAGE_SIZE + r <= PAGE_SIZE
  {
    var tails := Min((srcEnd - 1) % PAGE_SIZE + 1, (dstEnd - 1) % PAGE_SIZE + 1);
    PageTail(srcEnd, Min(remaining, tails));
    PageTail(dstEnd, Min(remaining, tails));
    Min(remaining, tails)
  }

  lemma PageTail(end: nat, r: nat)
    requires 0 < r <= end && r <= (end - 1) % PAGE_SIZE + 1
    ensures (end - r) % PAGE_SIZE + r <= PAGE_SIZE
  {
    assert (end - r) / PAGE_SIZE == (end - 1) / PAGE_SIZE;
  }

  /** The bytes from `source` on, when chunks from `a` on are copied upward within one address space. */
  function Upward(bytes: seq<byte>, source: nat, destination: nat, a: nat, size: nat): (r: seq<byte>)
    requires source <= destination && a <= size && |bytes| == destination - source + size
    ensures |r| == |bytes|
    decreases size - a
  {
    if a == size then bytes else
    var n := ChunkUp(source + a, destination + a, size - a);
    Upward(Put(bytes, destination - source + a, bytes[a..a + n]), source, destination, a + n, size)
  }

  /** All bytes of the source moved at once. */
  function AtOnce(bytes: seq<byte>, source: nat, destination: nat, size: nat): seq<byte>
    requires source <= destination && |bytes| == destination - source + size
  {
    Put(bytes, destination - source, bytes[..size])
  }

  /** What was copied before stays. */
  lemma {:induction false} UpwardKeeps(bytes: seq<byte>, source: nat, destination: nat, a: nat, size: nat, p: nat)
    requires source < destination && a <= size && |bytes| == destination - source + size && p < a
    ensures Upward(bytes, source, destination, a, size)[destination - source + p] == bytes[destination - source + p]
    decreases size - a
  {
    hide Put, ChunkUp;
    if a < size {
      var n := ChunkUp(source + a, destination + a, size - a);
      PutAt(bytes, destination - source + a, bytes[a..a + n], destination - source + p);
      UpwardKeeps(Put(bytes, destination - source + a, bytes[a..a + n]), source, destination, a + n, size, p);
    }
  }

  /** A byte in front of what is still to be written is read as it is now. */
  lemma {:induction false} UpwardReads(bytes: seq<byte>, source: nat, destination: nat, a: nat, size: nat, p: nat)
    requires source < destination && a <= p < size && |bytes| == destination - source + size
    requires p < a + (destination - source)
    ensures Upward(bytes, source, destination, a, size)[destination - source + p] == bytes[p]
    decreases size - a
  {
    hide Put, ChunkUp;
    var n, at := ChunkUp(source + a, destination + a, size - a), destination - source + a;
    var bytes' := Put(bytes, at, bytes[a..a + n]);
    if p < a + n {
      PutAt(bytes, at, bytes[a..a + n], destination - source + p);
      UpwardKeeps(bytes', source, destination, a + n, size, p);
    } else {
      PutAt(bytes, at, bytes[a..a + n], p);
      UpwardReads(bytes', source, destination, a + n, size, p);
    }
  }

  /** Copying upward into an overlapping range is a move for all contents exactly when one chunk is enough. */
  lemma UpwardIsMove(source: nat, destination: nat, size: nat)
    requires source < destination < source + size
    ensures (forall bytes :: |bytes| == destination - source + size ==>
               Upward(bytes, source, destination, 0, size) == AtOnce(bytes, source, destination, size))
            <==> ChunkUp(source, destination, size) == size
  {
    var n, d := ChunkUp(source, destination, size), destination - source;
    if n == size {
      forall bytes | |bytes| == d + size
        ensures Upward(bytes, source, destination, 0, size) == AtOnce(bytes, source, destination, size)
      {
        assert bytes[0..size] == bytes[..size];
      }
    } else {
      Clobbered(source, destination, size);
    }
  }

  /** One byte that differs from all others. */
  function Probe(length: nat, p: nat): (r: seq<byte>)
    ensures |r| == length && forall i :: 0 <= i < length ==> r[i] == if i == p then 1 else 0
  {
    seq<byte>(length, i => if i == p then 1 else 0)
  }

  lemma UpwardFirst(bytes: seq<byte>, source: nat, destination: nat, size: nat, p: nat)
    requires source < destination && |bytes| == destination - source + size && p < size
    requires var n := ChunkUp(source, destination, size);
             n <= p < n + (destination - source) && destination - source <= p < destination - source + n
    ensures Upward(bytes, source, destination, 0, size)[destination - source + p] == bytes[p - (destination - source)]
  {
    hide Put, ChunkUp;
    var n, d := ChunkUp(source, destination, size), destination - source;
    PutAt(bytes, d, bytes[0..n], p);
    UpwardReads(Put(bytes, d, bytes[0..n]), source, destination, n, size, p);
  }

  /** Otherwise the first chunk overwrites a byte that a later one reads. */
  lemma Clobbered(source: nat, destination: nat, size: nat)
    requires source < destination < source + size && ChunkUp(source, destination, size) < size
    ensures exists bytes :: |bytes| == destination - source + size &&
              Upward(bytes, source, destination, 0, size) != AtOnce(bytes, source, destination, size)
  {
    hide Put, ChunkUp, Upward, Probe;
    var n, d := ChunkUp(source, destination, size), destination - source;
    var p := if n < d then d else n;
    var bytes := Probe(d + size, p);
    UpwardFirst(bytes, source, destination, size, p);
    PutAt(bytes, d, bytes[..size], d + p);
  }

  // ---- the view of a range ----

  function View(mem: Memory, table: Table, owner: nat, from: nat, n: nat): (r: seq<byte>)
    requires Paged(mem) && Private(table, mem)
    ensures |r| == n
  {
    seq<byte>(n, i requires 0 <= i < n => Byte(mem, table, owner, from + i))
  }

  lemma ViewAt(mem: Memory, table: Table, owner: nat, from: nat, n: nat, i: nat)
    requires Paged(mem) && Private(table, mem) && i < n
    ensures View(mem, table, owner, from, n)[i] == Byte(mem, table, owner, from + i)
  {
  }

  lemma ViewStep(mem: Memory, table: Table, owner: nat, source: nat, destination: nat, a: nat, size: nat)
    requires source <= destination && a < size
    requires Steps(mem, table, owner, source, owner, destination, a, ChunkUp(source + a, destination + a, size - a))
    ensures var n := ChunkUp(source + a, destination + a, size - a);
            var mem' := Step(mem, table, owner, source, owner, destination, a, n);
            var total := destination - source + size;
            && Private(table, mem')
            && Upward(View(mem', table, owner, source, total), source, destination, a + n, size)
               == Upward(View(mem, table, owner, source, total), source, destination, a, size)
  {
    hide Byte, Copied, Put, Private, Paged, IsMapped, ChunkUp, View;
    var n := ChunkUp(source + a, destination + a, size - a);
    var mem' := Step(mem, table, owner, source, owner, destination, a, n);
    var total, at := destination - source + size, destination - source + a;
    var bytes := View(mem, table, owner, source, total);
    ByteCopied(mem, table, owner, source + a, owner, destination + a, n, 0, 0);
    forall i | 0 <= i < total ensures View(mem', table, owner, source, total)[i] == Put(bytes, at, bytes[a..a + n])[i] {
      ByteCopied(mem, table, owner, source + a, owner, destination + a, n, owner, source + i);
      PutAt(bytes, at, bytes[a..a + n], i);
      ViewAt(mem', table, owner, source, total, i);
      ViewAt(mem, table, owner, source, total, i);
      if at <= i < at + n {
        ViewAt(mem, table, owner, source, total, a + (i - at));
      }
    }
    assert View(mem', table, owner, source, total) == Put(bytes, at, bytes[a..a + n]);
  }

  // ---- the machine ----

  /** Physical memory, and the frames that really are mapped in Alpha's address space. A failed mapping
      may have taken place, and a failed unmapping as well. */
  class Machine {
    var memory: Memory
    var installed: map<nat, Frame>
    ghost var failures: nat

    method Map(frame: Frame, va: nat) returns (r: Status)
      modifies `installed, `failures
      ensures r.Ok? ==> installed == old(installed)[va := frame] && failures == old(failures)
      ensures r.Err? ==> failures > old(failures)
      ensures installed == old(installed) || installed == old(installed)[va := frame]
    {
      r := *;
      var happened: bool := *;
      if r.Ok? || happened {
        installed := installed[va := frame];
      }
      if r.Err? {
        failures := failures + 1;
      }
    }

    method Unmap(va: nat) returns (r: Status)
      modifies `installed, `failures
      ensures r.Ok? ==> installed == old(installed) - {va} && failures == old(failures)
      ensures r.Err? ==> failures > old(failures)
      ensures installed == old(installed) || installed == old(installed) - {va}
    {
      r := *;
      var happened: bool := *;
      if r.Ok? || happened {
        installed := installed - {va};
      }
      if r.Err? {
        failures := failures + 1;
      }
    }

    /** `n` bytes at an offset of a mapped page can be reached. */
    ghost predicate Reaches(page: nat, offset: nat, n: nat)
      reads this
    {
      page in installed && installed[page] in memory && offset + n <= PAGE_SIZE
    }

    /** Copies bytes that may overlap. */
    method Copy(source: nat, from: nat, destination: nat, to: nat, n: nat)
      requires Paged(memory) && Reaches(source, from, n) && Reaches(destination, to, n)
      modifies `memory
      ensures memory == Copied(old(memory), installed[source], from, installed[destination], to, n)
    {
      memory := Copied(memory, installed[source], from, installed[destination], to, n);
    }

    /** Copies bytes that must not overlap. */
    method CopyApart(source: nat, from: nat, destination: nat, to: nat, n: nat)
      requires Paged(memory) && Reaches(source, from, n) && Reaches(destination, to, n)
      requires installed[source] != installed[destination]
      modifies `memory
      ensures memory == Copied(old(memory), installed[source], from, installed[destination], to, n)
    {
      memory := Copied(memory, installed[source], from, installed[destination], to, n);
    }
  }

  // ---- the window ----

  datatype Mapping = Mapping(owner: nat, frame: Frame, ready: bool)

  function SlotVa(i: nat): nat {
    WINDOW_BASE + i * PAGE_SIZE
  }

  /** A ready entry names the frame that is mapped; a frame that is mapped has an entry that names it. */
  predicate SlotOk(m: Option<Mapping>, installed: map<nat, Frame>, i: nat) {
    && (m.Some? && m.value.ready ==> SlotVa(i) in installed)
    && (SlotVa(i) in installed ==> m.Some? && m.value.frame == installed[SlotVa(i)])
  }

  ghost predicate Tracked(slots: seq<Option<Mapping>>, installed: map<nat, Frame>) {
    forall i: nat {:trigger SlotOk(slots[i], installed, i)} :: i < |slots| ==> SlotOk(slots[i], installed, i)
  }

  predicate IsReady(m: Option<Mapping>) {
    m.Some? && m.value.ready
  }

  /** The slot to use next: the first that is not ready; when all are, the one at the hand. */
  ghost predicate IsVictim(slots: seq<Option<Mapping>>, next: nat, i: nat) {
    i < |slots| &&
    if IsReady(slots[i]) then i == next && forall j :: 0 <= j < |slots| ==> IsReady(slots[j])
    else forall j :: 0 <= j < i ==> IsReady(slots[j])
  }

  predicate Hit(m: Option<Mapping>, owner: nat, frame: Frame) {
    m == Some(Mapping(owner, frame, true))
  }

  /** A frame that is ready is found where it is. Otherwise it goes where the victim is, or behind it if that
      slot is pinned, and the hand moves on. */
  ghost predicate ChosenSlot(slots: seq<Option<Mapping>>, next: nat, slots': seq<Option<Mapping>>, next': nat,
                             owner: nat, frame: Frame, pinned: Option<nat>, va: nat) {
    if exists i :: 0 <= i < |slots| && Hit(slots[i], owner, frame) then slots' == slots && next' == next
    else
      exists i: nat {:trigger IsVictim(slots, next, i)} ::
        && IsVictim(slots, next, i)
        && var used := if pinned == Some(SlotVa(i)) then (i + 1) % WINDOW_PAGES else i;
           va == SlotVa(used) && next' == (used + 1) % WINDOW_PAGES
  }

  lemma HitChosen(slots: seq<Option<Mapping>>, next: nat, owner: nat, frame: Frame, pinned: Option<nat>, i: nat)
    requires i < |slots| && Hit(slots[i], owner, frame)
    ensures ChosenSlot(slots, next, slots, next, owner, frame, pinned, SlotVa(i))
  {
  }

  lemma MissChosen(slots: seq<Option<Mapping>>, next: nat, slots': seq<Option<Mapping>>, owner: nat, frame: Frame,
                   pinned: Option<nat>, i: nat)
    requires IsVictim(slots, next, i) && forall j :: 0 <= j < |slots| ==> !Hit(slots[j], owner, frame)
    ensures var used := if pinned == Some(SlotVa(i)) then (i + 1) % WINDOW_PAGES else i;
            ChosenSlot(slots, next, slots', (used + 1) % WINDOW_PAGES, owner, frame, pinned, SlotVa(used))
  {
    hide SlotVa;
  }

  lemma OtherSlots(slots: seq<Option<Mapping>>, slots': seq<Option<Mapping>>, installed: map<nat, Frame>,
                   installed': map<nat, Frame>, i: nat)
    requires Tracked(slots, installed) && |slots'| == |slots| && i < |slots| && SlotOk(slots'[i], installed', i)
    requires forall j: nat :: j < |slots| && j != i ==> slots'[j] == slots[j]
    requires forall va ::
              va != SlotVa(i) ==>
                (va in installed' <==> va in installed) && (va in installed ==> installed'[va] == installed[va])
    ensures Tracked(slots', installed')
  {
    forall j: nat | j < |slots'| ensures SlotOk(slots'[j], installed', j) {
      assert SlotOk(slots[j], installed, j);
    }
  }

  class CopyWindow {
    const machine: Machine
    const mappings: array<Option<Mapping>>
    var next: nat

    ghost predicate Valid()
      reads this, mappings, machine
    {
      mappings.Length == WINDOW_PAGES && next < WINDOW_PAGES && Tracked(mappings[..], machine.installed)
    }

    constructor (machine: Machine)
      requires forall i: nat :: i < WINDOW_PAGES ==> SlotVa(i) !in machine.installed
      ensures Valid() && this.machine == machine && fresh(mappings) && next == 0
      ensures forall i :: 0 <= i < WINDOW_PAGES ==> mappings[i] == None
    {
      this.machine := machine;
      mappings := new Option<Mapping>[WINDOW_PAGES](_ => None);
      next := 0;
    }

    method FindReady(owner: nat, frame: Frame) returns (r: Option<nat>)
      requires Valid()
      ensures r.Some? ==> r.value < WINDOW_PAGES && Hit(mappings[r.value], owner, frame)
      ensures r.None? ==> forall i :: 0 <= i < WINDOW_PAGES ==> !Hit(mappings[i], owner, frame)
    {
      for i := 0 to WINDOW_PAGES
        invariant forall j :: 0 <= j < i ==> !Hit(mappings[j], owner, frame)
      {
        if Hit(mappings[i], owner, frame) {
          return Some(i);
        }
      }
      return None;
    }

    /** The first slot whose entry is not ready; the next one in turn if there is none. */
    method Victim() returns (i: nat)
      requires Valid()
      ensures i < WINDOW_PAGES && IsVictim(mappings[..], next, i)
    {
      for k := 0 to WINDOW_PAGES
        invariant forall j :: 0 <= j < k ==> mappings[j].Some? && mappings[j].value.ready
      {
        if mappings[k].None? || !mappings[k].value.ready {
          return k;
        }
      }
      return next;
    }

    /** Empties a slot. When that fails the entry stays, but is not ready. */
    method UnmapSlot(i: nat) returns (r: Status)
      requires Valid() && i < WINDOW_PAGES
      modifies mappings, machine`installed, machine`failures
      ensures Valid() && FailedOnly(r.Ok?, old(machine.failures), machine.failures)
      ensures r.Ok? ==> mappings[i] == None && SlotVa(i) !in machine.installed
      ensures r.Err? ==> old(mappings[i]).Some? && mappings[i] == Some(old(mappings[i]).value.(ready := false))
      ensures forall j :: 0 <= j < WINDOW_PAGES && j != i ==> mappings[j] == old(mappings[j])
      ensures forall va :: va != SlotVa(i) ==>
                (va in machine.installed <==> va in old(machine.installed))
                && (va in machine.installed ==> machine.installed[va] == old(machine.installed)[va])
    {
      hide Tracked;
      ghost var slots0, installed0 := mappings[..], machine.installed;
      SlotOf(slots0, installed0, i);
      if mappings[i].None? {
        return Ok;
      }
      mappings[i] := Some(mappings[i].value.(ready := false));
      r := machine.Unmap(SlotVa(i));
      if r.Ok? {
        mappings[i] := None;
      }
      OtherSlots(slots0, mappings[..], installed0, machine.installed, i);
    }

    /** Maps a frame into the window, unless it is there. The slot that is pinned stays as it is. */
    method MapFrame(owner: nat, frame: Frame, pinned: Option<nat>) returns (r: Outcome<nat>)
      requires Valid()
      modifies `next, mappings, machine`installed, machine`failures
      ensures Valid() && FailedOnly(r.Value?, old(machine.failures), machine.failures)
      ensures r.Value? ==> exists i: nat {:trigger SlotVa(i)} ::
                i < WINDOW_PAGES && r.value == SlotVa(i) && Hit(mappings[i], owner, frame)
                && Maps(machine.installed, r.value, frame)
      ensures r.Value? ==> ChosenSlot(old(mappings[..]), old(next), mappings[..], next, owner, frame, pinned, r.value)
      ensures forall i: nat {:trigger SlotVa(i)} ::
                i < WINDOW_PAGES && pinned == Some(SlotVa(i)) && old(mappings[i].Some? && mappings[i].value.ready) ==>
                  && mappings[i] == old(mappings[i]) && SlotVa(i) in old(machine.installed)
                  && Maps(machine.installed, SlotVa(i), old(machine.installed)[SlotVa(i)])
    {
      hide Tracked, ChosenSlot, IsVictim;
      ghost var slots0, installed0 := mappings[..], machine.installed;
      PinnedMapped(slots0, installed0, pinned);
      var hit := FindReady(owner, frame);
      if hit.Some? {
        SlotOf(slots0, installed0, hit.value);
        HitChosen(slots0, next, owner, frame, pinned, hit.value);
        return Value(SlotVa(hit.value));
      }
      var victim := Victim();
      var i := if pinned == Some(SlotVa(victim)) then (victim + 1) % WINDOW_PAGES else victim;
      var done := Refill(i, owner, frame);
      if done.Err? {
        return Error(done.error);
      }
      MissChosen(slots0, next, mappings[..], owner, frame, pinned, victim);
      next := (i + 1) % WINDOW_PAGES;
      return Value(SlotVa(i));
    }

    /** Maps the frame at slot `i`. A mapping that may have happened has its entry, not ready. */
    method Refill(i: nat, owner: nat, frame: Frame) returns (r: Status)
      requires Valid() && i < WINDOW_PAGES
      modifies mappings, machine`installed, machine`failures
      ensures Valid() && FailedOnly(r.Ok?, old(machine.failures), machine.failures)
      ensures r.Ok? ==> Hit(mappings[i], owner, frame) && Maps(machine.installed, SlotVa(i), frame)
      ensures forall j :: 0 <= j < WINDOW_PAGES && j != i ==> mappings[j] == old(mappings[j])
      ensures forall va :: va != SlotVa(i) ==>
                (va in machine.installed <==> va in old(machine.installed))
                && (va in machine.installed ==> machine.installed[va] == old(machine.installed)[va])
    {
      hide Tracked;
      r := UnmapSlot(i);
      if r.Err? {
        return;
      }
      ghost var slots1, installed1 := mappings[..], machine.installed;
      mappings[i] := Some(Mapping(owner, frame, false));
      r := machine.Map(frame, SlotVa(i));
      OtherSlots(slots1, mappings[..], installed1, machine.installed, i);
      if r.Err? {
        return;
      }
      ghost var slots2 := mappings[..];
      mappings[i] := Some(Mapping(owner, frame, true));
      OtherSlots(slots2, mappings[..], machine.installed, machine.installed, i);
    }

    /** Empties every slot of an owner. Afterwards no frame of the owner is mapped in the window. */
    method Invalidate(owner: nat) returns (r: Status)
      requires Valid()
      modifies mappings, machine`installed, machine`failures
      ensures Valid() && FailedOnly(r.Ok?, old(machine.failures), machine.failures)
      ensures r.Ok? ==>
                forall i: nat {:trigger SlotVa(i)} ::
                  i < WINDOW_PAGES && old(mappings[i]).Some? && old(mappings[i]).value.owner == owner ==>
                    mappings[i].None? && SlotVa(i) !in machine.installed
      ensures forall i :: 0 <= i < WINDOW_PAGES && (old(mappings[i]).None? || old(mappings[i]).value.owner != owner) ==>
                mappings[i] == old(mappings[i])
    {
      hide Tracked;
      for k := 0 to WINDOW_PAGES
        invariant Valid() && machine.failures == old(machine.failures)
        invariant forall i ::
                  0 <= i < k ==> mappings[i] == (if Owned(old(mappings[i]), owner) then None else old(mappings[i]))
        invariant forall i :: k <= i < WINDOW_PAGES ==> mappings[i] == old(mappings[i])
        invariant forall i: nat {:trigger SlotVa(i)} ::
                  i < k && Owned(old(mappings[i]), owner) ==> SlotVa(i) !in machine.installed
      {
        if Owned(mappings[k], owner) {
          r := UnmapSlot(k);
          if r.Err? {
            return;
          }
        }
      }
      return Ok;
    }

    /** Copies a chunk that crosses no page boundary. */
    method CopyChunk(table: Table, so: nat, src: nat, do: nat, dst: nat, n: nat) returns (r: Status)
      requires Valid() && Paged(machine.memory) && Private(table, machine.memory)
      requires src % PAGE_SIZE + n <= PAGE_SIZE && dst % PAGE_SIZE + n <= PAGE_SIZE
      modifies `next, mappings, machine
      ensures Valid()
      ensures r.Ok? ==>
                && IsMapped(table, so, src) && IsMapped(table, do, dst)
                && machine.memory == Copied(old(machine.memory), table[(so, src / PAGE_SIZE)], src % PAGE_SIZE,
                                            table[(do, dst / PAGE_SIZE)], dst % PAGE_SIZE, n)
      ensures r.Err? ==> machine.memory == old(machine.memory)
      ensures FailedOnly(r.Ok? || !IsMapped(table, so, src) || !IsMapped(table, do, dst),
                         old(machine.failures), machine.failures)
    {
      hide Tracked, Copied, SlotOk;
      if !IsMapped(table, so, src) || !IsMapped(table, do, dst) {
        return Err(InvalidArgument);
      }
      var sf, df := table[(so, src / PAGE_SIZE)], table[(do, dst / PAGE_SIZE)];
      var s := MapFrame(so, sf, None);
      if s.Error? {
        return Err(s.error);
      }
      if sf == df {
        machine.Copy(s.value, src % PAGE_SIZE, s.value, dst % PAGE_SIZE, n);
      } else {
        var d := MapFrame(do, df, Some(s.value));
        if d.Error? {
          return Err(d.error);
        }
        machine.CopyApart(s.value, src % PAGE_SIZE, d.value, dst % PAGE_SIZE, n);
      }
      return Ok;
    }

    /** The next chunk, from the front or, when one process copies upward over itself, from the back. */
    method CopyNext(ghost mem0: Memory, table: Table, owners: map<nat, nat>, sourcePid: nat, source: nat,
                    destinationPid: nat, destination: nat, copied: nat, size: nat)
      returns (r: Status, n: nat)
      requires Valid() && Paged(machine.memory) && Private(table, machine.memory) && copied < size
      requires !(sourcePid == destinationPid && source == destination)
      requires OnlyIn(mem0, machine.memory, table, OwnerOf(owners, destinationPid), destination, size)
      requires Reached(mem0, machine.memory, table, owners, sourcePid, source, destinationPid, destination, copied,
                       size)
      requires MappedSoFar(table, owners, sourcePid, source, destinationPid, destination, copied, size)
      modifies `next, mappings, machine
      ensures Valid() && Paged(machine.memory) && Private(table, machine.memory)
      ensures OnlyIn(mem0, machine.memory, table, OwnerOf(owners, destinationPid), destination, size)
      ensures r.Ok? ==>
                && 0 < n <= size - copied && machine.failures == old(machine.failures)
                && MappedSoFar(table, owners, sourcePid, source, destinationPid, destination, copied + n, size)
                && Reached(mem0, machine.memory, table, owners, sourcePid, source, destinationPid, destination,
                           copied + n, size)
      ensures r.Err? ==>
                || machine.failures > old(machine.failures)
                || !AllMapped(table, owners, sourcePid, source, destinationPid, destination, size)
    {
      hide Tracked, Copied, Byte, View, Upward, Moved, OnlyIn, Reached, Private, Paged, MappedPart, AllMapped, Shared,
           ChunkUp,
           ChunkDown, IsMapped;
      ghost var mem := machine.memory;
      var so, do := OwnerOf(owners, sourcePid), OwnerOf(owners, destinationPid);
      var a := copied;
      if sourcePid == destinationPid && source < destination < source + size {
        n := ChunkDown(source + (size - copied), destination + (size - copied), size - copied);
        a := size - copied - n;
      } else {
        n := ChunkUp(source + copied, destination + copied, size - copied);
      }
      r := CopyChunk(table, so, source + a, do, destination + a, n);
      if r.Err? {
        if !IsMapped(table, so, source + a) || !IsMapped(table, do, destination + a) {
          PartMissing(table, owners, sourcePid, source, destinationPid, destination, size, a);
        }
        return;
      }
      ChunkMapped(table, so, source, do, destination, a, n);
      if a == copied {
        PartGrows(table, so, source, do, destination, 0, a, a + n);
      }
      PartGrows(table, so, source, do, destination, a, a + n, size);
      Reaches(mem0, mem, machine.memory, table, owners, sourcePid, source, destinationPid, destination, copied, size,
              n);
    }

    /** Copies memory between processes. It is a move of the whole range at once unless two processes that
        share an address space copy upward into an overlapping range; then it is what copying chunk after
        chunk gives. A failure changes nothing but the destination. */
    method CopyProcessMemory(table: Table, owners: map<nat, nat>, sourcePid: nat, source: nat, destinationPid: nat,
                             destination: nat, size: nat)
      returns (r: Status)
      requires Valid() && Paged(machine.memory) && Private(table, machine.memory)
      requires source < WORD && destination < WORD && size < WORD
      modifies `next, mappings, machine
      ensures Valid() && Paged(machine.memory) && Private(table, machine.memory)
      ensures r.Err? ==>
                || source + size >= WORD || destination + size >= WORD || machine.failures > old(machine.failures)
                || !AllMapped(table, owners, sourcePid, source, destinationPid, destination, size)
      ensures r.Ok? ==>
                && machine.failures == old(machine.failures)
                && ((sourcePid == destinationPid && source == destination)
                    || (source + size < WORD && destination + size < WORD
                        && AllMapped(table, owners, sourcePid, source, destinationPid, destination, size)))
      ensures OnlyIn(old(machine.memory), machine.memory, table, OwnerOf(owners, destinationPid), destination, size)
      ensures r.Ok? ==>
                CopyResult(old(machine.memory), machine.memory, table, owners, sourcePid, source, destinationPid,
                           destination, size)
    {
      hide Tracked, Copied, Byte, View, Upward, Moved, OnlyIn, Reached, Private, Paged, ChunkUp, ChunkDown,
           MappedSoFar, AllMapped, CopyResult, Shared;
      ghost var mem0 := machine.memory;
      Begun(mem0, table, owners, sourcePid, source, destinationPid, destination, size);
      if sourcePid == destinationPid && source == destination {
        InPlace(mem0, table, owners, sourcePid, source, size);
        return Ok;
      }
      if source + size >= WORD || destination + size >= WORD {
        return Err(InvalidArgument);
      }
      var copied := 0;
      while copied < size
        invariant copied <= size && Valid() && Paged(machine.memory) && Private(table, machine.memory)
        invariant machine.failures == old(machine.failures)
        invariant MappedSoFar(table, owners, sourcePid, source, destinationPid, destination, copied, size)
        invariant OnlyIn(mem0, machine.memory, table, OwnerOf(owners, destinationPid), destination, size)
        invariant Reached(mem0, machine.memory, table, owners, sourcePid, source, destinationPid, destination,
                          copied, size)
      {
        var n;
        r, n := CopyNext(mem0, table, owners, sourcePid, source, destinationPid, destination, copied, size);
        if r.Err? {
          return;
        }
        copied := copied + n;
      }
      MappedAtLast(table, owners, sourcePid, source, destinationPid, destination, size);
      Finished(mem0, machine.memory, table, owners, sourcePid, source, destinationPid, destination, size);
      return Ok;
    }
  }

  /** The process whose address space a process uses. */
  function OwnerOf(owners: map<nat, nat>, pid: nat): nat {
    if pid in owners then owners[pid] else pid
  }

  /** Two processes share an address space and the copy goes upward into an overlapping range. */
  predicate Shared(owners: map<nat, nat>, sourcePid: nat, source: nat, destinationPid: nat, destination: nat,
                   size: nat) {
    sourcePid != destinationPid && OwnerOf(owners, sourcePid) == OwnerOf(owners, destinationPid)
    && source < destination < source + size
  }

  /** Nothing but the destination changed. */
  ghost predicate OnlyIn(mem0: Memory, mem: Memory, table: Table, do: nat, destination: nat, size: nat) {
    && Paged(mem0) && Private(table, mem0) && Paged(mem) && Private(table, mem) && mem.Keys == mem0.Keys
    && (forall f :: f in mem && f !in table.Values ==> mem[f] == mem0[f])
    && forall owner: nat, va: nat :: !(owner == do && destination <= va < destination + size) ==>
         Byte(mem, table, owner, va) == Byte(mem0, table, owner, va)
  }

  lemma StaysIn(mem0: Memory, mem: Memory, table: Table, so: nat, source: nat, do: nat, destination: nat, a: nat,
                n: nat, size: nat)
    requires OnlyIn(mem0, mem, table, do, destination, size) && a + n <= size
    requires Steps(mem, table, so, source, do, destination, a, n)
    ensures OnlyIn(mem0, Step(mem, table, so, source, do, destination, a, n), table, do, destination, size)
  {
    hide Byte;
    var mem' := Step(mem, table, so, source, do, destination, a, n);
    ByteCopied(mem, table, so, source + a, do, destination + a, n, 0, 0);
    forall owner: nat, va: nat | !(owner == do && destination <= va < destination + size)
      ensures Byte(mem', table, owner, va) == Byte(mem0, table, owner, va)
    {
      ByteCopied(mem, table, so, source + a, do, destination + a, n, owner, va);
    }
  }

  /** What a successful copy has done: a move of the whole range at once, unless two processes that share an
      address space copy upward into an overlapping range. Then it is what chunk after chunk gives: a move
      exactly when that gives the same bytes, and always when there is one chunk only. */
  ghost predicate CopyResult(mem0: Memory, mem: Memory, table: Table, owners: map<nat, nat>, sourcePid: nat,
                             source: nat,
                             destinationPid: nat, destination: nat, size: nat)
    requires Paged(mem0) && Private(table, mem0) && Paged(mem) && Private(table, mem)
  {
    var so, do := OwnerOf(owners, sourcePid), OwnerOf(owners, destinationPid);
    var moved := Moved(mem0, mem, table, so, source, do, destination, 0, size);
    if !Shared(owners, sourcePid, source, destinationPid, destination, size) then moved
    else
      var total := destination - source + size;
      var bytes, bytes' := View(mem0, table, so, source, total), View(mem, table, so, source, total);
      && bytes' == Upward(bytes, source, destination, 0, size)
      && (moved <==> bytes' == AtOnce(bytes, source, destination, size))
      && (ChunkUp(source, destination, size) == size ==> moved)
  }

  lemma InPlace(mem: Memory, table: Table, owners: map<nat, nat>, pid: nat, source: nat, size: nat)
    requires Paged(mem) && Private(table, mem)
    ensures CopyResult(mem, mem, table, owners, pid, source, pid, source, size)
  {
  }

  /** What holds after `copied` bytes. */
  ghost predicate Reached(mem0: Memory, mem: Memory, table: Table, owners: map<nat, nat>, sourcePid: nat, source: nat,
                          destinationPid: nat, destination: nat, copied: nat, size: nat)
    requires Paged(mem0) && Private(table, mem0) && Paged(mem) && Private(table, mem) && copied <= size
  {
    var so, do := OwnerOf(owners, sourcePid), OwnerOf(owners, destinationPid);
    if Shared(owners, sourcePid, source, destinationPid, destination, size) then
      var total := destination - source + size;
      Upward(View(mem, table, so, source, total), source, destination, copied, size)
      == Upward(View(mem0, table, so, source, total), source, destination, 0, size)
    else if sourcePid == destinationPid && source < destination < source + size then
      Moved(mem0, mem, table, so, source, do, destination, size - copied, size)
    else
      Moved(mem0, mem, table, so, source, do, destination, 0, copied)
  }

  lemma Begun(mem: Memory, table: Table, owners: map<nat, nat>, sourcePid: nat, source: nat, destinationPid: nat,
              destination: nat, size: nat)
    requires Paged(mem) && Private(table, mem)
    ensures OnlyIn(mem, mem, table, OwnerOf(owners, destinationPid), destination, size)
    ensures Reached(mem, mem, table, owners, sourcePid, source, destinationPid, destination, 0, size)
    ensures MappedSoFar(table, owners, sourcePid, source, destinationPid, destination, 0, size)
  {
    hide Byte, View, Upward;
  }

  lemma Finished(mem0: Memory, mem: Memory, table: Table, owners: map<nat, nat>, sourcePid: nat, source: nat,
                 destinationPid: nat, destination: nat, size: nat)
    requires Paged(mem0) && Private(table, mem0) && Paged(mem) && Private(table, mem)
    requires Reached(mem0, mem, table, owners, sourcePid, source, destinationPid, destination, size, size)
    requires OnlyIn(mem0, mem, table, OwnerOf(owners, destinationPid), destination, size)
    ensures CopyResult(mem0, mem, table, owners, sourcePid, source, destinationPid, destination, size)
  {
    hide Byte, View, Moved, Paged, Private, ChunkUp;
    if Shared(owners, sourcePid, source, destinationPid, destination, size) {
      var so := OwnerOf(owners, sourcePid);
      MovedAtOnce(mem0, mem, table, so, source, destination, size);
      OneChunkMoves(View(mem0, table, so, source, destination - source + size), source, destination, size);
    }
  }

  lemma OneChunkMoves(bytes: seq<byte>, source: nat, destination: nat, size: nat)
    requires source < destination < source + size && |bytes| == destination - source + size
    ensures ChunkUp(source, destination, size) == size ==>
              Upward(bytes, source, destination, 0, size) == AtOnce(bytes, source, destination, size)
  {
    if ChunkUp(source, destination, size) == size {
      assert bytes[0..size] == bytes[..size];
    }
  }

  /** Within one address space, a copy that changed nothing but its destination is a move exactly when the
      bytes from the source on are those of moving all at once. */
  lemma MovedAtOnce(mem0: Memory, mem: Memory, table: Table, owner: nat, source: nat, destination: nat, size: nat)
    requires OnlyIn(mem0, mem, table, owner, destination, size) && source < destination < source + size
    ensures var total := destination - source + size;
            Moved(mem0, mem, table, owner, source, owner, destination, 0, size) <==>
            View(mem, table, owner, source, total)
            == AtOnce(View(mem0, table, owner, source, total), source, destination, size)
  {
    hide Byte, Put, Private, Paged, View;
    var total, d := destination - source + size, destination - source;
    var before, after := View(mem0, table, owner, source, total), View(mem, table, owner, source, total);
    var moved := AtOnce(before, source, destination, size);
    forall i: nat | i < total
      ensures after[i] == Byte(mem, table, owner, source + i)
      ensures moved[i] == Byte(mem0, table, owner, if i < d then source + i else source + (i - d))
    {
      ViewAt(mem, table, owner, source, total, i);
      ViewAt(mem0, table, owner, source, total, if i < d then i else i - d);
      PutAt(before, d, before[..size], i);
    }
    if after == moved {
      forall o: nat, va: nat ensures MovedAt(mem0, mem, table, owner, source, owner, destination, 0, size, o, va) {
        if o == owner && destination <= va < destination + size {
          assert after[va - source] == moved[va - source];
        }
      }
    } else if Moved(mem0, mem, table, owner, source, owner, destination, 0, size) {
      forall i: nat | i < total ensures after[i] == moved[i] {
        assert MovedAt(mem0, mem, table, owner, source, owner, destination, 0, size, owner, source + i);
      }
    }
  }

  /** One more chunk, upward or downward. */
  lemma Reaches(mem0: Memory, mem: Memory, mem': Memory, table: Table, owners: map<nat, nat>, sourcePid: nat,
                source: nat, destinationPid: nat, destination: nat, copied: nat, size: nat, n: nat)
    requires copied < size && !(sourcePid == destinationPid && source == destination)
    requires OnlyIn(mem0, mem, table, OwnerOf(owners, destinationPid), destination, size)
    requires Reached(mem0, mem, table, owners, sourcePid, source, destinationPid, destination, copied, size)
    requires var backward := sourcePid == destinationPid && source < destination < source + size;
             && n == (if backward then ChunkDown(source + (size - copied), destination + (size - copied), size - copied)
                      else ChunkUp(source + copied, destination + copied, size - copied))
             && var a := if backward then size - copied - n else copied;
                && Steps(mem, table, OwnerOf(owners, sourcePid), source, OwnerOf(owners, destinationPid), destination,
                         a, n)
                && mem' == Step(mem, table, OwnerOf(owners, sourcePid), source, OwnerOf(owners, destinationPid),
                                destination, a, n)
    ensures Paged(mem') && Private(table, mem')
    ensures OnlyIn(mem0, mem', table, OwnerOf(owners, destinationPid), destination, size)
    ensures Reached(mem0, mem', table, owners, sourcePid, source, destinationPid, destination, copied + n, size)
  {
    hide Byte, View, Upward, Moved, Copied, ChunkUp, ChunkDown, Private, Paged, Steps, IsMapped;
    var so, do := OwnerOf(owners, sourcePid), OwnerOf(owners, destinationPid);
    var backward := sourcePid == destinationPid && source < destination < source + size;
    var a := if backward then size - copied - n else copied;
    StaysIn(mem0, mem, table, so, source, do, destination, a, n, size);
    if backward {
      OneMoreChunk(mem0, mem, table, so, source, do, destination, size - copied, size, a, n);
    } else if Shared(owners, sourcePid, source, destinationPid, destination, size) {
      ViewStep(mem, table, so, source, destination, a, size);
    } else {
      OneMoreChunk(mem0, mem, table, so, source, do, destination, 0, copied, a, n);
    }
  }

  predicate Maps(installed: map<nat, Frame>, va: nat, frame: Frame) {
    va in installed && installed[va] == frame
  }

  /** A call that should succeed fails only with an effect that failed. */
  predicate FailedOnly(ok: bool, before: nat, after: nat) {
    if ok then after == before else after > before
  }

  /** Both ranges are mapped throughout. */
  ghost predicate AllMapped(table: Table, owners: map<nat, nat>, sourcePid: nat, source: nat, destinationPid: nat,
                            destination: nat, size: nat) {
    var so, do := OwnerOf(owners, sourcePid), OwnerOf(owners, destinationPid);
    forall k {:trigger BothMapped(table, so, source, do, destination, k)} ::
      0 <= k < size ==> BothMapped(table, so, source, do, destination, k)
  }

  ghost predicate MappedPart(table: Table, so: nat, source: nat, do: nat, destination: nat, lo: nat, hi: nat) {
    forall k {:trigger BothMapped(table, so, source, do, destination, k)} ::
      lo <= k < hi ==> BothMapped(table, so, source, do, destination, k)
  }

  lemma PartGrows(table: Table, so: nat, source: nat, do: nat, destination: nat, lo: nat, mid: nat, hi: nat)
    ensures MappedPart(table, so, source, do, destination, lo, mid)
            && MappedPart(table, so, source, do, destination, mid, hi) ==>
              MappedPart(table, so, source, do, destination, lo, hi)
  {
  }

  /** The chunks copied so far are mapped. */
  ghost predicate MappedSoFar(table: Table, owners: map<nat, nat>, sourcePid: nat, source: nat, destinationPid: nat,
                              destination: nat, copied: nat, size: nat)
    requires copied <= size
  {
    var so, do := OwnerOf(owners, sourcePid), OwnerOf(owners, destinationPid);
    if sourcePid == destinationPid && source < destination < source + size then
      MappedPart(table, so, source, do, destination, size - copied, size)
    else MappedPart(table, so, source, do, destination, 0, copied)
  }

  lemma MappedAtLast(table: Table, owners: map<nat, nat>, sourcePid: nat, source: nat, destinationPid: nat,
                     destination: nat, size: nat)
    requires MappedSoFar(table, owners, sourcePid, source, destinationPid, destination, size, size)
    ensures AllMapped(table, owners, sourcePid, source, destinationPid, destination, size)
  {
  }

  lemma PartMissing(table: Table, owners: map<nat, nat>, sourcePid: nat, source: nat, destinationPid: nat,
                    destination: nat, size: nat, a: nat)
    requires a < size
    requires || !IsMapped(table, OwnerOf(owners, sourcePid), source + a)
             || !IsMapped(table, OwnerOf(owners, destinationPid), destination + a)
    ensures !AllMapped(table, owners, sourcePid, source, destinationPid, destination, size)
  {
    assert !BothMapped(table, OwnerOf(owners, sourcePid), source, OwnerOf(owners, destinationPid), destination, a);
  }

  /** A chunk stays within one page on either side. */
  lemma ChunkMapped(table: Table, so: nat, source: nat, do: nat, destination: nat, a: nat, n: nat)
    requires (source + a) % PAGE_SIZE + n <= PAGE_SIZE && (destination + a) % PAGE_SIZE + n <= PAGE_SIZE
    requires IsMapped(table, so, source + a) && IsMapped(table, do, destination + a)
    ensures MappedPart(table, so, source, do, destination, a, a + n)
  {
    forall k: nat | a <= k < a + n ensures BothMapped(table, so, source, do, destination, k) {
      assert (source + k) / PAGE_SIZE == (source + a) / PAGE_SIZE;
      assert (destination + k) / PAGE_SIZE == (destination + a) / PAGE_SIZE;
    }
  }

  predicate BothMapped(table: Table, so: nat, source: nat, do: nat, destination: nat, k: nat) {
    IsMapped(table, so, source + k) && IsMapped(table, do, destination + k)
  }

  predicate Owned(m: Option<Mapping>, owner: nat) {
    m.Some? && m.value.owner == owner
  }

  lemma SlotOf(slots: seq<Option<Mapping>>, installed: map<nat, Frame>, i: nat)
    requires Tracked(slots, installed) && i < |slots|
    ensures SlotOk(slots[i], installed, i)
  {
  }

  lemma PinnedMapped(slots: seq<Option<Mapping>>, installed: map<nat, Frame>, pinned: Option<nat>)
    requires Tracked(slots, installed)
    ensures forall i: nat {:trigger SlotVa(i)} ::
              i < |slots| && pinned == Some(SlotVa(i)) && slots[i].Some? && slots[i].value.ready ==>
                SlotVa(i) in installed
  {
    forall i: nat | i < |slots| && pinned == Some(SlotVa(i)) && slots[i].Some? && slots[i].value.ready
      ensures SlotVa(i) in installed
    {
      assert SlotOk(slots[i], installed, i);
    }
  }

  // ---- a copy that is no move ----

  /** Two pages of which one byte, the last of the first page, is not zero. */
  function TwoPages(): (r: Memory)
    ensures Paged(r) && r.Keys == {0, 1}
  {
    map[0 := Probe(PAGE_SIZE, PAGE_SIZE - 1), 1 := Probe(PAGE_SIZE, PAGE_SIZE)]
  }

  lemma TwoPagesView(table: Table)
    requires table == map[(1, 0) := 0, (1, 1) := 1]
    ensures Private(table, TwoPages())
    ensures View(TwoPages(), table, 1, 0, PAGE_SIZE + 1) == Probe(PAGE_SIZE + 1, PAGE_SIZE - 1)
  {
    hide Probe;
    var view := View(TwoPages(), table, 1, 0, PAGE_SIZE + 1);
    forall i: nat | i <= PAGE_SIZE ensures view[i] == Probe(PAGE_SIZE + 1, PAGE_SIZE - 1)[i] {
      if i < PAGE_SIZE {
        assert i / PAGE_SIZE == 0 && i % PAGE_SIZE == i;
      }
    }
  }

  /** A page copied one byte upward by two processes that share the address space: unless an effect fails,
      the call succeeds, and the last byte is lost. */
  method CopyLosesByte() returns (machine: Machine, r: Status)
    ensures fresh(machine) && (r.Err? ==> machine.failures > 0)
    ensures r.Ok? ==> !Moved(TwoPages(), machine.memory, map[(1, 0) := 0, (1, 1) := 1], 1, 0, 1, 1, 0, PAGE_SIZE)
  {
    hide Tracked, Probe, Upward, AtOnce, View, Moved, OnlyIn, ChunkUp;
    machine := new Machine;
    machine.memory, machine.installed, machine.failures := TwoPages(), map[], 0;
    var table: Table, owners := map[(1, 0) := 0, (1, 1) := 1], map[1 := 1, 2 := 1];
    TwoPagesView(table);
    Loses();
    var window := new CopyWindow(machine);
    r := window.CopyProcessMemory(table, owners, 1, 0, 2, 1, PAGE_SIZE);
    assert AllMapped(table, owners, 1, 0, 2, 1, PAGE_SIZE);
  }

  lemma Loses()
    ensures var bytes := Probe(PAGE_SIZE + 1, PAGE_SIZE - 1);
            Upward(bytes, 0, 1, 0, PAGE_SIZE) != AtOnce(bytes, 0, 1, PAGE_SIZE)
  {
    hide Upward, Put;
    var bytes := Probe(PAGE_SIZE + 1, PAGE_SIZE - 1);
    UpwardFirst(bytes, 0, 1, PAGE_SIZE, PAGE_SIZE - 1);
    PutAt(bytes, 1, bytes[..PAGE_SIZE], PAGE_SIZE);
  }
}
