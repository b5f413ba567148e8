/** Alpha's physical page allocator: two buddy pools and the records of what is in use. */
module PhysicalMemory {
  import opened Dyadic
  import opened FreeLists
  import opened BuddyPools
  import opened AllocationRecords
  import opened AlignedWindows
  import opened Options

  datatype Allocation = Allocation(base: nat, count: nat, device: bool)
  datatype Result<+T> = Ok(value: T) | Err(error: AllocError)
  datatype MemoryInfo = MemoryInfo(totalPages: nat, freePages: nat)

  /** Rounds up; the addition wraps in a release build. */
  function BytesToPages(size: nat): nat {
    ((size + PAGE_SIZE - 1) % WORD_LIMIT) / PAGE_SIZE
  }

  /** The fewest whole pages that hold the bytes; none at all when the addition wraps. */
  lemma PagesHoldBytes(size: nat)
    requires size < WORD_LIMIT
    ensures if size + PAGE_SIZE - 1 < WORD_LIMIT then size <= BytesToPages(size) * PAGE_SIZE < size + PAGE_SIZE
            else BytesToPages(size) == 0
  {
  }

  lemma PagesRoundTrip(pages: nat)
    requires pages < PAGE_LIMIT
    ensures pages * PAGE_SIZE < WORD_LIMIT && BytesToPages(pages * PAGE_SIZE) == pages
  {
  }

  lemma InPool(l: Lists, base: nat, count: nat)
    requires Canonical(l) && count != 0 && Range(base, count) <= Pages(l)
    ensures base + count < PAGE_LIMIT
  {
    var p := base + count - 1;
    assert p in Range(base, count);
    assert Covered(l, p);
  }

  class PhysicalAllocator {
    const normal: BuddyPool
    const device: BuddyPool
    var allocations: seq<Record>

    /** Both pools are canonical, and no page is free twice, recorded twice, or both. */
    ghost predicate Valid()
      reads this, normal, device
    {
      && normal != device && normal.Valid() && device.Valid()
      && RecordsApart(allocations) && RecordsInBounds(allocations)
      && Unrecorded(allocations, normal.Free()) && Unrecorded(allocations, device.Free())
      && Separate(normal.Free(), device.Free())
    }

    /** Pages handed out and not yet freed. */
    ghost function InUse(isDevice: bool): iset<nat>
      reads this
    {
      Recorded(allocations, isDevice, false)
    }

    /** Pages set aside at boot. */
    ghost function Reserved(isDevice: bool): iset<nat>
      reads this
    {
      Recorded(allocations, isDevice, true)
    }

    /** All pages of ordinary memory. */
    ghost function Total(): nat
      reads this, normal
    {
      PageCount(normal.freeLists) + PagesIn(allocations)
    }

    twostate predicate Untouched()
      reads this, normal, device
    {
      && allocations == old(allocations)
      && normal.freeLists == old(normal.freeLists) && device.freeLists == old(device.freeLists)
    }

    /** The allocated pages left their pool and are in use; nothing else moved. */
    twostate predicate Moved(a: Allocation)
      reads this, normal, device
    {
      var pages := Range(a.base, a.count);
      && Reserved(false) == old(Reserved(false)) && Reserved(true) == old(Reserved(true))
      && Total() == old(Total())
      && if a.device then
           && device.Free() == old(device.Free()) - pages && InUse(true) == old(InUse(true)) + pages
           && normal.freeLists == old(normal.freeLists) && InUse(false) == old(InUse(false))
         else
           && normal.Free() == old(normal.Free()) - pages && InUse(false) == old(InUse(false)) + pages
           && PageCount(normal.freeLists) + a.count == old(PageCount(normal.freeLists))
           && device.freeLists == old(device.freeLists) && InUse(true) == old(InUse(true))
    }

    /** The freed pages joined their pool and are no longer in use; nothing else moved. */
    twostate predicate Returned(isDevice: bool, base: nat, count: nat)
      reads this, normal, device
    {
      var pages := Range(base, count);
      && Reserved(false) == old(Reserved(false)) && Reserved(true) == old(Reserved(true))
      && Total() == old(Total())
      && if isDevice then
           && device.Free() == old(device.Free()) + pages && InUse(true) == old(InUse(true)) - pages
           && normal.freeLists == old(normal.freeLists) && InUse(false) == old(InUse(false))
         else
           && normal.Free() == old(normal.Free()) + pages && InUse(false) == old(InUse(false)) - pages
           && PageCount(normal.freeLists) == old(PageCount(normal.freeLists)) + count
           && device.freeLists == old(device.freeLists) && InUse(true) == old(InUse(true))
    }

    constructor ()
      ensures Valid() && allocations == [] && fresh(normal) && fresh(device)
      ensures normal.Free() == iset{} && device.Free() == iset{}
    {
      normal := new BuddyPool();
      device := new BuddyPool();
      allocations := [];
    }

    method RecordAllocation(base: nat, count: nat, isDevice: bool, reserved: bool)
      requires RecordsApart(allocations) && RecordsInBounds(allocations)
      requires 0 < count && base + count < PAGE_LIMIT
      requires Unrecorded(allocations, Range(base, count))
      modifies this
      ensures RecordsApart(allocations) && RecordsInBounds(allocations)
      ensures allocations == old(allocations) + [Record(base, count, isDevice, reserved)]
      ensures forall d, s :: Recorded(allocations, d, s) ==
                if d == isDevice && s == reserved then old(Recorded(allocations, d, s)) + Range(base, count)
                else old(Recorded(allocations, d, s))
      ensures AllRecorded(allocations) == old(AllRecorded(allocations)) + Range(base, count)
      ensures PagesIn(allocations) == old(PagesIn(allocations)) + if isDevice then 0 else count
    {
      var r := Record(base, count, isDevice, reserved);
      AppendRecord(allocations, r);
      PagesInAppend(allocations, r);
      allocations := allocations + [r];
    }

    /** A boot region, disjoint from every earlier one and below the end of the address space:
        set aside when used, free otherwise. */
    method AddRegion(baseAddress: nat, size: nat, isDevice: bool, used: bool) returns (r: Outcome)
      requires Valid() && baseAddress < WORD_LIMIT && size < WORD_LIMIT
      requires baseAddress / PAGE_SIZE + BytesToPages(size) < PAGE_LIMIT
      requires var region := Range(baseAddress / PAGE_SIZE, BytesToPages(size));
               Unrecorded(allocations, region) && Separate(region, normal.Free()) && Separate(region, device.Free())
      modifies this, normal, device
      ensures Valid()
      ensures r == Done || r == Failed(InvalidArgument)
      ensures r == Done <==> baseAddress % PAGE_SIZE == 0 && size != 0 && BytesToPages(size) != 0
      ensures r != Done ==> Untouched()
      ensures InUse(false) == old(InUse(false)) && InUse(true) == old(InUse(true))
      ensures r == Done ==>
                var region := Range(baseAddress / PAGE_SIZE, BytesToPages(size));
                if used then
                  && normal.freeLists == old(normal.freeLists) && device.freeLists == old(device.freeLists)
                  && Reserved(isDevice) == old(Reserved(isDevice)) + region
                  && Reserved(!isDevice) == old(Reserved(!isDevice))
                else
                  && allocations == old(allocations)
                  && normal.Free() == (if isDevice then old(normal.Free()) else old(normal.Free()) + region)
                  && device.Free() == (if isDevice then old(device.Free()) + region else old(device.Free()))
    {
      if baseAddress % PAGE_SIZE != 0 || size == 0 {
        return Failed(InvalidArgument);
      }
      var pages := BytesToPages(size);
      if pages == 0 {
        return Failed(InvalidArgument);
      }
      var base := baseAddress / PAGE_SIZE;
      if used {
        RecordAllocation(base, pages, isDevice, true);
        return Done;
      }
      r := Release(isDevice, base, pages);
    }

    /** Returns pages that nothing holds to one pool. */
    method Release(isDevice: bool, base: nat, pages: nat) returns (r: Outcome)
      requires Valid() && base + pages < PAGE_LIMIT
      requires Unrecorded(allocations, Range(base, pages))
      requires Separate(Range(base, pages), normal.Free()) && Separate(Range(base, pages), device.Free())
      modifies normal, device
      ensures Valid() && r == Done
      ensures if isDevice then
                normal.freeLists == old(normal.freeLists) && device.Free() == old(device.Free()) + Range(base, pages)
              else
                && device.freeLists == old(device.freeLists) && normal.Free() == old(normal.Free()) + Range(base, pages)
                && PageCount(normal.freeLists) == old(PageCount(normal.freeLists)) + pages
    {
      var pool := if isDevice then device else normal;
      r := pool.AddRange(base, pages);
    }

    /** Moves a wholly free range of one pool into a new record. */
    method Take(isDevice: bool, base: nat, pages: nat) returns (ok: bool)
      requires Valid() && base < WORD_LIMIT && pages < WORD_LIMIT
      modifies this, normal, device
      ensures Valid()
      ensures ok <==> pages != 0 && Range(base, pages) <= (if isDevice then old(device.Free()) else old(normal.Free()))
      ensures if ok then Moved(Allocation(base, pages, isDevice)) else Untouched()
      ensures ok ==> allocations == old(allocations) + [Record(base, pages, isDevice, false)]
    {
      var pool := if isDevice then device else normal;
      var taken := pool.AllocateRange(base, pages);
      ok := taken == Done;
      if ok {
        InPool(old(pool.freeLists), base, pages);
        RecordAllocation(base, pages, isDevice, false);
      }
    }

    /** Takes exactly the requested pages, from ordinary memory first. */
    method AllocateAt(baseAddress: nat, size: nat, allowDevice: bool) returns (r: Result<Allocation>)
      requires Valid() && baseAddress < WORD_LIMIT && size < WORD_LIMIT
      modifies this, normal, device
      ensures Valid()
      ensures var base, pages := baseAddress / PAGE_SIZE, BytesToPages(size);
              var inNormal := pages != 0 && Range(base, pages) <= old(normal.Free());
              var inDevice := pages != 0 && Range(base, pages) <= old(device.Free());
              r == if baseAddress % PAGE_SIZE != 0 || size == 0 then Err(InvalidArgument)
                   else if inNormal then Ok(Allocation(base, pages, false))
                   else if inDevice && !allowDevice then Err(PermissionDenied)
                   else if inDevice then Ok(Allocation(base, pages, true))
                   else Err(OutOfMemory)
      ensures if r.Ok? then Moved(r.value) else Untouched()
      ensures r.Ok? ==> allocations == old(allocations) + [Record(r.value.base, r.value.count, r.value.device, false)]
    {
      if baseAddress % PAGE_SIZE != 0 || size == 0 {
        return Err(InvalidArgument);
      }
      var base := baseAddress / PAGE_SIZE;
      var pages := BytesToPages(size);
      var taken := Take(false, base, pages);
      if taken {
        return Ok(Allocation(base, pages, false));
      }
      var inDevice := device.ContainsRange(base, pages);
      if inDevice && !allowDevice {
        return Err(PermissionDenied);
      }
      if allowDevice {
        taken := Take(true, base, pages);
        if taken {
          return Ok(Allocation(base, pages, true));
        }
      }
      return Err(OutOfMemory);
    }

    /** Takes pages from any free block that is large enough; runs out only when no aligned
        window of the rounded-up power of two is free. */
    method AllocateAny(size: nat) returns (r: Result<Allocation>)
      requires Valid() && size < WORD_LIMIT
      modifies this, normal, device
      ensures Valid()
      ensures if r.Ok? then Moved(r.value) else Untouched()
      ensures r.Err? ==> r == Err(if size == 0 then InvalidArgument else OutOfMemory)
      ensures r.Ok? ==> size != 0
      ensures var pages := BytesToPages(size);
              size != 0 ==>
                (r.Ok? <==> pages != 0 && exists b: nat ::
                              Aligned(b, CeilLog2(pages)) && Range(b, Pow2(CeilLog2(pages))) <= old(normal.Free()))
      ensures r.Ok? ==>
                && BytesToPages(size) != 0 && r.value == Allocation(r.value.base, BytesToPages(size), false)
                && Aligned(r.value.base, CeilLog2(BytesToPages(size)))
                && Range(r.value.base, r.value.count) <= old(normal.Free())
    {
      hide CeilLog2, Pow2, Aligned;
      if size == 0 {
        return Err(InvalidArgument);
      }
      var pages := BytesToPages(size);
      var found := normal.FindFirstFit(pages);
      if found.None? {
        return Err(OutOfMemory);
      }
      var base := found.value;
      assert Range(base, pages) <= Range(base, Pow2(CeilLog2(pages)));
      InPool(normal.freeLists, base, pages);
      PagesRoundTrip(pages);
      r := AllocateAt(base * PAGE_SIZE, pages * PAGE_SIZE, false);
    }

    /** Takes the lowest aligned power-of-two window of an extent; runs out only when there is none. */
    method AllocateAlignedInRange(start: nat, end: nat, bytes: nat) returns (r: Result<Allocation>)
      requires Valid() && start < WORD_LIMIT && end < WORD_LIMIT && bytes < WORD_LIMIT
      modifies this, normal, device
      ensures Valid()
      ensures if r.Ok? then Moved(r.value) else Untouched()
      ensures r == Err(InvalidArgument) <==> bytes < PAGE_SIZE || !IsPow2(bytes) || start >= end
      ensures r.Err? ==> r == Err(InvalidArgument) || r == Err(OutOfMemory)
      ensures r == Err(OutOfMemory) ==>
                bytes > 0 && forall a: nat :: !Window(old(normal.Free()), start, end, bytes, a)
      ensures r.Ok? ==>
                && bytes > 0 && r.value == Allocation(r.value.base, bytes / PAGE_SIZE, false)
                && Window(old(normal.Free()), start, end, bytes, r.value.base * PAGE_SIZE)
                && forall a: nat :: Window(old(normal.Free()), start, end, bytes, a) ==> r.value.base * PAGE_SIZE <= a
    {
      if bytes < PAGE_SIZE || !IsPow2(bytes) || start >= end {
        return Err(InvalidArgument);
      }
      var selected := LowestWindow(normal.freeLists, start, end, bytes);
      if selected.None? {
        return Err(OutOfMemory);
      }
      WindowPages(bytes, selected.value);
      PagesRoundTrip(bytes / PAGE_SIZE);
      r := AllocateAt(selected.value, bytes, false);
    }

    /** Frees part or all of one record that was not set aside at boot; its remaining ends stay
        recorded. */
    method Free(baseAddress: nat, size: nat) returns (r: Outcome)
      requires Valid() && baseAddress < WORD_LIMIT && size < WORD_LIMIT
      modifies this, normal, device
      ensures Valid()
      ensures r == Done || r == Failed(InvalidArgument)
      ensures r == Done <==>
                && baseAddress % PAGE_SIZE == 0 && size != 0
                && exists i: nat :: Frees(old(allocations), i, baseAddress / PAGE_SIZE, BytesToPages(size))
      ensures r == Done ==> exists i: nat ::
                && Frees(old(allocations), i, baseAddress / PAGE_SIZE, BytesToPages(size))
                && Returned(old(allocations[i].device), baseAddress / PAGE_SIZE, BytesToPages(size))
      ensures r != Done ==> Untouched()
    {
      if baseAddress % PAGE_SIZE != 0 || size == 0 {
        return Failed(InvalidArgument);
      }
      var base := baseAddress / PAGE_SIZE;
      var pages := BytesToPages(size);
      if base + pages >= WORD_LIMIT {
        return Failed(InvalidArgument);
      }
      var i := 0;
      while i < |allocations| && !Frees(allocations, i, base, pages)
        invariant i <= |allocations|
        invariant forall j: nat :: j < i ==> !Frees(allocations, j, base, pages)
      {
        i := i + 1;
      }
      if i == |allocations| {
        return Failed(InvalidArgument);
      }
      assert Frees(old(allocations), i, base, pages);
      var isDevice := allocations[i].device;
      CutRecord(i, base, pages);
      r := Release(isDevice, base, pages);
      assert Returned(isDevice, base, pages);
    }

    /** Replaces record `i` by its ends outside `base .. base + pages`. */
    method CutRecord(i: nat, base: nat, pages: nat)
      requires RecordsApart(allocations) && RecordsInBounds(allocations) && Frees(allocations, i, base, pages)
      modifies this
      ensures RecordsApart(allocations) && RecordsInBounds(allocations)
      ensures Range(base, pages) <= old(AllRecorded(allocations)) && base + pages < PAGE_LIMIT
      ensures AllRecorded(allocations) == old(AllRecorded(allocations)) - Range(base, pages)
      ensures forall d, s :: Recorded(allocations, d, s) ==
                if d == old(allocations[i].device) && !s then old(Recorded(allocations, d, s)) - Range(base, pages)
                else old(Recorded(allocations, d, s))
      ensures PagesIn(allocations) + (if old(allocations[i].device) then 0 else pages) == old(PagesIn(allocations))
    {
      ghost var cut := CutAt(allocations, i, base, pages);
      CutKeeps(allocations, i, base, pages);
      CutAll(allocations, i, base, pages);
      CutEveryKind(allocations, i, base, pages);
      var a := allocations[i];
      var end := a.base + a.count;
      var rest := SwapRemove(allocations, i);
      if a.base < base {
        rest := rest + [Record(a.base, base - a.base, a.device, false)];
      }
      if base + pages < end {
        rest := rest + [Record(base + pages, end - (base + pages), a.device, false)];
      }
      assert rest == cut;
      allocations := rest;
    }

    /** Freeing what was just allocated restores the blocks of every order in both pools. */
    method AllocateThenFree(baseAddress: nat, size: nat, allowDevice: bool) returns (r: Result<Allocation>)
      requires Valid() && baseAddress < WORD_LIMIT && size < WORD_LIMIT
      modifies this, normal, device
      ensures Valid()
      ensures forall o: nat, b: nat :: Has(normal.freeLists, o, b) <==> old(Has(normal.freeLists, o, b))
      ensures forall o: nat, b: nat :: Has(device.freeLists, o, b) <==> old(Has(device.freeLists, o, b))
    {
      ghost var normal0, device0 := normal.freeLists, device.freeLists;
      r := AllocateAt(baseAddress, size, allowDevice);
      if r.Ok? {
        var a := r.value;
        ghost var records := allocations;
        var back := Free(baseAddress, size);
        RecordIsLast(records, a.base, a.count);
        assert Frees(records, |records| - 1, a.base, a.count);
        RestoredPages(Pages(normal0), Range(a.base, a.count));
        RestoredPages(Pages(device0), Range(a.base, a.count));
        Canonicity(normal0, normal.freeLists);
        Canonicity(device0, device.freeLists);
      }
    }

    /** Reports ordinary memory; neither sum saturates. */
    method MemoryReport() returns (info: MemoryInfo)
      requires Valid()
      ensures info.freePages == |PageSet(normal.freeLists)| == PageCount(normal.freeLists)
      ensures info.totalPages == |PageSet(normal.freeLists) + NormalSet(allocations)| == Total()
    {
      var free := normal.FreePageCount();
      var inUse := 0;
      TotalFits(normal.freeLists, allocations);
      var i := 0;
      while i < |allocations|
        invariant i <= |allocations| && inUse == PagesIn(allocations[..i])
      {
        PagesInPrefix(allocations, i + 1);
        assert allocations[..i + 1][..i] == allocations[..i];
        if !allocations[i].device {
          inUse := SaturatingAdd(inUse, allocations[i].count);
        }
        i := i + 1;
      }
      assert allocations[..i] == allocations;
      return MemoryInfo(SaturatingAdd(free, inUse), free);
    }
  }

  /** Among disjoint records only the one just added can cover its pages. */
  lemma RecordIsLast(records: seq<Record>, base: nat, count: nat)
    requires RecordsApart(records) && records != [] && count != 0
    requires records[|records| - 1].base == base && records[|records| - 1].count == count
    ensures forall i: nat :: Frees(records, i, base, count) ==> i == |records| - 1
  {
    forall i: nat | Frees(records, i, base, count) ensures i == |records| - 1 {
      assert InRecord(records, i, base) && InRecord(records, |records| - 1, base);
      OneRecord(records, i, |records| - 1, base);
    }
  }

  lemma RestoredPages(f: iset<nat>, pages: iset<nat>)
    ensures pages <= f ==> f - pages + pages == f
  {
  }
}
