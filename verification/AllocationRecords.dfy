/** The list of allocation records and the pages it stands for. */
module AllocationRecords {
  import opened Dyadic
  import opened FreeLists
  import opened BuddyPools

  datatype Record = Record(base: nat, count: nat, device: bool, reserved: bool)

  // ---- the meaning of the record list ----

  ghost predicate Selected(r: Record, device: bool, reserved: bool) {
    r.device == device && r.reserved == reserved
  }

  ghost predicate InRecord(records: seq<Record>, i: nat, p: nat) {
    i < |records| && InRange(p, records[i].base, records[i].count)
  }

  ghost predicate Holds(records: seq<Record>, device: bool, reserved: bool, p: nat) {
    exists i: nat :: InRecord(records, i, p) && Selected(records[i], device, reserved)
  }

  /** The pages in records of one kind. */
  ghost function Recorded(records: seq<Record>, device: bool, reserved: bool): iset<nat> {
    iset p: nat | Holds(records, device, reserved, p)
  }

  ghost predicate PairApart(r: Record, s: Record) {
    r.base + r.count <= s.base || s.base + s.count <= r.base
  }

  ghost predicate RecordsApart(records: seq<Record>) {
    forall i: nat, j: nat :: i < j < |records| ==> PairApart(records[i], records[j])
  }

  lemma OneRecord(records: seq<Record>, i: nat, j: nat, p: nat)
    requires RecordsApart(records) && InRecord(records, i, p) && InRecord(records, j, p)
    ensures i == j
  {
  }

  ghost predicate RecordsInBounds(records: seq<Record>) {
    forall i: nat :: i < |records| ==> 0 < records[i].count && records[i].base + records[i].count < PAGE_LIMIT
  }

  function NormalPages(r: Record): nat {
    if r.device then 0 else r.count
  }

  /** Pages in use in ordinary memory, added up record by record. */
  function PagesIn(records: seq<Record>): nat {
    if records == [] then 0
    else PagesIn(records[..|records| - 1]) + NormalPages(records[|records| - 1])
  }

  ghost predicate Separate(s: iset<nat>, t: iset<nat>) {
    forall p :: p in s ==> p !in t
  }

  ghost predicate InSome(records: seq<Record>, p: nat) {
    exists i: nat :: InRecord(records, i, p)
  }

  ghost function AllRecorded(records: seq<Record>): iset<nat> {
    iset p: nat | InSome(records, p)
  }

  ghost predicate Unrecorded(records: seq<Record>, f: iset<nat>) {
    Separate(AllRecorded(records), f)
  }

  // ---- record list updates ----

  lemma {:induction false} PagesInReplace(records: seq<Record>, i: nat, r: Record)
    requires i < |records|
    ensures PagesIn(records[i := r]) + NormalPages(records[i]) == PagesIn(records) + NormalPages(r)
  {
    var k := |records| - 1;
    if i == k {
      assert records[i := r][..k] == records[..k];
    } else {
      PagesInReplace(records[..k], i, r);
      assert records[i := r][..k] == records[..k][i := r];
    }
  }

  lemma {:induction false} PagesInRemove(records: seq<Record>, i: nat)
    requires i < |records|
    ensures PagesIn(SwapRemove(records, i)) + NormalPages(records[i]) == PagesIn(records)
  {
    var k := |records| - 1;
    PagesInReplace(records, i, records[k]);
    var moved := records[i := records[k]];
    assert moved[k] == records[k] && moved[..k] == SwapRemove(records, i);
  }

  lemma {:induction false} PagesInAppend(records: seq<Record>, r: Record)
    ensures PagesIn(records + [r]) == PagesIn(records) + NormalPages(r)
  {
    assert (records + [r])[..|records|] == records;
  }

  /** A new record of pages that no record holds. */
  lemma AppendRecord(records: seq<Record>, r: Record)
    requires RecordsApart(records) && RecordsInBounds(records)
    requires 0 < r.count && r.base + r.count < PAGE_LIMIT
    requires Unrecorded(records, Range(r.base, r.count))
    ensures var records' := records + [r];
            && RecordsApart(records') && RecordsInBounds(records')
            && AllRecorded(records') == AllRecorded(records) + Range(r.base, r.count)
            && forall device, reserved :: Recorded(records', device, reserved) ==
                 if Selected(r, device, reserved) then Recorded(records, device, reserved) + Range(r.base, r.count)
                 else Recorded(records, device, reserved)
  {
    var records' := records + [r];
    forall i: nat | i < |records| ensures PairApart(records[i], r) {
      var p := if records[i].base < r.base then r.base else records[i].base;
      assert InRecord(records, i, p) ==> p in AllRecorded(records);
      assert InRange(p, r.base, r.count) ==> p in Range(r.base, r.count);
    }
    AppendedAll(records, r);
    forall device, reserved ensures Recorded(records', device, reserved) ==
        if Selected(r, device, reserved) then Recorded(records, device, reserved) + Range(r.base, r.count)
        else Recorded(records, device, reserved) {
      AppendedPages(records, r, device, reserved);
    }
  }

  lemma AppendedAll(records: seq<Record>, r: Record)
    ensures AllRecorded(records + [r]) == AllRecorded(records) + Range(r.base, r.count)
  {
    forall p: nat ensures InSome(records + [r], p) <==> InSome(records, p) || InRange(p, r.base, r.count) {
      if InSome(records, p) {
        var i: nat :| InRecord(records, i, p);
        assert InRecord(records + [r], i, p);
      }
      if InRange(p, r.base, r.count) {
        assert InRecord(records + [r], |records|, p);
      }
      if InSome(records + [r], p) {
        var i: nat :| InRecord(records + [r], i, p);
        assert InRecord(records, i, p) || InRange(p, r.base, r.count);
      }
    }
  }

  lemma AppendedPages(records: seq<Record>, r: Record, device: bool, reserved: bool)
    ensures Recorded(records + [r], device, reserved) ==
              if Selected(r, device, reserved) then Recorded(records, device, reserved) + Range(r.base, r.count)
              else Recorded(records, device, reserved)
  {
    var records' := records + [r];
    forall p: nat | p in Recorded(records, device, reserved) ensures p in Recorded(records', device, reserved) {
      var i: nat :| InRecord(records, i, p) && Selected(records[i], device, reserved);
      assert InRecord(records', i, p) && Selected(records'[i], device, reserved);
    }
    forall p: nat | p in Range(r.base, r.count) && Selected(r, device, reserved)
      ensures p in Recorded(records', device, reserved)
    {
      assert InRecord(records', |records|, p) && Selected(records'[|records|], device, reserved);
    }
    forall p: nat | p in Recorded(records', device, reserved)
      ensures p in Recorded(records, device, reserved) || (p in Range(r.base, r.count) && Selected(r, device, reserved))
    {
      var i: nat :| InRecord(records', i, p) && Selected(records'[i], device, reserved);
      if i < |records| {
        assert InRecord(records, i, p) && Selected(records[i], device, reserved);
      }
    }
  }

  /** Removing one record removes exactly its pages. */
  lemma RemoveRecord(records: seq<Record>, i: nat)
    requires RecordsApart(records) && RecordsInBounds(records) && i < |records|
    ensures var r, records' := records[i], SwapRemove(records, i);
            && RecordsApart(records') && RecordsInBounds(records')
            && AllRecorded(records') == AllRecorded(records) - Range(r.base, r.count)
            && forall device, reserved :: Recorded(records', device, reserved) ==
                 if Selected(r, device, reserved) then Recorded(records, device, reserved) - Range(r.base, r.count)
                 else Recorded(records, device, reserved)
  {
    RemovedAll(records, i);
    var r, records' := records[i], SwapRemove(records, i);
    forall device, reserved ensures Recorded(records', device, reserved) ==
        if Selected(r, device, reserved) then Recorded(records, device, reserved) - Range(r.base, r.count)
        else Recorded(records, device, reserved) {
      RemovedPages(records, i, device, reserved);
    }
  }

  lemma RemovedAll(records: seq<Record>, i: nat)
    requires RecordsApart(records) && i < |records|
    ensures RecordsApart(SwapRemove(records, i))
    ensures AllRecorded(SwapRemove(records, i)) == AllRecorded(records) - Range(records[i].base, records[i].count)
  {
    var r, records', last := records[i], SwapRemove(records, i), |records| - 1;
    assert forall j: nat, p: nat :: InRecord(records', j, p) <==>
      j < last && InRecord(records, if j == i then last else j, p);
    forall p: nat ensures InSome(records', p) <==> InSome(records, p) && !InRange(p, r.base, r.count) {
      assert InRecord(records, i, p) <==> InRange(p, r.base, r.count);
      if InSome(records', p) {
        var j: nat :| InRecord(records', j, p);
        var k := if j == i then last else j;
        assert InRecord(records, k, p) && k != i;
        if InRecord(records, i, p) { OneRecord(records, i, k, p); assert false; }
      }
      if InSome(records, p) && !InRange(p, r.base, r.count) {
        var k: nat :| InRecord(records, k, p);
        assert InRecord(records', if k == last then i else k, p);
      }
    }
  }

  lemma RemovedPages(records: seq<Record>, i: nat, device: bool, reserved: bool)
    requires RecordsApart(records) && i < |records|
    ensures Recorded(SwapRemove(records, i), device, reserved) ==
              if Selected(records[i], device, reserved)
              then Recorded(records, device, reserved) - Range(records[i].base, records[i].count)
              else Recorded(records, device, reserved)
  {
    var r, records', last := records[i], SwapRemove(records, i), |records| - 1;
    forall p: nat | p in Recorded(records', device, reserved)
      ensures p in Recorded(records, device, reserved) && p !in Range(r.base, r.count)
    {
      var j: nat :| InRecord(records', j, p) && Selected(records'[j], device, reserved);
      var k := if j == i then last else j;
      assert InRecord(records, k, p) && Selected(records[k], device, reserved) && k != i;
      if InRecord(records, i, p) { OneRecord(records, i, k, p); assert false; }
    }
    forall p: nat | p in Recorded(records, device, reserved)
                    && !(Selected(r, device, reserved) && p in Range(r.base, r.count))
      ensures p in Recorded(records', device, reserved)
    {
      var k: nat :| InRecord(records, k, p) && Selected(records[k], device, reserved);
      assert k != i;
      var j := if k == last then i else k;
      assert InRecord(records', j, p) && Selected(records'[j], device, reserved);
    }
  }

  // ---- cutting a part out of one record ----

  /** The record that a request to free these pages selects. */
  predicate Frees(records: seq<Record>, i: nat, base: nat, pages: nat) {
    && i < |records| && !records[i].reserved
    && records[i].base <= base && base + pages <= records[i].base + records[i].count
  }

  function PushEnd(records: seq<Record>, r: Record): seq<Record> {
    if 0 < r.count then records + [r] else records
  }

  function CutAt(records: seq<Record>, i: nat, base: nat, pages: nat): seq<Record>
    requires Frees(records, i, base, pages)
  {
    var a := records[i];
    var end := a.base + a.count;
    PushEnd(PushEnd(SwapRemove(records, i), Record(a.base, base - a.base, a.device, false)),
            Record(base + pages, end - (base + pages), a.device, false))
  }

  lemma PushEndKeeps(records: seq<Record>, r: Record)
    requires RecordsApart(records) && RecordsInBounds(records)
    requires r.base + r.count < PAGE_LIMIT && Unrecorded(records, Range(r.base, r.count))
    ensures var records' := PushEnd(records, r);
            RecordsApart(records') && RecordsInBounds(records')
            && PagesIn(records') == PagesIn(records) + NormalPages(r)
  {
    if 0 < r.count {
      AppendRecord(records, r);
      PagesInAppend(records, r);
    }
  }

  lemma PushEndAll(records: seq<Record>, r: Record)
    ensures AllRecorded(PushEnd(records, r)) == AllRecorded(records) + Range(r.base, r.count)
  {
    if 0 < r.count {
      AppendedAll(records, r);
    } else {
      assert Range(r.base, r.count) == iset{};
    }
  }

  lemma PushEndPages(records: seq<Record>, r: Record, d: bool, s: bool)
    ensures Recorded(PushEnd(records, r), d, s) ==
              if Selected(r, d, s) then Recorded(records, d, s) + Range(r.base, r.count) else Recorded(records, d, s)
  {
    if 0 < r.count {
      AppendedPages(records, r, d, s);
    } else {
      assert Range(r.base, r.count) == iset{};
    }
  }

  lemma CutAll(records: seq<Record>, i: nat, base: nat, pages: nat)
    requires RecordsApart(records) && Frees(records, i, base, pages)
    ensures Range(base, pages) <= AllRecorded(records)
    ensures AllRecorded(CutAt(records, i, base, pages)) == AllRecorded(records) - Range(base, pages)
  {
    var a := records[i];
    var left := Record(a.base, base - a.base, a.device, false);
    var right := Record(base + pages, a.base + a.count - (base + pages), a.device, false);
    var s0 := SwapRemove(records, i);
    var s1 := PushEnd(s0, left);
    var f := AllRecorded(records);
    assert a.count == left.count + pages + right.count;
    RecordHolds(records, i);
    RemovedAll(records, i);
    PushEndAll(s0, left);
    PushEndAll(s1, right);
    Rejoined(f, AllRecorded(s0), AllRecorded(s1), a.base, left.count, pages, right.count);
    assert CutAt(records, i, base, pages) == PushEnd(s1, right);
  }

  lemma CutKeeps(records: seq<Record>, i: nat, base: nat, pages: nat)
    requires RecordsApart(records) && RecordsInBounds(records) && Frees(records, i, base, pages)
    ensures var a, records' := records[i], CutAt(records, i, base, pages);
            && RecordsApart(records') && RecordsInBounds(records')
            && PagesIn(records') + (if a.device then 0 else pages) == PagesIn(records)
  {
    var a := records[i];
    var left := Record(a.base, base - a.base, a.device, false);
    var right := Record(base + pages, a.base + a.count - (base + pages), a.device, false);
    var s0 := SwapRemove(records, i);
    assert a.count == left.count + pages + right.count;
    RecordHolds(records, i);
    RemoveRecord(records, i);
    PagesInRemove(records, i);
    CutPages(AllRecorded(records), a.base, left.count, pages, right.count);
    PushEndKeeps(s0, left);
    PushEndAll(s0, left);
    PushEndKeeps(PushEnd(s0, left), right);
    assert CutAt(records, i, base, pages) == PushEnd(PushEnd(s0, left), right);
  }

  lemma CutKinds(records: seq<Record>, i: nat, base: nat, pages: nat, d: bool, s: bool)
    requires RecordsApart(records) && Frees(records, i, base, pages)
    ensures Recorded(CutAt(records, i, base, pages), d, s) ==
              if d == records[i].device && !s then Recorded(records, d, s) - Range(base, pages)
              else Recorded(records, d, s)
  {
    var a := records[i];
    var left := Record(a.base, base - a.base, a.device, false);
    var right := Record(base + pages, a.base + a.count - (base + pages), a.device, false);
    var s0 := SwapRemove(records, i);
    var s1 := PushEnd(s0, left);
    assert a.count == left.count + pages + right.count;
    RecordHolds(records, i);
    RemovedPages(records, i, d, s);
    PushEndPages(s0, left, d, s);
    PushEndPages(s1, right, d, s);
    if d == a.device && !s {
      Rejoined(Recorded(records, d, s), Recorded(s0, d, s), Recorded(s1, d, s),
               a.base, left.count, pages, right.count);
    }
  }

  lemma CutEveryKind(records: seq<Record>, i: nat, base: nat, pages: nat)
    requires RecordsApart(records) && Frees(records, i, base, pages)
    ensures forall d, s :: Recorded(CutAt(records, i, base, pages), d, s) ==
              if d == records[i].device && !s then Recorded(records, d, s) - Range(base, pages)
              else Recorded(records, d, s)
  {
    forall d, s ensures Recorded(CutAt(records, i, base, pages), d, s) ==
        if d == records[i].device && !s then Recorded(records, d, s) - Range(base, pages)
        else Recorded(records, d, s) {
      CutKinds(records, i, base, pages, d, s);
    }
  }

  lemma Rejoined(f: iset<nat>, f0: iset<nat>, f1: iset<nat>, base: nat, left: nat, mid: nat, right: nat)
    requires Range(base, left + mid + right) <= f
    requires f0 == f - Range(base, left + mid + right) && f1 == f0 + Range(base, left)
    ensures f1 + Range(base + left + mid, right) == f - Range(base + left, mid)
    ensures Range(base + left, mid) <= f
  {
    CutPages(f, base, left, mid, right);
  }

  lemma RecordHolds(records: seq<Record>, i: nat)
    requires i < |records|
    ensures var r := records[i];
            && Range(r.base, r.count) <= AllRecorded(records)
            && Range(r.base, r.count) <= Recorded(records, r.device, r.reserved)
  {
    var r := records[i];
    forall p: nat | InRange(p, r.base, r.count) ensures InSome(records, p) && Holds(records, r.device, r.reserved, p) {
      assert InRecord(records, i, p) && Selected(records[i], r.device, r.reserved);
    }
  }

  lemma CutPages(f: iset<nat>, base: nat, left: nat, mid: nat, right: nat)
    requires Range(base, left + mid + right) <= f
    ensures var cut := f - Range(base, left + mid + right);
            && Range(base + left, mid) <= f
            && cut + Range(base, left) + Range(base + left + mid, right) == f - Range(base + left, mid)
            && Separate(cut, Range(base, left))
            && Separate(cut + Range(base, left), Range(base + left + mid, right))
  {
    var whole := Range(base, left + mid + right);
    assert Range(base, left) <= whole && Range(base + left, mid) <= whole && Range(base + left + mid, right) <= whole;
  }

  // ---- counting recorded pages ----

  ghost function NormalSet(records: seq<Record>): set<nat> {
    set p: nat | p < PAGE_LIMIT && (Holds(records, false, false, p) || Holds(records, false, true, p))
  }

  /** The sum over the records is the number of pages they hold, because none repeats. */
  lemma {:induction false} PagesInIsSize(records: seq<Record>)
    requires RecordsApart(records) && RecordsInBounds(records)
    ensures PagesIn(records) == |NormalSet(records)|
  {
    if records == [] {
      assert NormalSet(records) == {};
    } else {
      var k := |records| - 1;
      var r, front := records[k], records[..k];
      FrontRecords(records);
      PagesInIsSize(front);
      assert records == front + [r];
      AppendedPages(front, r, false, false);
      AppendedPages(front, r, false, true);
      NormalSetStep(front, r);
    }
  }

  lemma FrontRecords(records: seq<Record>)
    requires RecordsApart(records) && RecordsInBounds(records) && records != []
    ensures var k := |records| - 1; var front := records[..k];
            && RecordsApart(front) && RecordsInBounds(front)
            && forall i: nat, p: nat :: InRecord(front, i, p) ==> !InRange(p, records[k].base, records[k].count)
  {
    var k := |records| - 1;
    var front := records[..k];
    forall i: nat, p: nat | InRecord(front, i, p)
      ensures InRecord(records, i, p) && !InRange(p, records[k].base, records[k].count)
    {
      assert InRecord(records, i, p);
      if InRecord(records, k, p) { OneRecord(records, i, k, p); assert false; }
    }
  }

  lemma NormalSetStep(front: seq<Record>, r: Record)
    requires r.base + r.count < PAGE_LIMIT
    requires forall i: nat, p: nat :: InRecord(front, i, p) ==> !InRange(p, r.base, r.count)
    ensures |NormalSet(front + [r])| == |NormalSet(front)| + NormalPages(r)
  {
    AppendedPages(front, r, false, false);
    AppendedPages(front, r, false, true);
    forall p: nat
      ensures Holds(front + [r], false, false, p) || Holds(front + [r], false, true, p) <==>
        Holds(front, false, false, p) || Holds(front, false, true, p) || (!r.device && InRange(p, r.base, r.count))
    {
      assert p in Recorded(front + [r], false, false) <==> Holds(front + [r], false, false, p);
      assert p in Recorded(front + [r], false, true) <==> Holds(front + [r], false, true, p);
    }
    var added := if r.device then {} else RangeSet(r.base, r.count);
    RangeSetSize(r.base, r.count);
    assert NormalSet(front + [r]) == NormalSet(front) + added;
    assert NormalSet(front) !! added;
  }

  lemma {:induction false} PagesInPrefix(records: seq<Record>, k: nat)
    requires k <= |records|
    ensures PagesIn(records[..k]) <= PagesIn(records)
    decreases |records|
  {
    if k == |records| {
      assert records[..k] == records;
    } else {
      PagesInPrefix(records[..|records| - 1], k);
      assert records[..|records| - 1][..k] == records[..k];
    }
  }

  /** Free and recorded pages together fit below the page limit. */
  lemma TotalFits(l: Lists, records: seq<Record>)
    requires Canonical(l) && RecordsApart(records) && RecordsInBounds(records) && Unrecorded(records, Pages(l))
    ensures PageCount(l) + PagesIn(records) == |PageSet(l) + NormalSet(records)| <= PAGE_LIMIT
    ensures PageCount(l) == |PageSet(l)|
  {
    PageCountIsSize(l);
    PagesInIsSize(records);
    FreeAndRecordedApart(l, records);
    RangeSetSize(0, PAGE_LIMIT);
    assert forall p: nat :: p < PAGE_LIMIT ==> InRange(p, 0, PAGE_LIMIT);
    SubsetSize(PageSet(l) + NormalSet(records), RangeSet(0, PAGE_LIMIT));
  }

  lemma FreeAndRecordedApart(l: Lists, records: seq<Record>)
    requires Unrecorded(records, Pages(l))
    ensures PageSet(l) !! NormalSet(records)
  {
    forall p: nat | p in NormalSet(records) ensures p !in PageSet(l) {
      var s := !Holds(records, false, false, p);
      assert Holds(records, false, s, p);
      var i: nat :| InRecord(records, i, p) && Selected(records[i], false, s);
      assert p in AllRecorded(records);
      assert Covered(l, p) ==> p in Pages(l);
    }
  }
}
