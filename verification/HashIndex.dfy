/** The open-addressed index of the allocation tables: linear probing, at most half full, and
    deletion that shifts entries back instead of leaving tombstones. */
module HashIndex {
  import opened Dyadic
  import opened Options

  datatype Entry<K> = Entry(key: K, value: nat)

  type Slots<K> = seq<Option<Entry<K>>>

  // ---- positions on the ring ----

  /** Steps from `a` forward to `b` on a ring of `n` slots. */
  function Dist(a: nat, b: nat, n: nat): nat
    requires a < n && b < n
  {
    if a <= b then b - a else b + n - a
  }

  function Next(i: nat, n: nat): nat
    requires i < n
  {
    if i + 1 == n then 0 else i + 1
  }

  /** The slot where the search for a key begins. The capacity is a power of two, so the
      remainder is the mask the index uses. */
  function Home<K>(hash: K -> nat, key: K, n: nat): (r: nat)
    requires n > 0
    ensures r < n
  {
    hash(key) % n
  }

  // ---- what the slots mean ----

  ghost predicate Holds<K>(s: Slots<K>, i: nat, key: K) {
    i < |s| && s[i].Some? && s[i].value.key == key
  }

  ghost predicate OneSlotPerKey<K(!new)>(s: Slots<K>) {
    forall i: nat, j: nat, k: K :: Holds(s, i, k) && Holds(s, j, k) ==> i == j
  }

  /** Every slot from `from` up to, but not including, `to` is in use, except perhaps `hole`. */
  ghost predicate Filled<K>(s: Slots<K>, from: nat, to: nat, hole: nat)
    requires from < |s| && to < |s|
  {
    forall j: nat :: j < |s| && Dist(from, j, |s|) < Dist(from, to, |s|) && j != hole ==> s[j].Some?
  }

  /** Every key is found from its home slot without crossing an empty slot other than `hole`. */
  ghost predicate ReachableBut<K>(s: Slots<K>, hash: K -> nat, hole: nat) {
    forall i: nat :: i < |s| && s[i].Some? ==> Filled(s, Home(hash, s[i].value.key, |s|), i, hole)
  }

  ghost predicate Reachable<K>(s: Slots<K>, hash: K -> nat) {
    ReachableBut(s, hash, |s|)
  }

  /** The slots hold exactly the map `m`. */
  ghost predicate Represents<K(!new)>(s: Slots<K>, m: map<K, nat>) {
    && (forall i: nat :: i < |s| && s[i].Some? ==> s[i].value.key in m && m[s[i].value.key] == s[i].value.value)
    && (forall k: K {:trigger Stored(s, k)} :: k in m ==> Stored(s, k))
  }

  ghost predicate Stored<K>(s: Slots<K>, key: K) {
    exists i: nat :: Holds(s, i, key)
  }

  function InUse<K>(s: Slots<K>): nat {
    if s == [] then 0 else InUse(s[..|s| - 1]) + if s[|s| - 1].Some? then 1 else 0
  }

  lemma {:induction false} InUseUpdate<K>(s: Slots<K>, i: nat, x: Option<Entry<K>>)
    requires i < |s|
    ensures InUse(s[i := x]) + (if s[i].Some? then 1 else 0) == InUse(s) + (if x.Some? then 1 else 0)
  {
    var k := |s| - 1;
    if i == k {
      assert s[i := x][..k] == s[..k];
    } else {
      InUseUpdate(s[..k], i, x);
      assert s[i := x][..k] == s[..k][i := x];
    }
  }

  lemma {:induction false} EmptySlot<K>(s: Slots<K>) returns (i: nat)
    requires InUse(s) < |s|
    ensures i < |s| && s[i].None?
  {
    if s[|s| - 1].None? {
      i := |s| - 1;
    } else {
      i := EmptySlot(s[..|s| - 1]);
    }
  }

  lemma OtherEmptySlot<K>(s: Slots<K>, hole: nat, x: Entry<K>) returns (i: nat)
    requires hole < |s| && s[hole].None? && InUse(s) + 1 < |s|
    ensures i < |s| && i != hole && s[i].None?
  {
    InUseUpdate(s, hole, Some(x));
    i := EmptySlot(s[hole := Some(x)]);
  }

  lemma {:induction false} NoneInUse<K>(s: Slots<K>)
    requires forall i: nat :: i < |s| ==> s[i].None?
    ensures InUse(s) == 0
  {
    if s != [] {
      NoneInUse(s[..|s| - 1]);
    }
  }

  // ---- deletion ----

  /** The state of the backward shift: `hole` is empty, everything between it and `scan` is in
      use, and only entries at or after `scan` still need the hole on their way. */
  ghost predicate Shifting<K>(s: Slots<K>, hash: K -> nat, hole: nat, scan: nat) {
    && hole < |s| && scan < |s| && hole != scan && s[hole].None?
    && ReachableBut(s, hash, hole)
    && (forall j: nat :: j < |s| && 0 < Dist(hole, j, |s|) < Dist(hole, scan, |s|) ==> s[j].Some?)
    && (forall i: nat :: i < |s| && s[i].Some? && Crosses(s, hash, i, hole) ==>
          Dist(hole, scan, |s|) <= Dist(hole, i, |s|))
  }

  ghost predicate Crosses<K>(s: Slots<K>, hash: K -> nat, i: nat, hole: nat)
    requires i < |s| && hole < |s| && s[i].Some?
  {
    var home := Home(hash, s[i].value.key, |s|);
    Dist(home, hole, |s|) < Dist(home, i, |s|)
  }

  lemma ShiftStarts<K>(s: Slots<K>, hash: K -> nat, hole: nat)
    requires hole < |s| && 2 <= |s| && s[hole].None? && ReachableBut(s, hash, hole)
    ensures Shifting(s, hash, hole, Next(hole, |s|))
  {
  }

  lemma ShiftSkips<K>(s: Slots<K>, hash: K -> nat, hole: nat, scan: nat)
    requires Shifting(s, hash, hole, scan) && s[scan].Some?
    requires Dist(hole, Next(scan, |s|), |s|) == Dist(hole, scan, |s|) + 1
    requires Dist(Home(hash, s[scan].value.key, |s|), scan, |s|) < Dist(hole, scan, |s|)
    ensures Shifting(s, hash, hole, Next(scan, |s|))
  {
    assert !Crosses(s, hash, scan, hole);
  }

  lemma ShiftMoves<K>(s: Slots<K>, hash: K -> nat, hole: nat, scan: nat)
    requires Shifting(s, hash, hole, scan) && s[scan].Some? && 2 <= |s|
    requires Dist(Home(hash, s[scan].value.key, |s|), scan, |s|) >= Dist(hole, scan, |s|)
    ensures Shifting(s[hole := s[scan]][scan := None], hash, scan, Next(scan, |s|))
  {
    var s' := s[hole := s[scan]][scan := None];
    forall i: nat | i < |s'| && s'[i].Some?
      ensures Filled(s', Home(hash, s'[i].value.key, |s'|), i, scan)
    {
      if i == hole {
        assert Filled(s, Home(hash, s[scan].value.key, |s|), scan, hole);
      } else {
        assert Filled(s, Home(hash, s[i].value.key, |s|), i, hole);
      }
    }
  }

  lemma ShiftEnds<K>(s: Slots<K>, hash: K -> nat, hole: nat, scan: nat)
    requires Shifting(s, hash, hole, scan) && s[scan].None?
    ensures Reachable(s, hash)
  {
    forall i: nat | i < |s| && s[i].Some? ensures Filled(s, Home(hash, s[i].value.key, |s|), i, |s|) {
      assert Filled(s, Home(hash, s[i].value.key, |s|), i, hole);
      assert !Crosses(s, hash, i, hole);
    }
  }

  // ---- single updates ----

  lemma OneMoreKey<K(!new)>(s: Slots<K>, m: map<K, nat>, hash: K -> nat, i: nat, e: Entry<K>)
    requires Represents(s, m) && OneSlotPerKey(s) && Reachable(s, hash) && e.key !in m
    requires i < |s| && s[i].None? && Filled(s, Home(hash, e.key, |s|), i, |s|)
    ensures var s' := s[i := Some(e)];
            && Represents(s', m[e.key := e.value]) && OneSlotPerKey(s') && Reachable(s', hash)
            && InUse(s') == InUse(s) + 1
  {
    var s' := s[i := Some(e)];
    InUseUpdate(s, i, Some(e));
    assert forall j: nat, k: K :: Holds(s', j, k) <==> Holds(s, j, k) || (j == i && k == e.key);
    assert forall j: nat, k: K :: Holds(s, j, k) ==> k in m;
    StillReachable(s, hash, i, e);
    var m' := m[e.key := e.value];
    forall k: K | k in m' ensures Stored(s', k) {
      if k == e.key {
        assert Holds(s', i, k);
      } else {
        assert Stored(s, k);
        var j: nat :| Holds(s, j, k);
        assert Holds(s', j, k);
      }
    }
  }

  /** Filling a slot cuts no path. */
  lemma StillReachable<K>(s: Slots<K>, hash: K -> nat, i: nat, e: Entry<K>)
    requires Reachable(s, hash) && i < |s| && Filled(s, Home(hash, e.key, |s|), i, |s|)
    ensures Reachable(s[i := Some(e)], hash)
  {
    var s' := s[i := Some(e)];
    forall j: nat | j < |s'| && s'[j].Some? ensures Filled(s', Home(hash, s'[j].value.key, |s'|), j, |s'|) {
      assert Filled(s, Home(hash, s'[j].value.key, |s|), j, |s|);
    }
  }

  lemma NewValue<K(!new)>(s: Slots<K>, m: map<K, nat>, hash: K -> nat, i: nat, e: Entry<K>)
    requires Represents(s, m) && OneSlotPerKey(s) && Reachable(s, hash) && Holds(s, i, e.key)
    ensures var s' := s[i := Some(e)];
            && Represents(s', m[e.key := e.value]) && OneSlotPerKey(s') && Reachable(s', hash)
            && InUse(s') == InUse(s)
  {
    var s' := s[i := Some(e)];
    InUseUpdate(s, i, Some(e));
    assert forall j: nat, k: K :: Holds(s', j, k) <==> Holds(s, j, k);
    forall j: nat | j < |s'| && s'[j].Some? && j != i ensures s'[j].value.key != e.key {
      assert Holds(s, j, s[j].value.key);
    }
    assert Filled(s, Home(hash, s[i].value.key, |s|), i, |s|);
    StillReachable(s, hash, i, e);
    var m' := m[e.key := e.value];
    forall k: K | k in m' ensures Stored(s', k) {
      assert Stored(s, k);
      var j: nat :| Holds(s, j, k);
      assert Holds(s', j, k);
    }
  }

  lemma OneKeyLess<K(!new)>(s: Slots<K>, m: map<K, nat>, hash: K -> nat, i: nat)
    requires Represents(s, m) && OneSlotPerKey(s) && Reachable(s, hash) && i < |s| && s[i].Some?
    ensures var s' := s[i := None];
            && Represents(s', m - {s[i].value.key}) && OneSlotPerKey(s') && ReachableBut(s', hash, i)
            && InUse(s') + 1 == InUse(s)
  {
    var s', key := s[i := None], s[i].value.key;
    InUseUpdate(s, i, None);
    assert Holds(s, i, key);
    assert forall j: nat, k: K :: Holds(s', j, k) <==> Holds(s, j, k) && j != i;
    forall j: nat | j < |s'| && s'[j].Some?
      ensures Filled(s', Home(hash, s'[j].value.key, |s'|), j, i) && s'[j].value.key != key
    {
      assert Filled(s, Home(hash, s[j].value.key, |s|), j, |s|);
      assert Holds(s, j, s[j].value.key);
    }
    forall k: K | k in m - {key} ensures Stored(s', k) {
      assert Stored(s, k);
      var j: nat :| Holds(s, j, k);
      assert Holds(s', j, k);
    }
  }

  lemma EntryMoves<K(!new)>(s: Slots<K>, m: map<K, nat>, hole: nat, scan: nat)
    requires Represents(s, m) && OneSlotPerKey(s) && hole < |s| && scan < |s| && s[hole].None? && s[scan].Some?
    ensures var s' := s[hole := s[scan]][scan := None];
            Represents(s', m) && OneSlotPerKey(s') && InUse(s') == InUse(s)
  {
    var s' := s[hole := s[scan]][scan := None];
    InUseUpdate(s, hole, s[scan]);
    InUseUpdate(s[hole := s[scan]], scan, None);
    assert forall j: nat, k: K :: Holds(s', j, k) <==> j != scan && Holds(s, if j == hole then scan else j, k);
    forall k: K | k in m ensures Stored(s', k) {
      assert Stored(s, k);
      var j: nat :| Holds(s, j, k);
      assert Holds(s', if j == scan then hole else j, k);
    }
  }

  /** None of the slots from `home` up to `index` holds the key. */
  ghost predicate Passed<K>(s: Slots<K>, key: K, home: nat, index: nat)
    requires home < |s| && index < |s|
  {
    forall j: nat :: j < |s| && Dist(home, j, |s|) < Dist(home, index, |s|) ==> !Holds(s, j, key)
  }

  lemma ProbeStep<K>(s: Slots<K>, home: nat, index: nat, empty: nat)
    requires home < |s| && index < |s| && empty < |s| && index != empty
    requires Dist(home, index, |s|) <= Dist(home, empty, |s|)
    ensures Dist(home, Next(index, |s|), |s|) == Dist(home, index, |s|) + 1 <= Dist(home, empty, |s|)
    ensures forall j: nat :: j < |s| && Dist(home, j, |s|) < Dist(home, index, |s|) + 1 ==>
              j == index || Dist(home, j, |s|) < Dist(home, index, |s|)
  {
  }

  lemma PassedStep<K>(s: Slots<K>, key: K, home: nat, index: nat, empty: nat)
    requires home < |s| && index < |s| && empty < |s| && index != empty
    requires Dist(home, index, |s|) <= Dist(home, empty, |s|)
    requires Passed(s, key, home, index) && !Holds(s, index, key)
    ensures Passed(s, key, home, Next(index, |s|))
  {
    ProbeStep(s, home, index, empty);
  }

  lemma FilledStep<K>(s: Slots<K>, home: nat, index: nat, empty: nat)
    requires home < |s| && index < |s| && empty < |s| && index != empty
    requires Dist(home, index, |s|) <= Dist(home, empty, |s|)
    requires Filled(s, home, index, |s|) && s[index].Some?
    ensures Filled(s, home, Next(index, |s|), |s|)
  {
    ProbeStep(s, home, index, empty);
  }

  /** A search that meets an empty slot has passed every slot that could hold the key. */
  lemma NotStored<K(!new)>(s: Slots<K>, hash: K -> nat, key: K, index: nat)
    requires Reachable(s, hash) && index < |s| && s[index].None?
    requires Passed(s, key, Home(hash, key, |s|), index)
    ensures forall i: nat :: !Holds(s, i, key)
  {
    var home := Home(hash, key, |s|);
    forall i: nat ensures !Holds(s, i, key) {
      if Holds(s, i, key) {
        assert false;
      }
    }
  }

  ghost predicate HoldsBelow<K>(s: Slots<K>, n: nat, key: K) {
    exists j: nat :: j < n && Holds(s, j, key)
  }

  /** The part of `m` stored in the first `n` slots. */
  ghost function Part<K(!new)>(s: Slots<K>, m: map<K, nat>, n: nat): map<K, nat> {
    map k: K | k in m && HoldsBelow(s, n, k) :: m[k]
  }

  lemma PartStep<K(!new)>(s: Slots<K>, m: map<K, nat>, n: nat)
    requires Represents(s, m) && n < |s|
    ensures Part(s, m, n + 1) == if s[n].Some? then Part(s, m, n)[s[n].value.key := s[n].value.value] else Part(s, m, n)
  {
    assert forall k: K :: HoldsBelow(s, n + 1, k) <==> HoldsBelow(s, n, k) || Holds(s, n, k);
    assert s[n].Some? ==> forall k: K :: Holds(s, n, k) <==> k == s[n].value.key;
  }

  lemma WholePart<K(!new)>(s: Slots<K>, m: map<K, nat>)
    requires Represents(s, m)
    ensures Part(s, m, |s|) == m && Part(s, m, 0) == map[]
  {
    forall k: K | k in m ensures HoldsBelow(s, |s|, k) {
      assert Stored(s, k);
      var i: nat :| Holds(s, i, k);
    }
  }

  ghost predicate Capacity(n: nat) {
    n == 0 || exists e: nat :: 4 <= e && n == Pow2(e)
  }

  lemma CapacityGrows(n: nat)
    requires Capacity(n)
    ensures Capacity(if 2 * n < 16 then 16 else 2 * n)
  {
    if n == 0 {
      assert 16 == Pow2(4);
    } else {
      var e: nat :| 4 <= e && n == Pow2(e);
      assert 2 * n == Pow2(e + 1);
      Pow2Monotone(4, e);
    }
  }

  lemma CapacityAtLeast(n: nat)
    requires Capacity(n) && n > 0
    ensures n >= 16
  {
    var e: nat :| 4 <= e && n == Pow2(e);
    Pow2Monotone(4, e);
  }

  /** One round of the shift: the scan moves on, and the entry under it fills the hole when the
      hole lies on its way. */
  lemma ShiftRound<K(!new)>(s: Slots<K>, m: map<K, nat>, hash: K -> nat, hole: nat, scan: nat, empty: nat)
    returns (s': Slots<K>, hole': nat)
    requires Shifting(s, hash, hole, scan) && s[scan].Some? && Represents(s, m) && OneSlotPerKey(s) && 2 <= |s|
    requires empty < |s| && empty != hole && s[empty].None? && Dist(hole, scan, |s|) <= Dist(hole, empty, |s|)
    ensures var moves := Dist(Home(hash, s[scan].value.key, |s|), scan, |s|) >= Dist(hole, scan, |s|);
            && s' == (if moves then s[hole := s[scan]][scan := None] else s) && hole' == (if moves then scan else hole)
    ensures Shifting(s', hash, hole', Next(scan, |s|)) && Represents(s', m) && OneSlotPerKey(s')
    ensures InUse(s') == InUse(s)
    ensures empty != hole' && s'[empty].None? && Dist(hole', Next(scan, |s|), |s|) <= Dist(hole', empty, |s|)
    ensures Dist(Next(scan, |s|), empty, |s|) < Dist(scan, empty, |s|)
  {
    ProbeStep(s, hole, scan, empty);
    if Dist(Home(hash, s[scan].value.key, |s|), scan, |s|) >= Dist(hole, scan, |s|) {
      ShiftMoves(s, hash, hole, scan);
      EntryMoves(s, m, hole, scan);
      s', hole' := s[hole := s[scan]][scan := None], scan;
    } else {
      ShiftSkips(s, hash, hole, scan);
      s', hole' := s, hole;
    }
  }

  class Index<K(==,!new)> {
    const hash: K -> nat
    var slots: Slots<K>
    var len: nat
    ghost var contents: map<K, nat>

    ghost predicate Valid()
      reads this
    {
      && Capacity(|slots|) && len == InUse(slots) == |contents| && 2 * len <= |slots|
      && OneSlotPerKey(slots) && Reachable(slots, hash) && Represents(slots, contents)
    }

    constructor (hash: K -> nat)
      ensures Valid() && contents == map[] && this.hash == hash
    {
      this.hash := hash;
      slots := [];
      len := 0;
      contents := map[];
    }

    method Locate(key: K) returns (r: Option<nat>)
      requires Valid()
      ensures r.Some? <==> key in contents
      ensures r.Some? ==> Holds(slots, r.value, key)
    {
      if slots == [] {
        return None;
      }
      var n := |slots|;
      var index: nat := Home(hash, key, n);
      ghost var home := index;
      ghost var empty := EmptySlot(slots);
      while true
        invariant index < n && Dist(home, index, n) <= Dist(home, empty, n)
        invariant Passed(slots, key, home, index)
        decreases n - Dist(home, index, n)
      {
        if slots[index].None? {
          NotStored(slots, hash, key, index);
          assert !Stored(slots, key);
          return None;
        }
        if slots[index].value.key == key {
          return Some(index);
        }
        ProbeStep(slots, home, index, empty);
        PassedStep(slots, key, home, index, empty);
        index := Next(index, n);
      }
    }

    method Get(key: K) returns (r: Option<nat>)
      requires Valid()
      ensures r == if key in contents then Some(contents[key]) else None
    {
      var at := Locate(key);
      if at.Some? {
        return Some(slots[at.value].value.value);
      }
      return None;
    }

    method Insert(key: K, value: nat)
      requires Valid()
      modifies this
      ensures Valid() && contents == old(contents)[key := value]
      ensures 2 * (old(len) + 1) <= old(|slots|) ==> |slots| == old(|slots|)
      decreases if 2 * (len + 1) > |slots| then 1 else 0, 2
    {
      var at := Locate(key);
      if at.Some? {
        NewValue(slots, contents, hash, at.value, Entry(key, value));
        slots := slots[at.value := Some(Entry(key, value))];
        contents := contents[key := value];
        return;
      }
      if 2 * (len + 1) > |slots| {
        Grow();
      }
      var index := FindEmpty(key);
      OneMoreKey(slots, contents, hash, index, Entry(key, value));
      slots := slots[index := Some(Entry(key, value))];
      len := len + 1;
      contents := contents[key := value];
    }

    method FindEmpty(key: K) returns (index: nat)
      requires Valid() && len < |slots|
      ensures index < |slots| && slots[index].None? && Filled(slots, Home(hash, key, |slots|), index, |slots|)
    {
      var n := |slots|;
      index := Home(hash, key, n);
      ghost var home := index;
      ghost var empty := EmptySlot(slots);
      while slots[index].Some?
        invariant index < n && Dist(home, index, n) <= Dist(home, empty, n)
        invariant Filled(slots, home, index, n)
        decreases n - Dist(home, index, n)
      {
        ProbeStep(slots, home, index, empty);
        FilledStep(slots, home, index, empty);
        index := Next(index, n);
      }
    }

    /** Doubles the capacity and inserts every entry again. */
    method Grow()
      requires Valid() && 2 * (len + 1) > |slots|
      modifies this
      ensures Valid() && contents == old(contents)
      ensures 2 * (len + 1) <= |slots|
      decreases 1, 1
    {
      var before := slots;
      var capacity := if 2 * |slots| < 16 then 16 else 2 * |slots|;
      CapacityGrows(|slots|);
      slots := seq(capacity, _ => None);
      len := 0;
      contents := map[];
      NoneInUse(slots);
      Reinsert(before, old(contents));
    }

    method Reinsert(before: Slots<K>, ghost m: map<K, nat>)
      requires Valid() && contents == map[] && 2 * |before| <= |slots| && Represents(before, m)
      modifies this
      ensures Valid() && contents == m && |slots| == old(|slots|)
      decreases 1, 0
    {
      WholePart(before, m);
      var i: nat := 0;
      while i < |before|
        invariant i <= |before| && Valid() && |slots| == old(|slots|) && len <= i
        invariant contents == Part(before, m, i)
      {
        PartStep(before, m, i);
        InsertIfSome(before[i]);
        i := i + 1;
      }
    }

    method InsertIfSome(slot: Option<Entry<K>>)
      requires Valid() && 2 * (len + 1) <= |slots|
      modifies this
      ensures Valid() && |slots| == old(|slots|) && len <= old(len) + 1
      ensures contents == if slot.Some? then old(contents)[slot.value.key := slot.value.value] else old(contents)
      decreases 0, 3
    {
      if slot.Some? {
        Insert(slot.value.key, slot.value.value);
      }
    }

    method Remove(key: K) returns (r: Option<nat>)
      requires Valid()
      modifies this
      ensures Valid() && contents == old(contents) - {key}
      ensures r == if key in old(contents) then Some(old(contents)[key]) else None
      ensures |slots| == old(|slots|)
    {
      var at := Locate(key);
      if at.None? {
        return None;
      }
      CapacityAtLeast(|slots|);
      var hole := at.value;
      var entry := slots[hole].value;
      OneKeyLess(slots, contents, hash, hole);
      slots := slots[hole := None];
      contents := contents - {key};
      len := len - 1;
      ShiftBack(hole, entry);
      return Some(entry.value);
    }

    /** Closes the hole left by a deletion. */
    method ShiftBack(start: nat, ghost removed: Entry<K>)
      requires Capacity(|slots|) && 16 <= |slots| && len == InUse(slots) == |contents| && 2 * len <= |slots|
      requires OneSlotPerKey(slots) && Represents(slots, contents)
      requires start < |slots| && slots[start].None? && ReachableBut(slots, hash, start)
      modifies this`slots
      ensures Valid() && |slots| == old(|slots|)
    {
      var n: nat, hole: nat := |slots|, start;
      var scan: nat := Next(hole, n);
      ghost var empty := OtherEmptySlot(slots, hole, removed);
      ShiftStarts(slots, hash, hole);
      while slots[scan].Some?
        invariant |slots| == n && Shifting(slots, hash, hole, scan)
        invariant Represents(slots, contents) && OneSlotPerKey(slots) && InUse(slots) == len
        invariant empty < n && empty != hole && slots[empty].None? && Dist(hole, scan, n) <= Dist(hole, empty, n)
        decreases Dist(scan, empty, n)
      {
        ghost var after, hole' := ShiftRound(slots, contents, hash, hole, scan, empty);
        var home := Home(hash, slots[scan].value.key, n);
        if Dist(home, scan, n) >= Dist(hole, scan, n) {
          slots := slots[hole := slots[scan]][scan := None];
          hole := scan;
        }
        scan := Next(scan, n);
      }
      ShiftEnds(slots, hash, hole, scan);
    }
  }
}
