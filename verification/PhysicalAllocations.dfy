/** One table of process allocations: a linked list of nodes per process, a list of nodes to
    reuse, and a count of references to every physical range. */
module AllocationTable {
  import opened HashIndex
  import opened Options

  type Range = (nat, nat)

  datatype Allocation = Allocation(baseVa: nat, startSlot: nat, basePage: nat, pageCount: nat)
  datatype Node = Node(allocation: Allocation, next: Option<nat>)

  datatype Taken = Taken(allocation: Allocation, last: bool)

  function Key(a: Allocation): Range {
    (a.basePage, a.pageCount)
  }

  /** The node storage with its two kinds of list spelled out: who owns each node, the nodes of
      each process in list order, and the nodes to reuse. */
  datatype Table = Table(nodes: seq<Node>, free: Option<nat>, owner: seq<Option<nat>>,
                         lists: map<nat, seq<nat>>, spare: seq<nat>)

  // ---- linked lists in the node storage ----

  ghost function LinkAt(c: seq<nat>, k: nat): Option<nat> {
    if k < |c| then Some(c[k]) else None
  }

  ghost predicate Differ(c: seq<nat>, j: nat, k: nat) {
    j < k < |c| ==> c[j] != c[k]
  }

  ghost predicate Distinct(c: seq<nat>) {
    forall j: nat, k: nat {:trigger Differ(c, j, k)} :: Differ(c, j, k)
  }

  lemma AllDiffer(c: seq<nat>)
    requires Distinct(c)
    ensures forall j: nat, k: nat :: j < k < |c| ==> c[j] != c[k]
  {
    forall j: nat, k: nat | j < k < |c| ensures c[j] != c[k] {
      assert Differ(c, j, k);
    }
  }

  ghost predicate InStorage(nodes: seq<Node>, c: seq<nat>) {
    forall k: nat :: k < |c| ==> c[k] < |nodes|
  }

  ghost predicate LinkedAt(nodes: seq<Node>, c: seq<nat>, k: nat) {
    k < |c| && c[k] < |nodes| ==> nodes[c[k]].next == LinkAt(c, k + 1)
  }

  /** The nodes `c` are linked one to the next, and the last one to nothing. */
  ghost predicate Chain(nodes: seq<Node>, c: seq<nat>) {
    && InStorage(nodes, c) && Distinct(c)
    && forall k: nat {:trigger LinkedAt(nodes, c, k)} :: LinkedAt(nodes, c, k)
  }

  ghost function ListOf(lists: map<nat, seq<nat>>, pid: nat): seq<nat> {
    if pid in lists then lists[pid] else []
  }

  ghost predicate OnList(t: Table, i: nat)
    requires i < |t.owner|
  {
    match t.owner[i]
    case None => i in t.spare
    case Some(pid) => i in ListOf(t.lists, pid)
  }

  /** Every node is on the spare list or on the list of its owner, and on no other. */
  ghost predicate Owned(t: Table) {
    && |t.owner| == |t.nodes|
    && (forall i: nat {:trigger OnList(t, i)} :: i < |t.owner| ==> OnList(t, i))
    && (forall k: nat :: k < |t.spare| ==> t.spare[k] < |t.owner| && t.owner[t.spare[k]].None?)
    && (forall pid: nat, k: nat :: k < |ListOf(t.lists, pid)| ==>
          ListOf(t.lists, pid)[k] < |t.owner| && t.owner[ListOf(t.lists, pid)[k]] == Some(pid))
  }

  ghost predicate Sound(t: Table) {
    && Owned(t) && t.free == LinkAt(t.spare, 0) && Chain(t.nodes, t.spare)
    && forall pid: nat :: Chain(t.nodes, ListOf(t.lists, pid))
  }

  // ---- the two list operations ----

  ghost function SetList(lists: map<nat, seq<nat>>, pid: nat, c: seq<nat>): map<nat, seq<nat>> {
    if c == [] then lists - {pid} else lists[pid := c]
  }

  ghost function Without<T>(c: seq<T>, k: nat): seq<T>
    requires k < |c|
  {
    c[..k] + c[k + 1..]
  }

  /** The node a new allocation takes. */
  ghost function Fresh(t: Table): nat {
    if t.free.Some? then t.free.value else |t.nodes|
  }

  ghost function Put<T>(s: seq<T>, i: nat, x: T): seq<T> {
    if i < |s| then s[i := x] else s + [x]
  }

  ghost function Pushed(t: Table, pid: nat, a: Allocation): Table
    requires Sound(t)
  {
    var x, c := Fresh(t), ListOf(t.lists, pid);
    Table(Put(t.nodes, x, Node(a, LinkAt(c, 0))),
          if t.free.Some? then assert LinkedAt(t.nodes, t.spare, 0); t.nodes[x].next else None,
          Put(t.owner, x, Some(pid)), t.lists[pid := [x] + c], if t.free.Some? then t.spare[1..] else [])
  }

  ghost function Relink(nodes: seq<Node>, c: seq<nat>, k: nat): seq<Node>
    requires k < |c| && InStorage(nodes, c)
  {
    if k == 0 then nodes else nodes[c[k - 1] := nodes[c[k - 1]].(next := nodes[c[k]].next)]
  }

  ghost function Recycled(nodes: seq<Node>, i: nat, free: Option<nat>): seq<Node>
    requires i < |nodes|
  {
    nodes[i := nodes[i].(next := free)]
  }

  /** Element `k` of one process's list becomes the first spare node. */
  ghost function Removed(t: Table, pid: nat, k: nat): Table
    requires Sound(t) && k < |ListOf(t.lists, pid)|
  {
    var c := ListOf(t.lists, pid);
    Table(Recycled(Relink(t.nodes, c, k), c[k], t.free), Some(c[k]), t.owner[c[k] := None],
          SetList(t.lists, pid, Without(c, k)), [c[k]] + t.spare)
  }

  lemma ChainTransfers(nodes: seq<Node>, nodes': seq<Node>, c: seq<nat>)
    requires Chain(nodes, c) && |nodes| <= |nodes'|
    requires forall k: nat :: k < |c| ==> nodes'[c[k]].next == nodes[c[k]].next
    ensures Chain(nodes', c)
  {
    forall k: nat ensures LinkedAt(nodes', c, k) {
      assert LinkedAt(nodes, c, k);
    }
  }

  lemma ChainPush(nodes: seq<Node>, c: seq<nat>, x: nat)
    requires Chain(nodes, c) && x !in c && x < |nodes| && nodes[x].next == LinkAt(c, 0)
    ensures Chain(nodes, [x] + c)
  {
    var d := [x] + c;
    AllDiffer(c);
    forall k: nat ensures LinkedAt(nodes, d, k) {
      if 0 < k < |d| {
        assert LinkedAt(nodes, c, k - 1) && d[k] == c[k - 1] && LinkAt(d, k + 1) == LinkAt(c, k);
      }
    }
  }

  lemma ChainTail(nodes: seq<Node>, c: seq<nat>)
    requires c != [] && Chain(nodes, c)
    ensures Chain(nodes, c[1..]) && nodes[c[0]].next == LinkAt(c[1..], 0)
  {
    assert LinkedAt(nodes, c, 0);
    AllDiffer(c);
    forall k: nat ensures LinkedAt(nodes, c[1..], k) {
      assert LinkedAt(nodes, c, k + 1) && LinkAt(c[1..], k + 1) == LinkAt(c, k + 2);
    }
  }

  /** Linking the neighbours of element `k` leaves a list without it. */
  lemma ChainUnlink(nodes: seq<Node>, c: seq<nat>, k: nat)
    requires k < |c| && Chain(nodes, c)
    ensures Chain(Relink(nodes, c, k), Without(c, k))
  {
    var d, nodes' := Without(c, k), Relink(nodes, c, k);
    AllDiffer(c);
    forall j: nat ensures LinkedAt(nodes', d, j) {
      if j < |d| {
        var i := if j < k then j else j + 1;
        assert d[j] == c[i] && LinkedAt(nodes, c, i) && LinkedAt(nodes, c, k);
        assert LinkAt(d, j + 1) == LinkAt(c, if j + 1 < k then j + 1 else j + 2);
      }
    }
  }

  lemma WithoutMembers(c: seq<nat>, k: nat)
    requires k < |c| && Distinct(c)
    ensures forall i: nat :: i in Without(c, k) <==> i in c && i != c[k]
  {
    AllDiffer(c);
    var d := Without(c, k);
    forall i: nat | i in c && i != c[k] ensures i in d {
      var j: nat :| j < |c| && c[j] == i;
      assert d[if j < k then j else j - 1] == i;
    }
    forall i: nat | i in d ensures i in c && i != c[k] {
      var j: nat :| j < |d| && d[j] == i;
      assert c[if j < k then j else j + 1] == i;
    }
  }

  lemma FreshIsSpare(t: Table)
    requires Sound(t)
    ensures Fresh(t) <= |t.nodes| && (Fresh(t) < |t.nodes| <==> t.free.Some?)
    ensures t.free.Some? ==> t.spare != [] && t.owner[Fresh(t)].None?
    ensures forall pid: nat :: Fresh(t) !in ListOf(t.lists, pid)
    ensures t.free.None? ==> t.spare == []
  {
    if t.spare != [] {
      assert t.spare[0] < |t.owner| && t.owner[t.spare[0]].None?;
    }
    forall pid: nat ensures Fresh(t) !in ListOf(t.lists, pid) {
      forall k: nat | k < |ListOf(t.lists, pid)| ensures ListOf(t.lists, pid)[k] != Fresh(t) {
        assert t.owner[ListOf(t.lists, pid)[k]] == Some(pid);
      }
    }
  }

  lemma PushedOwned(t: Table, pid: nat, a: Allocation)
    requires Sound(t)
    ensures Owned(Pushed(t, pid, a))
  {
    FreshIsSpare(t);
    AllDiffer(t.spare);
    var t', x, c := Pushed(t, pid, a), Fresh(t), ListOf(t.lists, pid);
    forall i: nat | i < |t'.owner| ensures OnList(t', i) {
      if i == x {
        assert ([x] + c)[0] == x;
      } else {
        assert OnList(t, i);
      }
    }
    forall q: nat, k: nat | k < |ListOf(t'.lists, q)|
      ensures ListOf(t'.lists, q)[k] < |t'.owner| && t'.owner[ListOf(t'.lists, q)[k]] == Some(q)
    {
      if q != pid {
        assert ListOf(t'.lists, q) == ListOf(t.lists, q);
        assert t.owner[ListOf(t.lists, q)[k]] == Some(q);
      } else if k > 0 {
        assert ListOf(t'.lists, q)[k] == c[k - 1];
        assert t.owner[ListOf(t.lists, q)[k - 1]] == Some(q);
      }
    }
  }

  /** A new allocation keeps the table sound. */
  lemma PushedSound(t: Table, pid: nat, a: Allocation)
    requires Sound(t)
    ensures Sound(Pushed(t, pid, a))
  {
    FreshIsSpare(t);
    PushedOwned(t, pid, a);
    var t', x, c := Pushed(t, pid, a), Fresh(t), ListOf(t.lists, pid);
    if t.free.Some? {
      ChainTail(t.nodes, t.spare);
      ChainTransfers(t.nodes, t'.nodes, t'.spare);
    }
    forall q: nat ensures Chain(t'.nodes, ListOf(t'.lists, q)) {
      ChainTransfers(t.nodes, t'.nodes, ListOf(t.lists, q));
      if q == pid {
        ChainPush(t'.nodes, c, x);
      }
    }
  }

  lemma RemovedOwned(t: Table, pid: nat, k: nat)
    requires Sound(t) && k < |ListOf(t.lists, pid)|
    ensures Owned(Removed(t, pid, k))
  {
    var t', c := Removed(t, pid, k), ListOf(t.lists, pid);
    WithoutMembers(c, k);
    forall i: nat | i < |t'.owner| ensures OnList(t', i) {
      assert OnList(t, i);
    }
    forall q: nat, j: nat | j < |ListOf(t'.lists, q)|
      ensures ListOf(t'.lists, q)[j] < |t'.owner| && t'.owner[ListOf(t'.lists, q)[j]] == Some(q)
    {
      if q == pid {
        assert Without(c, k)[j] == c[if j < k then j else j + 1] && Without(c, k)[j] in Without(c, k);
      } else {
        assert ListOf(t'.lists, q) == ListOf(t.lists, q);
      }
    }
  }

  /** Taking an allocation out keeps the table sound. */
  lemma RemovedSound(t: Table, pid: nat, k: nat)
    requires Sound(t) && k < |ListOf(t.lists, pid)|
    ensures Sound(Removed(t, pid, k))
  {
    RemovedOwned(t, pid, k);
    var t', c := Removed(t, pid, k), ListOf(t.lists, pid);
    var d, x := Without(c, k), c[k];
    ChainUnlink(t.nodes, c, k);
    WithoutMembers(c, k);
    assert forall j: nat :: j < |d| ==> d[j] in d;
    ChainTransfers(Relink(t.nodes, c, k), t'.nodes, d);
    ChainTransfers(t.nodes, t'.nodes, t.spare);
    ChainPush(t'.nodes, t.spare, x);
    forall q: nat ensures Chain(t'.nodes, ListOf(t'.lists, q)) {
      if q != pid {
        assert ListOf(t'.lists, q) == ListOf(t.lists, q);
        ChainTransfers(t.nodes, t'.nodes, ListOf(t.lists, q));
      } else {
        assert ListOf(t'.lists, q) == d;
      }
    }
  }

  // ---- what the table stands for ----

  ghost function Values(nodes: seq<Node>, c: seq<nat>): (r: seq<Allocation>)
    requires InStorage(nodes, c)
    ensures |r| == |c| && forall k: nat :: k < |c| ==> r[k] == nodes[c[k]].allocation
  {
    if c == [] then [] else [nodes[c[0]].allocation] + Values(nodes, c[1..])
  }

  /** The allocations of one process, newest first. */
  ghost function ForPid(t: Table, pid: nat): (r: seq<Allocation>)
    requires Sound(t)
    ensures |r| == |ListOf(t.lists, pid)|
  {
    Values(t.nodes, ListOf(t.lists, pid))
  }

  lemma SameValues(nodes: seq<Node>, nodes': seq<Node>, c: seq<nat>)
    requires InStorage(nodes, c) && InStorage(nodes', c)
    requires forall k: nat :: k < |c| ==> nodes'[c[k]].allocation == nodes[c[k]].allocation
    ensures Values(nodes', c) == Values(nodes, c)
  {
  }

  lemma ValuesPush(nodes: seq<Node>, x: nat, c: seq<nat>)
    requires InStorage(nodes, [x] + c) && InStorage(nodes, c) && x < |nodes|
    ensures Values(nodes, [x] + c) == [nodes[x].allocation] + Values(nodes, c)
  {
    assert ([x] + c)[1..] == c;
  }

  lemma ValuesWithout(nodes: seq<Node>, c: seq<nat>, k: nat)
    requires InStorage(nodes, c) && k < |c|
    ensures InStorage(nodes, Without(c, k)) && Values(nodes, Without(c, k)) == Without(Values(nodes, c), k)
  {
    var d := Without(c, k);
    forall j: nat | j < |d| ensures d[j] < |nodes| && d[j] == c[if j < k then j else j + 1] {
    }
  }

  ghost function Live(t: Table): seq<Option<Range>>
    requires |t.owner| == |t.nodes|
  {
    seq(|t.nodes|, i requires 0 <= i < |t.nodes| => if t.owner[i].Some? then Some(Key(t.nodes[i].allocation)) else None)
  }

  ghost function Occurrences(s: seq<Option<Range>>, key: Range): nat {
    if s == [] then 0 else Occurrences(s[..|s| - 1], key) + if s[|s| - 1] == Some(key) then 1 else 0
  }

  /** The number of live references to a physical range, over all processes. */
  ghost function References(t: Table, key: Range): nat
    requires |t.owner| == |t.nodes|
  {
    Occurrences(Live(t), key)
  }

  lemma {:induction false} OccurrencesUpdate(s: seq<Option<Range>>, i: nat, x: Option<Range>, key: Range)
    requires i < |s|
    ensures Occurrences(s[i := x], key) + (if s[i] == Some(key) then 1 else 0)
         == Occurrences(s, key) + (if x == Some(key) then 1 else 0)
  {
    var k := |s| - 1;
    if i == k {
      assert s[i := x][..k] == s[..k];
    } else {
      OccurrencesUpdate(s[..k], i, x, key);
      assert s[i := x][..k] == s[..k][i := x];
    }
  }

  lemma PushedList(t: Table, pid: nat, a: Allocation, q: nat)
    requires Sound(t) && Sound(Pushed(t, pid, a))
    ensures ForPid(Pushed(t, pid, a), q) == if q == pid then [a] + ForPid(t, q) else ForPid(t, q)
  {
    FreshIsSpare(t);
    var t', x, c := Pushed(t, pid, a), Fresh(t), ListOf(t.lists, q);
    forall k: nat | k < |c| ensures t'.nodes[c[k]] == t.nodes[c[k]] {
      assert c[k] in c;
    }
    SameValues(t.nodes, t'.nodes, c);
    if q == pid {
      assert ListOf(t'.lists, q) == [x] + c;
      ValuesPush(t'.nodes, x, c);
    } else {
      assert ListOf(t'.lists, q) == c;
    }
  }

  lemma PushedReferences(t: Table, pid: nat, a: Allocation, key: Range)
    requires Sound(t) && Sound(Pushed(t, pid, a))
    ensures References(Pushed(t, pid, a), key) == References(t, key) + if key == Key(a) then 1 else 0
  {
    FreshIsSpare(t);
    var t', x := Pushed(t, pid, a), Fresh(t);
    assert Live(t') == Put(Live(t), x, Some(Key(a)));
    if x < |t.nodes| {
      OccurrencesUpdate(Live(t), x, Some(Key(a)), key);
    } else {
      assert Live(t')[..x] == Live(t);
    }
  }

  /** The new allocation comes first in its process's list and adds one reference to its range;
      storage grows only when every node is live. */
  lemma PushedMeaning(t: Table, pid: nat, a: Allocation, q: nat, key: Range)
    requires Sound(t)
    ensures var t' := Pushed(t, pid, a);
            && Sound(t')
            && ForPid(t', q) == (if q == pid then [a] + ForPid(t, q) else ForPid(t, q))
            && References(t', key) == References(t, key) + (if key == Key(a) then 1 else 0)
            && |t'.nodes| == |t.nodes| + (if AllLive(t) then 1 else 0)
  {
    PushedSound(t, pid, a);
    PushedList(t, pid, a, q);
    PushedReferences(t, pid, a, key);
    SpareWhenNotAllLive(t);
  }

  lemma SpareWhenNotAllLive(t: Table)
    requires Sound(t)
    ensures AllLive(t) <==> t.free.None?
    ensures Fresh(t) < |t.nodes| <==> t.free.Some?
  {
    FreshIsSpare(t);
    if t.free.None? {
      forall i: nat | i < |t.owner| ensures t.owner[i].Some? {
        assert OnList(t, i);
      }
    }
  }

  ghost predicate AllLive(t: Table) {
    forall i: nat :: i < |t.owner| ==> t.owner[i].Some?
  }

  lemma RemovedList(t: Table, pid: nat, k: nat, q: nat)
    requires Sound(t) && k < |ListOf(t.lists, pid)| && Sound(Removed(t, pid, k))
    ensures ForPid(Removed(t, pid, k), q) == if q == pid then Without(ForPid(t, pid), k) else ForPid(t, q)
  {
    var t', c := Removed(t, pid, k), ListOf(t.lists, q);
    assert forall i: nat :: i < |t.nodes| ==> t'.nodes[i].allocation == t.nodes[i].allocation;
    SameValues(t.nodes, t'.nodes, c);
    if q == pid {
      assert ListOf(t'.lists, q) == Without(c, k);
      ValuesWithout(t'.nodes, c, k);
    } else {
      assert ListOf(t'.lists, q) == c;
    }
  }

  lemma RemovedReferences(t: Table, pid: nat, k: nat, key: Range)
    requires Sound(t) && k < |ListOf(t.lists, pid)| && Sound(Removed(t, pid, k))
    ensures References(t, key) == References(Removed(t, pid, k), key) + if key == Key(ForPid(t, pid)[k]) then 1 else 0
  {
    var t', x := Removed(t, pid, k), ListOf(t.lists, pid)[k];
    assert t.owner[ListOf(t.lists, pid)[k]] == Some(pid);
    assert Live(t') == Live(t)[x := None];
    OccurrencesUpdate(Live(t), x, None, key);
  }

  /** Exactly allocation `k` leaves its process's list, with one reference to its range. */
  lemma RemovedMeaning(t: Table, pid: nat, k: nat, q: nat, key: Range)
    requires Sound(t) && k < |ListOf(t.lists, pid)|
    ensures var t', s := Removed(t, pid, k), ForPid(t, pid);
            && Sound(t') && |t'.nodes| == |t.nodes|
            && ForPid(t', q) == (if q == pid then Without(s, k) else ForPid(t, q))
            && References(t, key) == References(t', key) + (if key == Key(s[k]) then 1 else 0)
  {
    RemovedSound(t, pid, k);
    RemovedList(t, pid, k, q);
    RemovedReferences(t, pid, k, key);
  }

  // ---- the reference index ----

  /** The counts kept for the ranges are the numbers of live nodes that name them. */
  ghost predicate Counted(counts: map<Range, nat>, t: Table)
    requires |t.owner| == |t.nodes|
  {
    forall key: Range :: CountOf(counts, key) == References(t, key) && (key in counts ==> counts[key] > 0)
  }

  ghost function CountOf(counts: map<Range, nat>, key: Range): nat {
    if key in counts then counts[key] else 0
  }

  lemma CountedPush(counts: map<Range, nat>, t: Table, pid: nat, a: Allocation)
    requires Sound(t) && Counted(counts, t)
    ensures var t' := Pushed(t, pid, a);
            Sound(t') && Counted(counts[Key(a) := CountOf(counts, Key(a)) + 1], t')
  {
    PushedSound(t, pid, a);
    forall key: Range
      ensures References(Pushed(t, pid, a), key) == References(t, key) + if key == Key(a) then 1 else 0
    {
      PushedReferences(t, pid, a, key);
    }
  }

  lemma CountedRemove(counts: map<Range, nat>, t: Table, pid: nat, k: nat)
    requires Sound(t) && Counted(counts, t) && k < |ListOf(t.lists, pid)|
    ensures var t', key := Removed(t, pid, k), Key(ForPid(t, pid)[k]);
            && Sound(t') && key in counts
            && Counted(if counts[key] == 1 then counts - {key} else counts[key := counts[key] - 1], t')
            && (counts[key] == 1 <==> References(t', key) == 0)
  {
    RemovedSound(t, pid, k);
    var key := Key(ForPid(t, pid)[k]);
    forall r: Range ensures References(t, r) == References(Removed(t, pid, k), r) + if r == key then 1 else 0 {
      RemovedReferences(t, pid, k, r);
    }
  }

  // ---- dropping all allocations of one process ----

  /** The table once every allocation of the process is gone, first to last. */
  ghost function Cleared(t: Table, pid: nat): (r: Table)
    requires Sound(t)
    ensures Sound(r)
    decreases |ListOf(t.lists, pid)|
  {
    if ListOf(t.lists, pid) == [] then t
    else FirstRemoved(t, pid); Cleared(Removed(t, pid, 0), pid)
  }

  /** What is reported of each allocation on the way. */
  ghost function Reports(t: Table, pid: nat): seq<Taken>
    requires Sound(t)
    decreases |ListOf(t.lists, pid)|
  {
    if ListOf(t.lists, pid) == [] then []
    else
      FirstRemoved(t, pid);
      var a, t' := ForPid(t, pid)[0], Removed(t, pid, 0);
      [Taken(a, References(t', Key(a)) == 0)] + Reports(t', pid)
  }

  lemma FirstRemoved(t: Table, pid: nat)
    requires Sound(t) && ListOf(t.lists, pid) != []
    ensures Sound(Removed(t, pid, 0))
    ensures ListOf(Removed(t, pid, 0).lists, pid) == ListOf(t.lists, pid)[1..]
    ensures forall q: nat :: q != pid ==> ListOf(Removed(t, pid, 0).lists, q) == ListOf(t.lists, q)
  {
    RemovedSound(t, pid, 0);
    assert Without(ListOf(t.lists, pid), 0) == ListOf(t.lists, pid)[1..];
  }

  ghost function Named(s: seq<Allocation>, key: Range): nat {
    if s == [] then 0 else (if Key(s[0]) == key then 1 else 0) + Named(s[1..], key)
  }

  lemma {:induction false} NamedZero(s: seq<Allocation>, key: Range)
    ensures Named(s, key) == 0 <==> forall j: nat :: j < |s| ==> Key(s[j]) != key
  {
    if s != [] {
      NamedZero(s[1..], key);
      assert forall j: nat :: 0 < j < |s| ==> s[j] == s[1..][j - 1];
      assert forall j: nat :: j < |s[1..]| ==> s[1..][j] == s[j + 1];
    }
  }

  /** Clearing one process takes exactly its own references away. */
  lemma {:induction false} ClearedMeaning(t: Table, pid: nat, q: nat, key: Range)
    requires Sound(t)
    ensures var t' := Cleared(t, pid);
            && ForPid(t', q) == (if q == pid then [] else ForPid(t, q))
            && References(t, key) == References(t', key) + Named(ForPid(t, pid), key)
            && |t'.nodes| == |t.nodes|
    decreases |ListOf(t.lists, pid)|
  {
    if ListOf(t.lists, pid) != [] {
      var s, t1 := ForPid(t, pid), Removed(t, pid, 0);
      FirstRemoved(t, pid);
      RemovedMeaning(t, pid, 0, q, key);
      RemovedMeaning(t, pid, 0, pid, key);
      ClearedMeaning(t1, pid, q, key);
      assert Without(s, 0) == s[1..];
    }
  }

  /** No allocation after `k` names the same range. */
  ghost predicate NamedLast(s: seq<Allocation>, k: nat)
    requires k < |s|
  {
    forall j: nat :: k < j < |s| ==> Key(s[j]) != Key(s[k])
  }

  lemma NamedLastTail(s: seq<Allocation>, k: nat)
    requires k < |s|
    ensures k > 0 ==> (NamedLast(s, k) <==> NamedLast(s[1..], k - 1))
    ensures k == 0 ==> (NamedLast(s, 0) <==> Named(s[1..], Key(s[0])) == 0)
  {
    NamedZero(s[1..], Key(s[0]));
    assert forall j: nat :: 0 < j < |s| ==> s[j] == s[1..][j - 1];
    assert forall j: nat :: j < |s[1..]| ==> s[1..][j] == s[j + 1];
  }

  /** An allocation is reported as the last of its range exactly when no reference to the range is
      left in the table and no later allocation of the process names it. */
  lemma {:induction false} ReportsMeaning(t: Table, pid: nat, k: nat)
    requires Sound(t) && k < |ListOf(t.lists, pid)|
    ensures var s, reports := ForPid(t, pid), Reports(t, pid);
            && |reports| == |s| && reports[k].allocation == s[k]
            && (reports[k].last <==> References(Cleared(t, pid), Key(s[k])) == 0 && NamedLast(s, k))
    decreases |ListOf(t.lists, pid)|
  {
    var s := ForPid(t, pid);
    ReportsTail(t, pid);
    ReportsLength(t, pid);
    NamedLastTail(s, k);
    if k == 0 {
      ClearedMeaning(Removed(t, pid, 0), pid, pid, Key(s[0]));
    } else {
      ReportsMeaning(Removed(t, pid, 0), pid, k - 1);
    }
  }

  lemma ReportsTail(t: Table, pid: nat)
    requires Sound(t) && ListOf(t.lists, pid) != []
    ensures var s, t1 := ForPid(t, pid), Removed(t, pid, 0);
            && Sound(t1) && ForPid(t1, pid) == s[1..] && |ListOf(t1.lists, pid)| == |ListOf(t.lists, pid)| - 1
            && Cleared(t, pid) == Cleared(t1, pid)
            && Reports(t, pid) == [Taken(s[0], References(t1, Key(s[0])) == 0)] + Reports(t1, pid)
  {
    FirstRemoved(t, pid);
    RemovedList(t, pid, 0, pid);
    assert Without(ForPid(t, pid), 0) == ForPid(t, pid)[1..];
  }

  lemma OneMore(s: seq<Taken>, x: Taken, r: seq<Taken>)
    ensures s + ([x] + r) == (s + [x]) + r
  {
  }

  lemma {:induction false} ReportsLength(t: Table, pid: nat)
    requires Sound(t)
    ensures |Reports(t, pid)| == |ListOf(t.lists, pid)|
    decreases |ListOf(t.lists, pid)|
  {
    if ListOf(t.lists, pid) != [] {
      FirstRemoved(t, pid);
      ReportsLength(Removed(t, pid, 0), pid);
    }
  }

  // ---- the process index ----

  /** The process index leads to the first node of every list. */
  ghost predicate Heads(heads: map<nat, nat>, lists: map<nat, seq<nat>>) {
    forall pid: nat :: LinkAt(ListOf(lists, pid), 0) == if pid in heads then Some(heads[pid]) else None
  }

  lemma HeadsSet(heads: map<nat, nat>, lists: map<nat, seq<nat>>, pid: nat, c: seq<nat>)
    requires forall q: nat :: q != pid ==> LinkAt(ListOf(lists, q), 0) == if q in heads then Some(heads[q]) else None
    ensures Heads(if c == [] then heads - {pid} else heads[pid := c[0]], SetList(lists, pid, c))
    ensures LinkAt(c, 0) == (if pid in heads then Some(heads[pid]) else None) ==> Heads(heads, SetList(lists, pid, c))
  {
    forall q: nat | q != pid ensures ListOf(SetList(lists, pid, c), q) == ListOf(lists, q) {
    }
    assert ListOf(SetList(lists, pid, c), pid) == c;
  }

  lemma HeadsCleared(heads: map<nat, nat>, lists: map<nat, seq<nat>>, lists': map<nat, seq<nat>>, pid: nat)
    requires Heads(heads, lists)
    requires forall q: nat :: ListOf(lists', q) == if q == pid then [] else ListOf(lists, q)
    ensures Heads(heads - {pid}, lists')
  {
  }

  // ---- the first allocation that matches ----

  predicate Matches(a: Allocation, baseVa: nat, pageCount: nat) {
    a.baseVa == baseVa && a.pageCount == pageCount
  }

  function FirstMatch(s: seq<Allocation>, baseVa: nat, pageCount: nat): (k: nat)
    ensures k <= |s| && (k < |s| ==> Matches(s[k], baseVa, pageCount))
    ensures forall j :: 0 <= j < k ==> !Matches(s[j], baseVa, pageCount)
  {
    if s == [] || Matches(s[0], baseVa, pageCount) then 0 else 1 + FirstMatch(s[1..], baseVa, pageCount)
  }

  lemma FirstMatchFrom(s: seq<Allocation>, baseVa: nat, pageCount: nat, k: nat)
    requires k < |s| && FirstMatch(s, baseVa, pageCount) >= k
    ensures if Matches(s[k], baseVa, pageCount) then FirstMatch(s, baseVa, pageCount) == k
            else FirstMatch(s, baseVa, pageCount) > k
  {
  }

  class PhysicalAllocations {
    const byPid: Index<nat>
    const references: Index<Range>
    var nodes: seq<Node>
    var free: Option<nat>
    ghost var owner: seq<Option<nat>>
    ghost var lists: map<nat, seq<nat>>
    ghost var spare: seq<nat>

    ghost function Model(): Table
      reads this
    {
      Table(nodes, free, owner, lists, spare)
    }

    ghost predicate ListsValid()
      reads this, byPid
    {
      byPid.Valid() && Sound(Model()) && Heads(byPid.contents, lists)
    }

    ghost predicate Valid()
      reads this, byPid, references
    {
      && (byPid as object) != references && ListsValid()
      && references.Valid() && Counted(references.contents, Model())
    }

    constructor (pidHash: nat -> nat, rangeHash: Range -> nat)
      ensures Valid() && fresh(byPid) && fresh(references)
      ensures Model() == Table([], None, [], map[], [])
    {
      byPid := new Index(pidHash);
      references := new Index(rangeHash);
      nodes, free := [], None;
      owner, lists, spare := [], map[], [];
    }

    method Count(a: Allocation) returns (n: nat)
      requires Valid()
      ensures n == References(Model(), Key(a))
    {
      var count := references.Get(Key(a));
      n := if count.Some? then count.value else 0;
      assert n == CountOf(references.contents, Key(a));
    }

    method Insert(pid: nat, a: Allocation)
      requires Valid()
      modifies this, byPid, references
      ensures Valid() && Model() == Pushed(old(Model()), pid, a)
    {
      CountedPush(references.contents, Model(), pid, a);
      AddReference(Key(a));
      Push(pid, a);
    }

    method AddReference(key: Range)
      requires references.Valid()
      modifies references
      ensures references.Valid()
      ensures references.contents == old(references.contents)[key := CountOf(old(references.contents), key) + 1]
    {
      var count := references.Get(key);
      references.Insert(key, (if count.Some? then count.value else 0) + 1);
    }

    /** Puts a node at the head of one process's list, reusing a spare node when there is one. */
    method Push(pid: nat, a: Allocation)
      requires ListsValid()
      modifies this, byPid
      ensures ListsValid() && Model() == Pushed(old(Model()), pid, a)
    {
      PushedSound(Model(), pid, a);
      FreshIsSpare(Model());
      ghost var t := Pushed(Model(), pid, a);
      HeadsSet(byPid.contents, lists, pid, t.lists[pid]);
      var head := byPid.Get(pid);
      assert head == LinkAt(ListOf(lists, pid), 0);
      var index := Store(Node(a, head));
      byPid.Insert(pid, index);
      owner, lists, spare := t.owner, t.lists, t.spare;
      assert Model() == t;
    }

    method Store(node: Node) returns (index: nat)
      requires free.Some? ==> free.value < |nodes|
      modifies this`nodes, this`free
      ensures index == (if old(free).Some? then old(free).value else old(|nodes|))
      ensures nodes == Put(old(nodes), index, node)
      ensures free == if old(free).Some? then old(nodes)[index].next else None
    {
      if free.Some? {
        index := free.value;
        free := nodes[index].next;
        nodes := nodes[index := node];
      } else {
        nodes := nodes + [node];
        index := |nodes| - 1;
      }
    }

    /** Follows one process's list to its first allocation at this address and of this size. */
    method Search(pid: nat, baseVa: nat, pageCount: nat)
      returns (next: Option<nat>, previous: Option<nat>, ghost k: nat)
      requires Valid()
      ensures k == FirstMatch(ForPid(Model(), pid), baseVa, pageCount) && next == LinkAt(ListOf(lists, pid), k)
      ensures previous == if k == 0 then None else Some(ListOf(lists, pid)[k - 1])
    {
      ghost var c, s := ListOf(lists, pid), ForPid(Model(), pid);
      k := 0;
      next := byPid.Get(pid);
      previous := None;
      assert next == LinkAt(c, 0);
      while next.Some? && !Matches(nodes[next.value].allocation, baseVa, pageCount)
        invariant k <= |c| && next == LinkAt(c, k) && previous == if k == 0 then None else Some(c[k - 1])
        invariant FirstMatch(s, baseVa, pageCount) >= k
        decreases |c| - k
      {
        assert LinkedAt(nodes, c, k) && s[k] == nodes[c[k]].allocation;
        FirstMatchFrom(s, baseVa, pageCount, k);
        k := k + 1;
        previous := next;
        next := nodes[next.value].next;
      }
      if next.Some? {
        assert s[k] == nodes[c[k]].allocation;
        FirstMatchFrom(s, baseVa, pageCount, k);
      }
    }

    method Find(pid: nat, baseVa: nat, pageCount: nat) returns (r: Option<Allocation>)
      requires Valid()
      ensures var s := ForPid(Model(), pid);
              var k := FirstMatch(s, baseVa, pageCount);
              r == if k < |s| then Some(s[k]) else None
    {
      var next, _, k := Search(pid, baseVa, pageCount);
      if next.Some? {
        return Some(nodes[next.value].allocation);
      }
      return None;
    }

    /** Removes the first such allocation of the process; `last` tells that no live reference to its
        range remains in the table. */
    method Take(pid: nat, baseVa: nat, pageCount: nat) returns (r: Option<Taken>)
      requires Valid()
      modifies this, byPid, references
      ensures Valid()
      ensures var s := old(ForPid(Model(), pid));
              var k := FirstMatch(s, baseVa, pageCount);
              if k < |s| then
                && Model() == Removed(old(Model()), pid, k)
                && r == Some(Taken(s[k], References(Model(), Key(s[k])) == 0))
              else Model() == old(Model()) && r.None?
    {
      var next, previous;
      ghost var k: nat;
      next, previous, k := Search(pid, baseVa, pageCount);
      if next.Some? {
        var taken := Remove(pid, next.value, previous, k);
        return Some(taken);
      }
      return None;
    }

    /** Takes element `k` out of one process's list. */
    method Remove(pid: nat, index: nat, previous: Option<nat>, ghost k: nat) returns (r: Taken)
      requires Valid() && k < |ListOf(lists, pid)| && index == ListOf(lists, pid)[k]
      requires previous == if k == 0 then None else Some(ListOf(lists, pid)[k - 1])
      modifies this, byPid, references
      ensures Valid() && Model() == Removed(old(Model()), pid, k)
      ensures var a := old(ForPid(Model(), pid)[k]); r == Taken(a, References(Model(), Key(a)) == 0)
    {
      ghost var t := Model();
      Unlink(pid, index, previous, k);
      r := Recycle(index, t, pid, k);
    }

    /** Links the neighbours of element `k` of a process's list to each other. */
    method Unlink(pid: nat, index: nat, previous: Option<nat>, ghost k: nat)
      requires ListsValid() && k < |ListOf(lists, pid)| && index == ListOf(lists, pid)[k]
      requires previous == if k == 0 then None else Some(ListOf(lists, pid)[k - 1])
      modifies this`nodes, byPid
      ensures byPid.Valid() && Heads(byPid.contents, SetList(lists, pid, Without(ListOf(lists, pid), k)))
      ensures nodes == Relink(old(nodes), ListOf(lists, pid), k)
    {
      ghost var c := ListOf(lists, pid);
      ghost var d := Without(c, k);
      assert LinkedAt(nodes, c, k);
      HeadsSet(byPid.contents, lists, pid, d);
      assert k == 0 ==> d == c[1..];
      assert k > 0 ==> d[0] == c[0] && LinkAt(c, 0) == Some(c[0]);
      var next := nodes[index].next;
      if previous.Some? {
        nodes := nodes[previous.value := nodes[previous.value].(next := next)];
      } else if next.Some? {
        byPid.Insert(pid, next.value);
      } else {
        var _ := byPid.Remove(pid);
      }
    }

    /** Moves an unlinked node to the spare list and drops one reference to its range. */
    method Recycle(index: nat, ghost t: Table, ghost pid: nat, ghost k: nat) returns (r: Taken)
      requires Sound(t) && k < |ListOf(t.lists, pid)| && index == ListOf(t.lists, pid)[k]
      requires Model() == t.(nodes := Relink(t.nodes, ListOf(t.lists, pid), k))
      requires references.Valid() && Counted(references.contents, t)
      modifies this, references
      ensures Sound(Model()) && Model() == Removed(t, pid, k)
      ensures references.Valid() && Counted(references.contents, Model())
      ensures var a := ForPid(t, pid)[k]; r == Taken(a, References(Model(), Key(a)) == 0)
    {
      CountedRemove(references.contents, t, pid, k);
      var a := nodes[index].allocation;
      assert a == ForPid(t, pid)[k];
      var last := DropReference(Key(a));
      nodes := nodes[index := nodes[index].(next := free)];
      free := Some(index);
      ghost var t' := Removed(t, pid, k);
      owner, lists, spare := t'.owner, t'.lists, t'.spare;
      assert Model() == t';
      return Taken(a, last);
    }

    method DropReference(key: Range) returns (last: bool)
      requires references.Valid() && key in references.contents && references.contents[key] > 0
      modifies references
      ensures references.Valid() && (last <==> old(references.contents)[key] == 1)
      ensures references.contents == if last then old(references.contents) - {key}
                                     else old(references.contents)[key := old(references.contents)[key] - 1]
    {
      var count := references.Get(key);
      last := count.value == 1;
      if last {
        var _ := references.Remove(key);
      } else {
        references.Insert(key, count.value - 1);
      }
    }

    /** Drops every allocation of the process, reporting each one and whether it was the last of its range. */
    method RemovePid(pid: nat) returns (removed: seq<Taken>)
      requires Valid()
      modifies this, byPid, references
      ensures Valid() && Model() == Cleared(old(Model()), pid) && removed == Reports(old(Model()), pid)
    {
      var next := byPid.Remove(pid);
      assert next == LinkAt(ListOf(lists, pid), 0);
      removed := RecycleAll(pid, next);
      HeadsCleared(old(byPid.contents), old(lists), lists, pid);
    }

    method RecycleAll(pid: nat, head: Option<nat>) returns (removed: seq<Taken>)
      requires references.Valid() && Sound(Model()) && Counted(references.contents, Model())
      requires head == LinkAt(ListOf(lists, pid), 0)
      modifies this, references
      ensures references.Valid() && Sound(Model()) && Counted(references.contents, Model())
      ensures Model() == Cleared(old(Model()), pid) && removed == Reports(old(Model()), pid)
      ensures forall q: nat :: ListOf(lists, q) == if q == pid then [] else ListOf(old(lists), q)
    {
      removed := [];
      var next := head;
      while next.Some?
        invariant references.Valid() && Sound(Model()) && Counted(references.contents, Model())
        invariant next == LinkAt(ListOf(lists, pid), 0)
        invariant forall q: nat :: q != pid ==> ListOf(lists, q) == ListOf(old(lists), q)
        invariant Cleared(Model(), pid) == Cleared(old(Model()), pid)
        invariant removed + Reports(Model(), pid) == Reports(old(Model()), pid)
        decreases |ListOf(lists, pid)|
      {
        var taken;
        next, taken := RecycleFirst(pid, next.value);
        OneMore(removed, taken, Reports(Model(), pid));
        removed := removed + [taken];
      }
    }

    method RecycleFirst(pid: nat, index: nat) returns (next: Option<nat>, r: Taken)
      requires references.Valid() && Sound(Model()) && Counted(references.contents, Model())
      requires ListOf(lists, pid) != [] && index == ListOf(lists, pid)[0]
      modifies this, references
      ensures references.Valid() && Sound(Model()) && Counted(references.contents, Model())
      ensures Model() == Removed(old(Model()), pid, 0) && next == LinkAt(ListOf(lists, pid), 0)
      ensures ListOf(lists, pid) == ListOf(old(lists), pid)[1..]
      ensures forall q: nat :: q != pid ==> ListOf(lists, q) == ListOf(old(lists), q)
      ensures Cleared(Model(), pid) == Cleared(old(Model()), pid)
      ensures [r] + Reports(Model(), pid) == Reports(old(Model()), pid)
    {
      FirstRemoved(Model(), pid);
      assert LinkedAt(nodes, ListOf(lists, pid), 0);
      next := nodes[index].next;
      r := Recycle(index, Model(), pid, 0);
    }
  }
}
