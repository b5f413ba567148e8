/** Directory blocks: variable length records that a linear walk reads back. */
module Ext2Directories {
  import opened Bytes
  import opened Ext2Files

  datatype Record = Record(name: seq<byte>, inode: nat, kind: byte)

  /** Names have at most 255 bytes and inode numbers 32 bits. */
  predicate Encodable(r: Record) {
    |r.name| <= 255 && r.inode < 0x1_0000_0000
  }

  /** Header and name, rounded up to a multiple of four. */
  function SpaceFor(nameLength: nat): nat {
    (8 + nameLength + 3) / 4 * 4
  }

  function RecordSize(r: Record): nat {
    SpaceFor(|r.name|)
  }

  /** The linear walk: from one record to the next by the length that each states. */
  function Walk(b: seq<byte>, at: nat): seq<Record>
    decreases |b| - at
  {
    if at + 8 > |b| then [] else
    var len, n := Get16(b, at + 4), b[at + 6];
    if len < 8 || at + 8 + n > |b| then [] else
    [Record(b[at + 8..at + 8 + n], Get32(b, at), b[at + 7])] + Walk(b, at + len)
  }

  /** Record `r` occupies `at .. to`. */
  ghost predicate RecordAt(b: seq<byte>, r: Record, at: nat, to: nat) {
    && at + RecordSize(r) <= to <= |b| && Get16(b, at + 4) == to - at
    && Get32(b, at) == r.inode && b[at + 6] == |r.name| && b[at + 7] == r.kind
    && b[at + 8..at + 8 + |r.name|] == r.name
  }

  /** A record starts on a multiple of four and stays within one block. */
  predicate InBlock(at: nat, to: nat) {
    at % 4 == 0 && at < to && at / BLOCK_SIZE == (to - 1) / BLOCK_SIZE
  }

  ghost predicate PlacedAt(b: seq<byte>, bounds: seq<nat>, records: seq<Record>, k: nat) {
    && k < |records| && |bounds| == |records| + 1
    && RecordAt(b, records[k], bounds[k], bounds[k + 1]) && InBlock(bounds[k], bounds[k + 1])
  }

  /** The records lie one behind the other, without a gap, none across a block boundary. */
  ghost predicate Tiled(b: seq<byte>, bounds: seq<nat>, records: seq<Record>) {
    && |bounds| == |records| + 1 && bounds[0] == 0 && bounds[|records|] <= |b|
    && forall k: nat {:trigger PlacedAt(b, bounds, records, k)} :: k < |records| ==> PlacedAt(b, bounds, records, k)
  }

  lemma RecordKept(b: seq<byte>, b': seq<byte>, r: Record, at: nat, to: nat, c: nat)
    requires RecordAt(b, r, at, to) && to <= c <= |b| && c <= |b'| && b[..c] == b'[..c]
    ensures RecordAt(b', r, at, to)
  {
    assert forall k :: 0 <= k < c ==> b[..c][k] == b[k] && b'[..c][k] == b'[k];
    assert b'[at + 8..at + 8 + |r.name|] == b[at + 8..at + 8 + |r.name|];
  }

  lemma {:induction false} BoundsRise(b: seq<byte>, bounds: seq<nat>, records: seq<Record>, j: nat, k: nat)
    requires Tiled(b, bounds, records) && j <= k <= |records|
    ensures bounds[j] <= bounds[k] && (j < k ==> bounds[j + 1] <= bounds[k])
    decreases k - j
  {
    if j < k {
      assert PlacedAt(b, bounds, records, j);
      BoundsRise(b, bounds, records, j + 1, k);
    }
  }

  /** One more record behind the others. */
  lemma TiledFurther(b: seq<byte>, b': seq<byte>, bounds: seq<nat>, records: seq<Record>, r: Record, to: nat)
    requires Tiled(b, bounds, records) && bounds[|records|] <= |b'| && b[..bounds[|records|]] == b'[..bounds[|records|]]
    requires RecordAt(b', r, bounds[|records|], to) && InBlock(bounds[|records|], to)
    ensures Tiled(b', bounds + [to], records + [r])
  {
    var bounds', records', n := bounds + [to], records + [r], |records|;
    forall k: nat | k < |records'| ensures PlacedAt(b', bounds', records', k) {
      if k < n {
        assert PlacedAt(b, bounds, records, k);
        BoundsRise(b, bounds, records, k, n);
        RecordKept(b, b', records[k], bounds[k], bounds[k + 1], bounds[n]);
      }
    }
  }

  /** Without its last record. */
  lemma TiledShorter(b: seq<byte>, bounds: seq<nat>, records: seq<Record>)
    requires Tiled(b, bounds, records) && |records| > 0
    ensures Tiled(b, bounds[..|records|], records[..|records| - 1])
  {
    var n := |records| - 1;
    BoundsRise(b, bounds, records, n, n + 1);
    var bounds', records' := bounds[..n + 1], records[..n];
    forall k: nat | k < n ensures PlacedAt(b, bounds', records', k) {
      assert PlacedAt(b, bounds, records, k);
    }
  }

  /** What lies behind the records does not matter. */
  lemma TiledAlike(b: seq<byte>, b': seq<byte>, bounds: seq<nat>, records: seq<Record>)
    requires Tiled(b, bounds, records)
    requires bounds[|records|] <= |b'| && b[..bounds[|records|]] == b'[..bounds[|records|]]
    ensures Tiled(b', bounds, records)
  {
    forall k: nat | k < |records| ensures PlacedAt(b', bounds, records, k) {
      assert PlacedAt(b, bounds, records, k);
      BoundsRise(b, bounds, records, k, |records|);
      RecordKept(b, b', records[k], bounds[k], bounds[k + 1], bounds[|records|]);
    }
  }

  /** The walk over a tiled directory finds exactly its records, in order. */
  lemma {:induction false} WalkReads(b: seq<byte>, bounds: seq<nat>, records: seq<Record>, k: nat)
    requires Tiled(b, bounds, records) && bounds[|records|] == |b| && k <= |records|
    ensures Walk(b, bounds[k]) == records[k..]
    decreases |records| - k
  {
    if k < |records| {
      assert PlacedAt(b, bounds, records, k);
      WalkReads(b, bounds, records, k + 1);
    }
  }

  /** Writes one record at `at`. */
  method WriteRecord(b: seq<byte>, at: nat, r: Record) returns (b': seq<byte>)
    requires Encodable(r) && at + RecordSize(r) <= |b|
    ensures |b'| == |b| && b'[..at] == b[..at] && RecordAt(b', r, at, at + RecordSize(r))
  {
    hide Put, Get32, Get16, Le32, Le16;
    var b1 := Put(b, at, Le32(r.inode));
    var b2 := Put(b1, at + 4, Le16(RecordSize(r)));
    var b3: seq<byte> := b2[at + 6 := |r.name|][at + 7 := r.kind];
    b' := Put(b3, at + 8, r.name);
    GetPut32(b, at, r.inode);
    GetPut16(b1, at + 4, RecordSize(r));
    PutKeeps(b, at, Le32(r.inode), 0, at);
    PutKeeps(b1, at + 4, Le16(RecordSize(r)), 0, at + 4);
    PutKeeps(b3, at + 8, r.name, 0, at + 8);
    SameNumbers(b1, b', at);
    SameNumbers(b2, b', at + 4);
    forall k: nat | k < |r.name| ensures b'[at + 8 + k] == r.name[k] {
      PutAt(b3, at + 8, r.name, at + 8 + k);
    }
  }

  /** Lets the record at `at` reach to `to`. */
  method Stretch(b: seq<byte>, at: nat, to: nat, ghost r: Record, ghost was: nat) returns (b': seq<byte>)
    requires RecordAt(b, r, at, was) && was <= to <= |b| && to - at < 0x1_0000
    ensures |b'| == |b| && b'[..at] == b[..at] && RecordAt(b', r, at, to)
  {
    hide Put, Get32, Get16, Le32, Le16;
    b' := Put(b, at + 4, Le16(to - at));
    GetPut16(b, at + 4, to - at);
    PutKeeps(b, at + 4, Le16(to - at), 0, at + 4);
    PutKeeps(b, at + 4, Le16(to - at), at + 6, |b|);
    SameNumbers(b, b', at);
  }

  /** Lets the last record reach to the end of the block. */
  method Close(b: seq<byte>, last: nat, ghost bounds: seq<nat>, ghost records: seq<Record>)
    returns (b': seq<byte>, ghost bounds': seq<nat>)
    requires Tiled(b, bounds, records) && |records| > 0 && bounds[|records| - 1] == last
    requires |b| % BLOCK_SIZE == 0 && |b| - BLOCK_SIZE < bounds[|records|] <= |b|
    ensures |b'| == |b| && bounds' == bounds[|records| := |b|] && Tiled(b', bounds', records)
  {
    hide RecordAt, Get16, Get32;
    ghost var n := |records| - 1;
    assert PlacedAt(b, bounds, records, n);
    b' := Stretch(b, last, last + (BLOCK_SIZE - last % BLOCK_SIZE), records[n], bounds[n + 1]);
    TiledShorter(b, bounds, records);
    TiledFurther(b, b', bounds[..n + 1], records[..n], records[n], |b|);
    bounds' := bounds[..n + 1] + [|b|];
    assert records[..n] + [records[n]] == records;
  }

  // ---- how many blocks a directory takes up ----

  /** A record that does not fit into the rest of a block starts the next one. */
  function Placed(cursor: nat, len: nat): nat {
    if cursor % BLOCK_SIZE + len > BLOCK_SIZE then BlocksFor(cursor) * BLOCK_SIZE else cursor
  }

  /** Where records with names of these lengths end when each is put behind the previous one or into the
      next block. */
  function EndOf(lengths: seq<nat>): nat {
    if lengths == [] then 0 else
    var n := |lengths| - 1;
    Placed(EndOf(lengths[..n]), SpaceFor(lengths[n])) + SpaceFor(lengths[n])
  }

  function DirectoryBlocks(lengths: seq<nat>): nat {
    BlocksFor(EndOf(lengths))
  }

  function NameLengths(records: seq<Record>): (r: seq<nat>)
    ensures |r| == |records|
  {
    seq(|records|, i requires 0 <= i < |records| => |records[i].name|)
  }

  lemma EndOfMore(records: seq<Record>, r: Record)
    ensures EndOf(NameLengths(records + [r])) == Placed(EndOf(NameLengths(records)), RecordSize(r)) + RecordSize(r)
  {
    assert NameLengths(records + [r])[..|records|] == NameLengths(records);
  }

  /** Records up to the cursor, which is in the last block. */
  ghost predicate Open(b: seq<byte>, cursor: nat, last: nat, bounds: seq<nat>, records: seq<Record>) {
    && Tiled(b, bounds, records) && bounds[|records|] == cursor && (records != [] ==> bounds[|records| - 1] == last)
    && |b| % BLOCK_SIZE == 0 && |b| - BLOCK_SIZE <= cursor < |b| && cursor % 4 == 0
  }

  lemma InLastBlock(b: nat, cursor: nat, to: nat)
    requires b % BLOCK_SIZE == 0 && b - BLOCK_SIZE <= cursor < to <= b
    ensures cursor % BLOCK_SIZE == cursor - (b - BLOCK_SIZE) && cursor / BLOCK_SIZE == (to - 1) / BLOCK_SIZE
    ensures BlocksFor(cursor) * BLOCK_SIZE == if cursor == b - BLOCK_SIZE then cursor else b
  {
  }

  lemma RoomAt(b: nat, cursor: nat, len: nat)
    requires b % BLOCK_SIZE == 0 && b - BLOCK_SIZE <= cursor < b && 8 <= len <= 268
    ensures if cursor % BLOCK_SIZE + len > BLOCK_SIZE then Placed(cursor, len) == b && b - BLOCK_SIZE < cursor
            else Placed(cursor, len) == cursor && cursor + len <= b
    ensures b % 4 == 0 && (b + BLOCK_SIZE) % BLOCK_SIZE == 0
  {
    hide BlocksFor;
    InLastBlock(b, cursor, b);
    WholeBlocks(b);
  }

  lemma WholeBlocks(b: nat)
    requires b % BLOCK_SIZE == 0
    ensures b % 4 == 0 && (b + BLOCK_SIZE) % BLOCK_SIZE == 0
  {
    var k := b / BLOCK_SIZE;
    assert b == 4 * (256 * k) && b + BLOCK_SIZE == BLOCK_SIZE * (k + 1);
  }

  lemma SizeIsMultiple(r: Record)
    ensures RecordSize(r) % 4 == 0 && 8 + |r.name| <= RecordSize(r) < 12 + |r.name|
  {
  }

  /** Turns to a new block when the record does not fit into this one. */
  method MakeRoom(b: seq<byte>, cursor: nat, last: nat, len: nat, ghost bounds: seq<nat>, ghost records: seq<Record>)
    returns (b': seq<byte>, cursor': nat, ghost bounds': seq<nat>)
    requires Open(b, cursor, last, bounds, records) && 8 <= len <= 268
    ensures Open(b', cursor', last, bounds', records) && cursor' + len <= |b'| && cursor' == Placed(cursor, len)
  {
    hide RecordAt, PlacedAt, BlocksFor, Placed;
    RoomAt(|b|, cursor, len);
    b', cursor', bounds' := b, cursor, bounds;
    if cursor % BLOCK_SIZE + len > BLOCK_SIZE {
      b', bounds' := Close(b, last, bounds, records);
      TiledAlike(b', b' + ZeroBlock(), bounds', records);
      cursor' := |b'|;
      b' := b' + ZeroBlock();
    }
  }

  lemma NextCursor(b: nat, cursor: nat, r: Record)
    requires b % BLOCK_SIZE == 0 && b - BLOCK_SIZE <= cursor && cursor % 4 == 0 && cursor + RecordSize(r) <= b
    ensures InBlock(cursor, cursor + RecordSize(r)) && (cursor + RecordSize(r)) % 4 == 0 && RecordSize(r) >= 8
    ensures (b + BLOCK_SIZE) % BLOCK_SIZE == 0
  {
    hide BlocksFor, RecordSize, InBlock;
    SizeIsMultiple(r);
    SumOfFours(cursor, RecordSize(r));
    StaysInBlock(b, cursor, cursor + RecordSize(r));
    WholeBlocks(b);
  }

  lemma SumOfFours(m: nat, n: nat)
    requires m % 4 == 0 && n % 4 == 0
    ensures (m + n) % 4 == 0
  {
    assert m + n == 4 * (m / 4 + n / 4);
  }

  lemma StaysInBlock(b: nat, cursor: nat, to: nat)
    requires b % BLOCK_SIZE == 0 && b - BLOCK_SIZE <= cursor < to <= b && cursor % 4 == 0
    ensures InBlock(cursor, to)
  {
    hide BlocksFor;
    InLastBlock(b, cursor, to);
  }

  /** Puts one record at the cursor. */
  method Append(b: seq<byte>, cursor: nat, r: Record, ghost last: nat, ghost bounds: seq<nat>,
                ghost records: seq<Record>)
    returns (b': seq<byte>, cursor': nat, ghost bounds': seq<nat>)
    requires Open(b, cursor, last, bounds, records) && Encodable(r) && cursor + RecordSize(r) <= |b|
    ensures Open(b', cursor', cursor, bounds', records + [r]) && cursor' == cursor + RecordSize(r)
  {
    hide RecordAt, PlacedAt, RecordSize, InBlock, BlocksFor;
    NextCursor(|b|, cursor, r);
    cursor' := cursor + RecordSize(r);
    b' := WriteRecord(b, cursor, r);
    TiledFurther(b, b', bounds, records, r, cursor');
    bounds' := bounds + [cursor'];
    if cursor' == |b'| {
      TiledAlike(b', b' + ZeroBlock(), bounds', records + [r]);
      b' := b' + ZeroBlock();
    }
  }

  /** The contents of a directory, in blocks. */
  method DirectoryData(records: seq<Record>) returns (b: seq<byte>)
    requires forall r :: r in records ==> Encodable(r)
    ensures |b| == BLOCK_SIZE * DirectoryBlocks(NameLengths(records)) && Walk(b, 0) == records
    ensures exists bounds {:trigger Tiled(b, bounds, records)} :: Tiled(b, bounds, records) && bounds[|records|] == |b|
  {
    hide RecordAt, PlacedAt, Walk, Placed;
    b := ZeroBlock();
    var cursor: nat, last: nat := 0, 0;
    ghost var bounds: seq<nat> := [0];
    for i := 0 to |records|
      invariant Open(b, cursor, last, bounds, records[..i]) && cursor == EndOf(NameLengths(records[..i]))
    {
      assert Encodable(records[i]);
      b, cursor, bounds := MakeRoom(b, cursor, last, RecordSize(records[i]), bounds, records[..i]);
      var at := cursor;
      b, cursor, bounds := Append(b, cursor, records[i], last, bounds, records[..i]);
      last := at;
      EndOfMore(records[..i], records[i]);
      assert records[..i + 1] == records[..i] + [records[i]];
    }
    assert records[..|records|] == records;
    InLastBlock(|b|, cursor, |b|);
    if cursor % BLOCK_SIZE == 0 {
      TiledAlike(b, b[..cursor], bounds, records);
      b := b[..cursor];
    } else {
      b, bounds := Close(b, last, bounds, records);
    }
    WalkReads(b, bounds, records, 0);
  }
}
