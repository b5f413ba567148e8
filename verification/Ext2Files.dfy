/** How an ext2 image stores the bytes of an inode: direct, single indirect and double indirect block
    pointers, and the reader that follows them. An image is a sequence of 1 KiB blocks. */
module Ext2Files {
  import opened Bytes
  import opened Numbers

  const BLOCK_SIZE: nat := 1024
  const DIRECT: nat := 12
  const NUMBERS_PER_BLOCK: nat := 256
  const INDIRECT: nat := 268
  const MAX_FILE_BLOCKS: nat := 65804

  type Image = seq<seq<byte>>

  predicate Blocks(disk: Image) {
    forall b :: 0 <= b < |disk| ==> |disk[b]| == BLOCK_SIZE
  }

  function ZeroBlock(): (r: seq<byte>)
    ensures |r| == BLOCK_SIZE
  {
    seq(BLOCK_SIZE, _ => 0)
  }

  function BlocksFor(bytes: nat): nat {
    (bytes + BLOCK_SIZE - 1) / BLOCK_SIZE
  }

  /** Chunk `i` of the data, as one block holds it. */
  function Chunk(data: seq<byte>, i: nat): (r: seq<byte>)
    requires i < BlocksFor(|data|)
    ensures 0 < |r| <= BLOCK_SIZE
  {
    var from := BLOCK_SIZE * i;
    if from + BLOCK_SIZE <= |data| then data[from..from + BLOCK_SIZE] else data[from..]
  }

  // ---- the reader ----

  /** A block of the image; a pointer that leads nowhere finds zeros. */
  function BlockAt(disk: Image, b: nat): (r: seq<byte>)
    requires Blocks(disk)
    ensures |r| == BLOCK_SIZE
  {
    if b < |disk| then disk[b] else seq(BLOCK_SIZE, _ => 0)
  }

  /** The block number that the inode at `off` of block `ib` gives for block `index` of the file. */
  function BlockNumber(disk: Image, ib: nat, off: nat, index: nat): nat
    requires Blocks(disk) && off + 128 <= BLOCK_SIZE && index < MAX_FILE_BLOCKS
  {
    var inode := BlockAt(disk, ib);
    if index < DIRECT then Get32(inode, off + 40 + index * 4)
    else if index < INDIRECT then Get32(BlockAt(disk, Get32(inode, off + 88)), (index - DIRECT) * 4)
    else
      var second := Get32(BlockAt(disk, Get32(inode, off + 92)), (index - INDIRECT) / NUMBERS_PER_BLOCK * 4);
      Get32(BlockAt(disk, second), (index - INDIRECT) % NUMBERS_PER_BLOCK * 4)
  }

  /** The first `n` blocks of the file. */
  function Collected(disk: Image, ib: nat, off: nat, n: nat): (r: seq<byte>)
    requires Blocks(disk) && off + 128 <= BLOCK_SIZE && n <= MAX_FILE_BLOCKS
    ensures |r| == BLOCK_SIZE * n
  {
    if n == 0 then [] else Collected(disk, ib, off, n - 1) + BlockAt(disk, BlockNumber(disk, ib, off, n - 1))
  }

  /** All bytes of the inode at `off` of block `ib`. */
  function Contents(disk: Image, ib: nat, off: nat): seq<byte>
    requires Blocks(disk) && off + 128 <= BLOCK_SIZE
  {
    var size := Get32(BlockAt(disk, ib), off + 4);
    if BlocksFor(size) > MAX_FILE_BLOCKS then [] else Collected(disk, ib, off, BlocksFor(size))[..size]
  }

  // ---- a stored file ----

  datatype File = File(data: seq<byte>, blocks: seq<nat>, single: nat, seconds: seq<nat>, double: nat)

  /** The pointers `from .. to` of the file are listed in block `b`. */
  ghost predicate ListedIn(disk: Image, b: nat, pointers: seq<nat>, from: nat, to: nat)
    requires Blocks(disk)
  {
    && b < |disk| && from <= to <= |pointers| && to - from <= NUMBERS_PER_BLOCK
    && forall i :: from <= i < to ==> Get32(disk[b], (i - from) * 4) == pointers[i]
  }

  ghost predicate ChunkAt(disk: Image, data: seq<byte>, blocks: seq<nat>, i: nat)
    requires Blocks(disk)
  {
    i < |blocks| && i < BlocksFor(|data|) && blocks[i] < |disk| && disk[blocks[i]][..|Chunk(data, i)|] == Chunk(data, i)
  }

  ghost predicate ChunkIn(disk: Image, f: File, i: nat)
    requires Blocks(disk)
  {
    ChunkAt(disk, f.data, f.blocks, i)
  }

  /** The second-level pointer block `j` lists its part of the file. */
  ghost predicate SecondAt(disk: Image, blocks: seq<nat>, seconds: seq<nat>, j: nat)
    requires Blocks(disk)
  {
    j < |seconds| && INDIRECT + NUMBERS_PER_BLOCK * j <= |blocks|
    && ListedIn(disk, seconds[j], blocks, INDIRECT + NUMBERS_PER_BLOCK * j,
                Min(INDIRECT + NUMBERS_PER_BLOCK * (j + 1), |blocks|))
  }

  ghost predicate SecondIn(disk: Image, f: File, j: nat)
    requires Blocks(disk)
  {
    SecondAt(disk, f.blocks, f.seconds, j)
  }

  /** How many second-level blocks a file needs. */
  function SecondsFor(blocks: nat): nat {
    if blocks <= INDIRECT then 0 else (blocks - INDIRECT + NUMBERS_PER_BLOCK - 1) / NUMBERS_PER_BLOCK
  }

  /** Blocks that a file of `blocks` data blocks takes up, pointer blocks included. */
  function Needed(blocks: nat): nat {
    blocks + (if blocks > DIRECT then 1 else 0) + (if blocks > INDIRECT then SecondsFor(blocks) + 1 else 0)
  }

  /** The file's data and pointer blocks are in the image. */
  ghost predicate Laid(disk: Image, f: File)
    requires Blocks(disk)
  {
    && |f.blocks| == BlocksFor(|f.data|) <= MAX_FILE_BLOCKS
    && (forall i {:trigger ChunkIn(disk, f, i)} :: 0 <= i < |f.blocks| ==> ChunkIn(disk, f, i))
    && (|f.blocks| > DIRECT ==> ListedIn(disk, f.single, f.blocks, DIRECT, Min(INDIRECT, |f.blocks|)))
    && (|f.blocks| > INDIRECT ==>
          && |f.seconds| == SecondsFor(|f.blocks|)
          && ListedIn(disk, f.double, f.seconds, 0, |f.seconds|)
          && forall j {:trigger SecondIn(disk, f, j)} :: 0 <= j < |f.seconds| ==> SecondIn(disk, f, j))
  }

  /** The inode at `off` of block `ib` describes the file. */
  /** Pointer `i` of an inode is not needed for `n` blocks. */
  predicate Spare(i: int, n: nat) {
    (i < 12 && n <= i) || (i == 12 && n <= 12) || (i == 13 && n <= 268) || i == 14
  }

  ghost predicate SparesZero(inode: seq<byte>, off: nat, n: nat)
    requires |inode| == BLOCK_SIZE && off + 128 <= BLOCK_SIZE
  {
    forall i :: 0 <= i < 15 && Spare(i, n) ==> Get32(inode, off + 40 + i * 4) == 0
  }

  ghost predicate Described(inode: seq<byte>, off: nat, f: File)
    requires |inode| == BLOCK_SIZE && off + 128 <= BLOCK_SIZE
  {
    && Get32(inode, off + 4) == |f.data|
    && (forall i :: 0 <= i < DIRECT && i < |f.blocks| ==> Get32(inode, off + 40 + i * 4) == f.blocks[i])
    && (|f.blocks| > DIRECT ==> Get32(inode, off + 88) == f.single)
    && (|f.blocks| > INDIRECT ==> Get32(inode, off + 92) == f.double)
    && SparesZero(inode, off, |f.blocks|)
  }

  /** The reader finds every block of the file, whichever way it is pointed to. */
  lemma ReaderFindsBlock(disk: Image, ib: nat, off: nat, f: File, index: nat)
    requires Blocks(disk) && ib < |disk| && off + 128 <= BLOCK_SIZE && Laid(disk, f) && Described(disk[ib], off, f)
    requires index < |f.blocks|
    ensures BlockNumber(disk, ib, off, index) == f.blocks[index]
  {
    hide Get32;
    if index >= INDIRECT {
      var j, k := (index - INDIRECT) / NUMBERS_PER_BLOCK, (index - INDIRECT) % NUMBERS_PER_BLOCK;
      assert index == INDIRECT + NUMBERS_PER_BLOCK * j + k;
      assert j < |f.seconds|;
      assert SecondIn(disk, f, j);
      assert f.seconds[j] == Get32(disk[f.double], (j - 0) * 4);
      assert f.blocks[index] == Get32(disk[f.seconds[j]], (index - (INDIRECT + NUMBERS_PER_BLOCK * j)) * 4);
    }
  }

  lemma {:induction false} CollectsData(disk: Image, ib: nat, off: nat, f: File, n: nat)
    requires Blocks(disk) && ib < |disk| && off + 128 <= BLOCK_SIZE && Laid(disk, f) && Described(disk[ib], off, f)
    requires n <= |f.blocks|
    ensures Collected(disk, ib, off, n)[..Min(BLOCK_SIZE * n, |f.data|)] == f.data[..Min(BLOCK_SIZE * n, |f.data|)]
  {
    hide Described, BlockNumber, ListedIn, SecondIn, Chunk, Get32;
    if n > 0 {
      CollectsData(disk, ib, off, f, n - 1);
      ReaderFindsBlock(disk, ib, off, f, n - 1);
      assert ChunkIn(disk, f, n - 1);
      OneMoreChunk(f.data, Collected(disk, ib, off, n - 1), disk[f.blocks[n - 1]], n - 1);
    }
  }

  /** The reader returns exactly the bytes that were stored, for every size up to the limit. */
  lemma ReadsBack(disk: Image, ib: nat, off: nat, f: File)
    requires Blocks(disk) && ib < |disk| && off + 128 <= BLOCK_SIZE && Laid(disk, f) && Described(disk[ib], off, f)
    ensures Contents(disk, ib, off) == f.data
  {
    CollectsData(disk, ib, off, f, |f.blocks|);
    assert f.data[..|f.data|] == f.data;
  }

  /** The reader as a loop. */
  method ReadFile(disk: Image, ib: nat, off: nat) returns (result: seq<byte>)
    requires Blocks(disk) && off + 128 <= BLOCK_SIZE && BlocksFor(Get32(BlockAt(disk, ib), off + 4)) <= MAX_FILE_BLOCKS
    ensures result == Contents(disk, ib, off)
  {
    hide Get32, BlockNumber, BlockAt;
    var size := Get32(BlockAt(disk, ib), off + 4);
    result := [];
    for index := 0 to BlocksFor(size)
      invariant result == Collected(disk, ib, off, index)
    {
      result := result + BlockAt(disk, BlockNumber(disk, ib, off, index));
    }
    result := result[..size];
  }

  lemma OneMoreChunk(data: seq<byte>, got: seq<byte>, block: seq<byte>, i: nat)
    requires i < BlocksFor(|data|) && |got| == BLOCK_SIZE * i && |block| == BLOCK_SIZE
    requires got[..Min(BLOCK_SIZE * i, |data|)] == data[..Min(BLOCK_SIZE * i, |data|)]
    requires block[..|Chunk(data, i)|] == Chunk(data, i)
    ensures (got + block)[..Min(BLOCK_SIZE * (i + 1), |data|)] == data[..Min(BLOCK_SIZE * (i + 1), |data|)]
  {
    var n := Min(BLOCK_SIZE * (i + 1), |data|);
    assert data[..n] == data[..BLOCK_SIZE * i] + Chunk(data, i);
    assert (got + block)[..n] == got + block[..|Chunk(data, i)|];
    assert got[..Min(BLOCK_SIZE * i, |data|)] == got;
  }

  // ---- what a stored file depends on ----

  ghost function Owned(f: File): set<nat> {
    (set b | b in f.blocks) + (if |f.blocks| > DIRECT then {f.single} else {})
    + (if |f.blocks| > INDIRECT then (set b | b in f.seconds) + {f.double} else {})
  }

  /** The numbers of the first `n` data blocks, as a reader finds them. */
  ghost function DataNumbers(disk: Image, ib: nat, off: nat, n: nat): set<nat>
    requires Blocks(disk) && off + 128 <= BLOCK_SIZE && n <= MAX_FILE_BLOCKS
  {
    set i | 0 <= i < n :: BlockNumber(disk, ib, off, i)
  }

  /** The first `n` numbers listed in block `b`. */
  ghost function ListedNumbers(disk: Image, b: nat, n: nat): set<nat>
    requires Blocks(disk) && n <= NUMBERS_PER_BLOCK
  {
    set j | 0 <= j < n :: Get32(BlockAt(disk, b), j * 4)
  }

  /** All blocks that a reader of the inode at `off` of block `ib` goes through: data and pointer blocks. */
  ghost function Reached(disk: Image, ib: nat, off: nat): set<nat>
    requires Blocks(disk) && off + 128 <= BLOCK_SIZE
  {
    var inode := BlockAt(disk, ib);
    var n := BlocksFor(Get32(inode, off + 4));
    if n > MAX_FILE_BLOCKS then {} else
    DataNumbers(disk, ib, off, n)
    + (if n > DIRECT then {Get32(inode, off + 88)} else {})
    + (if n > INDIRECT then ListedNumbers(disk, Get32(inode, off + 92), SecondsFor(n)) + {Get32(inode, off + 92)}
       else {})
  }

  lemma ListedAreMembers(disk: Image, b: nat, pointers: seq<nat>)
    requires Blocks(disk) && ListedIn(disk, b, pointers, 0, |pointers|)
    ensures ListedNumbers(disk, b, |pointers|) == set p | p in pointers
  {
    hide Get32;
    forall j: nat | j < |pointers| ensures Get32(BlockAt(disk, b), j * 4) == pointers[j] {
      assert Get32(disk[b], (j - 0) * 4) == pointers[j];
    }
    forall p | p in pointers ensures p in ListedNumbers(disk, b, |pointers|) {
      var j: nat :| j < |pointers| && pointers[j] == p;
      assert Get32(BlockAt(disk, b), j * 4) == p;
    }
  }

  lemma NumbersAreBlocks(disk: Image, ib: nat, off: nat, f: File)
    requires Blocks(disk) && ib < |disk| && off + 128 <= BLOCK_SIZE && Laid(disk, f) && Described(disk[ib], off, f)
    ensures DataNumbers(disk, ib, off, |f.blocks|) == set b | b in f.blocks
  {
    hide BlockNumber, ChunkIn, SecondIn, ListedIn, Described;
    forall i: nat | i < |f.blocks| ensures BlockNumber(disk, ib, off, i) == f.blocks[i] {
      ReaderFindsBlock(disk, ib, off, f, i);
    }
    forall b | b in f.blocks ensures b in DataNumbers(disk, ib, off, |f.blocks|) {
      var i: nat :| i < |f.blocks| && f.blocks[i] == b;
      assert BlockNumber(disk, ib, off, i) == b;
    }
  }

  /** The reader goes through exactly the blocks that the file owns. */
  lemma ReachesOwned(disk: Image, ib: nat, off: nat, f: File)
    requires Blocks(disk) && ib < |disk| && off + 128 <= BLOCK_SIZE && Laid(disk, f) && Described(disk[ib], off, f)
    ensures Reached(disk, ib, off) == Owned(f)
  {
    hide Get32, DataNumbers, ListedNumbers, ChunkIn, SecondIn, ListedIn;
    NumbersAreBlocks(disk, ib, off, f);
    if |f.blocks| > INDIRECT {
      ListedAreMembers(disk, f.double, f.seconds);
    }
  }

  /** The blocks are as they were. */
  ghost predicate SameBlocks(disk: Image, disk': Image, blocks: set<nat>) {
    |disk'| == |disk| && forall b :: b in blocks && b < |disk| ==> disk'[b] == disk[b]
  }

  /** Writes to other blocks leave a stored file as it was. */
  lemma LaidKept(disk: Image, disk': Image, f: File)
    requires Blocks(disk) && Blocks(disk') && Laid(disk, f) && SameBlocks(disk, disk', Owned(f))
    ensures Laid(disk', f)
  {
    forall i | 0 <= i < |f.blocks| ensures ChunkIn(disk', f, i) {
      assert ChunkIn(disk, f, i) && f.blocks[i] in f.blocks;
    }
    if |f.blocks| > INDIRECT {
      forall j | 0 <= j < |f.seconds| ensures SecondIn(disk', f, j) {
        assert SecondIn(disk, f, j) && f.seconds[j] in f.seconds;
      }
    }
  }

  lemma DescribedKept(inode: seq<byte>, inode': seq<byte>, off: nat, f: File)
    requires |inode| == BLOCK_SIZE && off + 128 <= BLOCK_SIZE && Described(inode, off, f)
    requires SameRange(inode, inode', off, off + 128)
    ensures Described(inode', off, f)
  {
  }
}
