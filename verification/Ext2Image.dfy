/** The finished ext2 image: superblocks, group descriptors, and what a reader of the image finds. */
module Ext2Images {
  import opened Bytes
  import opened Options
  import opened Numbers
  import opened Ext2Files
  import opened Ext2Disks

  // ---- counting free blocks and inodes ----

  /** Zero bits among the first `n`. */
  ghost function ZeroBits(b: seq<byte>, n: nat): nat
    requires |b| == BLOCK_SIZE && n <= BLOCKS_PER_GROUP
  {
    if n == 0 then 0 else ZeroBits(b, n - 1) + (if Bit(b, n - 1) then 0 else 1)
  }

  lemma {:induction false} ZerosBetween(b: seq<byte>, taken: nat, count: nat, n: nat)
    requires |b| == BLOCK_SIZE && BitmapExact(b, taken, count) && n <= BLOCKS_PER_GROUP && taken <= count
    ensures ZeroBits(b, n) == (if n <= taken then 0 else Min(n, count) - taken)
  {
    if n > 0 {
      ZerosBetween(b, taken, count, n - 1);
    }
  }

  function FreeInodes(groups: seq<Group>): int {
    if groups == [] then 0 else FreeInodes(groups[..|groups| - 1]) + INODES_PER_GROUP - groups[|groups| - 1].usedInodes
  }

  /** Zero bits of the block bitmaps of the first `n` groups. */
  ghost function AllZeros(disk: Image, gdt: nat, n: nat): nat
    requires Blocks(disk)
  {
    if n == 0 then 0
    else AllZeros(disk, gdt, n - 1) + ZeroBits(BlockAt(disk, BlockBitmap(gdt, n - 1)), BLOCKS_PER_GROUP)
  }

  /** Zero bits of the inode bitmaps of the first `n` groups. */
  ghost function AllInodeZeros(disk: Image, gdt: nat, n: nat): nat
    requires Blocks(disk)
  {
    if n == 0 then 0 else
    AllInodeZeros(disk, gdt, n - 1) + ZeroBits(BlockAt(disk, InodeBitmap(gdt, n - 1)), BLOCKS_PER_GROUP)
  }

  lemma GroupZeros(disk: Image, groups: seq<Group>, gdt: nat, g: nat)
    requires Blocks(disk) && GroupAt(disk, groups, gdt, g) && g < |groups|
    ensures BlockBitmap(gdt, g) < |disk| && groups[g].usedBlocks <= groups[g].count <= BLOCKS_PER_GROUP
    ensures ZeroBits(disk[BlockBitmap(gdt, g)], BLOCKS_PER_GROUP) == groups[g].count - groups[g].usedBlocks
  {
    ZerosBetween(disk[BlockBitmap(gdt, g)], groups[g].usedBlocks, groups[g].count, BLOCKS_PER_GROUP);
  }

  /** The free count of the superblock is the number of zero bits in all the block bitmaps. */
  lemma {:induction false} FreeBlocksAreZeros(disk: Image, groups: seq<Group>, gdt: nat, n: nat)
    requires Blocks(disk) && n <= |groups|
    requires forall g {:trigger GroupAt(disk, groups, gdt, g)} :: GroupAt(disk, groups, gdt, g)
    ensures forall g: nat :: g < n ==> BlockBitmap(gdt, g) < |disk|
    ensures FreeBlocks(groups[..n]) == AllZeros(disk, gdt, n) <= n * BLOCKS_PER_GROUP
  {
    if n > 0 {
      FreeBlocksAreZeros(disk, groups, gdt, n - 1);
      assert GroupAt(disk, groups, gdt, n - 1);
      GroupZeros(disk, groups, gdt, n - 1);
      assert groups[..n][..n - 1] == groups[..n - 1];
    }
  }

  lemma InodeZeros(disk: Image, groups: seq<Group>, gdt: nat, inodes: nat, g: nat)
    requires Blocks(disk) && InodesAt(disk, groups, gdt, inodes, g) && g < |groups|
    ensures InodeBitmap(gdt, g) < |disk| && groups[g].usedInodes <= INODES_PER_GROUP
    ensures ZeroBits(disk[InodeBitmap(gdt, g)], BLOCKS_PER_GROUP) == INODES_PER_GROUP - groups[g].usedInodes
  {
    ZerosBetween(disk[InodeBitmap(gdt, g)], groups[g].usedInodes, INODES_PER_GROUP, BLOCKS_PER_GROUP);
  }

  /** The free inode count of the superblock is the number of zero bits in all the inode bitmaps. */
  lemma {:induction false} FreeInodesAreZeros(disk: Image, groups: seq<Group>, gdt: nat, inodes: nat, n: nat)
    requires Blocks(disk) && n <= |groups| && InodesExact(disk, groups, gdt, inodes)
    ensures FreeInodes(groups[..n]) == AllInodeZeros(disk, gdt, n) <= n * INODES_PER_GROUP
  {
    if n > 0 {
      FreeInodesAreZeros(disk, groups, gdt, inodes, n - 1);
      assert InodesAt(disk, groups, gdt, inodes, n - 1);
      InodeZeros(disk, groups, gdt, inodes, n - 1);
      assert groups[..n][..n - 1] == groups[..n - 1];
    }
  }

  // ---- superblock and descriptors ----

  /** Fields of the superblock behind its counts. */
  function ConstantFields(volume: seq<byte>, group: nat): seq<Field> {
    [Field(20, Le32(1)), Field(32, Le32(BLOCKS_PER_GROUP)), Field(36, Le32(BLOCKS_PER_GROUP)),
     Field(40, Le32(INODES_PER_GROUP)),
     Field(76, Le32(1)), Field(84, Le32(11)), Field(96, Le32(2)), Field(54, Le16(0xffff)), Field(56, Le16(0xef53)),
     Field(58, Le16(1)),
     Field(60, Le16(1)), Field(88, Le16(INODE_SIZE)), Field(104, UUID), Field(120, volume), Field(90, Le16(group))]
  }

  function SuperblockFields(inodes: nat, blocks: nat, freeBlocks: nat, freeInodes: nat, volume: seq<byte>,
                            group: nat): seq<Field> {
    [Field(0, Le32(inodes)), Field(4, Le32(blocks)), Field(12, Le32(freeBlocks)), Field(16, Le32(freeInodes))]
    + ConstantFields(volume, group)
  }

  lemma ConstantsBehind(volume: seq<byte>, group: nat)
    requires |volume| == 16
    ensures forall f :: f in ConstantFields(volume, group) ==> 20 <= f.offset && f.offset + |f.bytes| <= BLOCK_SIZE
  {
    var fields := ConstantFields(volume, group);
    forall i | 0 <= i < |fields| ensures 20 <= fields[i].offset && fields[i].offset + |fields[i].bytes| <= BLOCK_SIZE {
    }
  }

  const UUID: seq<byte> := [82, 117, 115, 116, 69, 120, 116, 50, 73, 109, 97, 103, 101, 48, 48, 49]

  lemma SuperblockFits(inodes: nat, blocks: nat, freeBlocks: nat, freeInodes: nat, volume: seq<byte>, group: nat)
    requires |volume| == 16
    ensures Fit(SuperblockFields(inodes, blocks, freeBlocks, freeInodes, volume, group), BLOCK_SIZE)
  {
    hide ConstantFields;
    ConstantsBehind(volume, group);
  }

  function Superblock(inodes: nat, blocks: nat, freeBlocks: nat, freeInodes: nat, volume: seq<byte>,
                      group: nat): (r: seq<byte>)
    requires |volume| == 16
    ensures |r| == BLOCK_SIZE
  {
    SuperblockFits(inodes, blocks, freeBlocks, freeInodes, volume, group);
    PutAll(ZeroBlock(), SuperblockFields(inodes, blocks, freeBlocks, freeInodes, volume, group))
  }

  lemma {:induction false} ClearBehind(fields: seq<Field>, i: nat, lo: nat, hi: nat)
    requires i < |fields|
    requires forall k :: i < k < |fields| ==> hi <= fields[k].offset || fields[k].offset + |fields[k].bytes| <= lo
    ensures Clear(fields[i + 1..], lo, hi)
  {
    forall f | f in fields[i + 1..] ensures hi <= f.offset || f.offset + |f.bytes| <= lo {
      var k: nat :| k < |fields[i + 1..]| && fields[i + 1..][k] == f;
      assert f == fields[i + 1 + k];
    }
  }

  /** Where the fields are and how long they are. */
  lemma FieldPlaces(inodes: nat, blocks: nat, freeBlocks: nat, freeInodes: nat, volume: seq<byte>, group: nat)
    requires |volume| == 16
    ensures var fields := SuperblockFields(inodes, blocks, freeBlocks, freeInodes, volume, group);
            && |fields| == 19
            && forall k :: 0 <= k < 19 ==> fields[k].offset == OFFSETS[k] && |fields[k].bytes| == LENGTHS[k]
  {
  }

  const OFFSETS: seq<nat> := [0, 4, 12, 16, 20, 32, 36, 40, 76, 84, 96, 54, 56, 58, 60, 88, 104, 120, 90]

  const LENGTHS: seq<nat> := [4, 4, 4, 4, 4, 4, 4, 4, 4, 4, 4, 2, 2, 2, 2, 2, 16, 16, 2]

  /** No two fields overlap. */
  lemma PlacesApart(i: nat, k: nat)
    requires i < k < 19
    ensures OFFSETS[i] + LENGTHS[i] <= OFFSETS[k] || OFFSETS[k] + LENGTHS[k] <= OFFSETS[i]
  {
  }

  lemma FieldReads(inodes: nat, blocks: nat, freeBlocks: nat, freeInodes: nat, volume: seq<byte>, group: nat, i: nat)
    requires |volume| == 16 && i < 19
    ensures var fields := SuperblockFields(inodes, blocks, freeBlocks, freeInodes, volume, group);
            && |fields| == 19 && OFFSETS[i] + LENGTHS[i] <= BLOCK_SIZE
            && Superblock(inodes, blocks, freeBlocks, freeInodes, volume, group)[OFFSETS[i]..OFFSETS[i] + LENGTHS[i]]
               == fields[i].bytes
  {
    hide SuperblockFields, PutAll;
    var fields := SuperblockFields(inodes, blocks, freeBlocks, freeInodes, volume, group);
    FieldPlaces(inodes, blocks, freeBlocks, freeInodes, volume, group);
    SuperblockFits(inodes, blocks, freeBlocks, freeInodes, volume, group);
    forall k | i < k < 19
      ensures OFFSETS[i] + LENGTHS[i] <= fields[k].offset || fields[k].offset + |fields[k].bytes| <= OFFSETS[i]
    {
      PlacesApart(i, k);
    }
    ClearBehind(fields, i, OFFSETS[i], OFFSETS[i] + LENGTHS[i]);
    FieldStays(ZeroBlock(), fields, i);
  }

  /** What a superblock says: how many inodes and blocks there are, how many are free, where data starts,
      how large groups are, that it is of revision 1 with types in its directories and which inode is the
      first of its own, ... */
  ghost predicate WordsSay(b: seq<byte>, inodes: nat, blocks: nat, freeBlocks: nat, freeInodes: nat) {
    && |b| == BLOCK_SIZE
    && Get32(b, 0) == inodes && Get32(b, 4) == blocks && Get32(b, 12) == freeBlocks && Get32(b, 16) == freeInodes
    && Get32(b, 20) == 1 && Get32(b, 32) == 8192 && Get32(b, 36) == 8192 && Get32(b, 40) == 1024
    && Get32(b, 76) == 1 && Get32(b, 84) == 11 && Get32(b, 96) == 2
  }

  /** ... that it is a clean ext2 file system that is never checked for its age, how large inodes are, in which
      group this copy is, and what it is called. */
  ghost predicate HalvesSay(b: seq<byte>, volume: seq<byte>, group: nat) {
    && |b| == BLOCK_SIZE
    && Get16(b, 54) == 0xffff && Get16(b, 56) == 0xef53 && Get16(b, 58) == 1 && Get16(b, 60) == 1
    && Get16(b, 88) == 128 && Get16(b, 90) == group
    && b[104..120] == UUID && b[120..136] == volume
  }

  ghost predicate SuperblockSays(b: seq<byte>, inodes: nat, blocks: nat, freeBlocks: nat, freeInodes: nat,
                                 volume: seq<byte>, group: nat) {
    WordsSay(b, inodes, blocks, freeBlocks, freeInodes) && HalvesSay(b, volume, group)
  }

  lemma NumberReads(inodes: nat, blocks: nat, freeBlocks: nat, freeInodes: nat, volume: seq<byte>, group: nat, i: nat,
                    v: nat)
    requires |volume| == 16 && i < 19
    requires |SuperblockFields(inodes, blocks, freeBlocks, freeInodes, volume, group)| == 19
    ensures var f, s := SuperblockFields(inodes, blocks, freeBlocks, freeInodes, volume, group)[i].bytes,
                        Superblock(inodes, blocks, freeBlocks, freeInodes, volume, group);
            && (LENGTHS[i] == 4 && v < 0x1_0000_0000 && f == Le32(v) ==> Get32(s, OFFSETS[i]) == v)
            && (LENGTHS[i] == 2 && v < 0x1_0000 && f == Le16(v) ==> Get16(s, OFFSETS[i]) == v)
  {
    hide Get32, Get16, Le32, Le16, Superblock, SuperblockFields;
    FieldReads(inodes, blocks, freeBlocks, freeInodes, volume, group, i);
    var f, s := SuperblockFields(inodes, blocks, freeBlocks, freeInodes, volume, group)[i].bytes,
                Superblock(inodes, blocks, freeBlocks, freeInodes, volume, group);
    if LENGTHS[i] == 4 && v < 0x1_0000_0000 && f == Le32(v) {
      Read32(s, OFFSETS[i], v);
    }
    if LENGTHS[i] == 2 && v < 0x1_0000 && f == Le16(v) {
      Read16(s, OFFSETS[i], v);
    }
  }

  lemma WordsRead(inodes: nat, blocks: nat, freeBlocks: nat, freeInodes: nat, volume: seq<byte>, group: nat)
    requires |volume| == 16 && inodes < 0x1_0000_0000 && blocks < 0x1_0000_0000
    requires freeBlocks < 0x1_0000_0000 && freeInodes < 0x1_0000_0000
    ensures WordsSay(Superblock(inodes, blocks, freeBlocks, freeInodes, volume, group), inodes, blocks, freeBlocks,
                     freeInodes)
  {
    hide Get32, Get16, Le32, Le16, Superblock;
    NumberReads(inodes, blocks, freeBlocks, freeInodes, volume, group, 0, inodes);
    NumberReads(inodes, blocks, freeBlocks, freeInodes, volume, group, 1, blocks);
    NumberReads(inodes, blocks, freeBlocks, freeInodes, volume, group, 2, freeBlocks);
    NumberReads(inodes, blocks, freeBlocks, freeInodes, volume, group, 3, freeInodes);
    NumberReads(inodes, blocks, freeBlocks, freeInodes, volume, group, 4, 1);
    NumberReads(inodes, blocks, freeBlocks, freeInodes, volume, group, 5, 8192);
    NumberReads(inodes, blocks, freeBlocks, freeInodes, volume, group, 6, 8192);
    NumberReads(inodes, blocks, freeBlocks, freeInodes, volume, group, 7, 1024);
    NumberReads(inodes, blocks, freeBlocks, freeInodes, volume, group, 8, 1);
    NumberReads(inodes, blocks, freeBlocks, freeInodes, volume, group, 9, 11);
    NumberReads(inodes, blocks, freeBlocks, freeInodes, volume, group, 10, 2);
  }

  lemma HalvesRead(inodes: nat, blocks: nat, freeBlocks: nat, freeInodes: nat, volume: seq<byte>, group: nat)
    requires |volume| == 16 && group < 0x1_0000
    ensures HalvesSay(Superblock(inodes, blocks, freeBlocks, freeInodes, volume, group), volume, group)
  {
    hide Get32, Get16, Le32, Le16, Superblock;
    NumberReads(inodes, blocks, freeBlocks, freeInodes, volume, group, 11, 0xffff);
    NumberReads(inodes, blocks, freeBlocks, freeInodes, volume, group, 12, 0xef53);
    NumberReads(inodes, blocks, freeBlocks, freeInodes, volume, group, 13, 1);
    NumberReads(inodes, blocks, freeBlocks, freeInodes, volume, group, 14, 1);
    NumberReads(inodes, blocks, freeBlocks, freeInodes, volume, group, 15, 128);
    NumberReads(inodes, blocks, freeBlocks, freeInodes, volume, group, 18, group);
    FieldReads(inodes, blocks, freeBlocks, freeInodes, volume, group, 16);
    FieldReads(inodes, blocks, freeBlocks, freeInodes, volume, group, 17);
  }

  /** All of the superblock can be read back. */
  lemma SuperblockReads(inodes: nat, blocks: nat, freeBlocks: nat, freeInodes: nat, volume: seq<byte>, group: nat)
    requires |volume| == 16 && inodes < 0x1_0000_0000 && blocks < 0x1_0000_0000 && group < 0x1_0000
    requires freeBlocks < 0x1_0000_0000 && freeInodes < 0x1_0000_0000
    ensures SuperblockSays(Superblock(inodes, blocks, freeBlocks, freeInodes, volume, group), inodes, blocks,
                           freeBlocks, freeInodes, volume, group)
  {
    WordsRead(inodes, blocks, freeBlocks, freeInodes, volume, group);
    HalvesRead(inodes, blocks, freeBlocks, freeInodes, volume, group);
  }

  /** A group descriptor, written field by field at `base`. */
  function Descriptor(b: seq<byte>, base: nat, k: Group): (r: seq<byte>)
    requires base + 32 <= |b| && k.usedBlocks <= k.count && k.usedInodes <= INODES_PER_GROUP
    ensures |r| == |b|
  {
    var r1 := Put(b, base, Le32(k.blockBitmap));
    var r2 := Put(r1, base + 4, Le32(k.inodeBitmap));
    var r3 := Put(r2, base + 8, Le32(k.inodeTable));
    var r4 := Put(r3, base + 12, Le16(k.count - k.usedBlocks));
    var r5 := Put(r4, base + 14, Le16(INODES_PER_GROUP - k.usedInodes));
    Put(r5, base + 16, Le16(k.directories))
  }

  ghost predicate Describable(k: Group) {
    && k.usedBlocks <= k.count <= BLOCKS_PER_GROUP && k.usedInodes <= INODES_PER_GROUP
    && k.blockBitmap < 0x1_0000_0000 && k.inodeBitmap < 0x1_0000_0000 && k.inodeTable < 0x1_0000_0000
    && k.directories < 0x1_0000
  }

  /** A descriptor says where the metadata of its group is, how much of the group is free and how many
      directories it holds. */
  ghost predicate DescriptorAt(table: Image, groups: seq<Group>, g: nat)
    requires Blocks(table)
  {
    g < |groups| && g / 32 < |table| &&
    var b, base, k := table[g / 32], g % 32 * 32, groups[g];
    && Get32(b, base) == k.blockBitmap && Get32(b, base + 4) == k.inodeBitmap && Get32(b, base + 8) == k.inodeTable
    && Get16(b, base + 12) == k.count - k.usedBlocks && Get16(b, base + 14) == INODES_PER_GROUP - k.usedInodes
    && Get16(b, base + 16) == k.directories
  }

  /** A write behind `at` keeps what is in front of it, and what is behind `hi`. */
  lemma PutBehind(b: seq<byte>, at: nat, s: seq<byte>, lo: nat, hi: nat)
    requires lo <= at && at + |s| <= hi <= |b|
    ensures SameRange(b, Put(b, at, s), 0, at) && SameRange(b, Put(b, at, s), 0, lo)
    ensures SameRange(b, Put(b, at, s), hi, |b|)
  {
    PutKeeps(b, at, s, 0, at);
    PutKeeps(b, at, s, hi, |b|);
  }

  lemma DescriptorReads(b: seq<byte>, base: nat, k: Group)
    requires |b| == BLOCK_SIZE && base + 32 <= BLOCK_SIZE && Describable(k)
    ensures var r := Descriptor(b, base, k);
            && Get32(r, base) == k.blockBitmap && Get32(r, base + 4) == k.inodeBitmap
            && Get32(r, base + 8) == k.inodeTable
            && Get16(r, base + 12) == k.count - k.usedBlocks && Get16(r, base + 14) == INODES_PER_GROUP - k.usedInodes
            && Get16(r, base + 16) == k.directories
            && SameRange(b, r, 0, base) && SameRange(b, r, base + 32, BLOCK_SIZE)
  {
    hide Put, Le32, Le16, Get32, Get16;
    var r1 := Put(b, base, Le32(k.blockBitmap));
    var r2 := Put(r1, base + 4, Le32(k.inodeBitmap));
    var r3 := Put(r2, base + 8, Le32(k.inodeTable));
    var r4 := Put(r3, base + 12, Le16(k.count - k.usedBlocks));
    var r5 := Put(r4, base + 14, Le16(INODES_PER_GROUP - k.usedInodes));
    var r6 := Put(r5, base + 16, Le16(k.directories));
    GetPut32(b, base, k.blockBitmap);
    GetPut32(r1, base + 4, k.inodeBitmap);
    GetPut32(r2, base + 8, k.inodeTable);
    GetPut16(r3, base + 12, k.count - k.usedBlocks);
    GetPut16(r4, base + 14, INODES_PER_GROUP - k.usedInodes);
    GetPut16(r5, base + 16, k.directories);
    PutBehind(b, base, Le32(k.blockBitmap), base, base + 32);
    PutBehind(r1, base + 4, Le32(k.inodeBitmap), base, base + 32);
    PutBehind(r2, base + 8, Le32(k.inodeTable), base, base + 32);
    PutBehind(r3, base + 12, Le16(k.count - k.usedBlocks), base, base + 32);
    PutBehind(r4, base + 14, Le16(INODES_PER_GROUP - k.usedInodes), base, base + 32);
    PutBehind(r5, base + 16, Le16(k.directories), base, base + 32);
    SameNumbers(r1, r6, base);
    SameNumbers(r2, r6, base + 4);
    SameNumbers(r3, r6, base + 8);
    SameNumbers(r4, r6, base + 12);
    SameNumbers(r5, r6, base + 14);
  }

  lemma OtherDescriptor(table: Image, content: seq<byte>, groups: seq<Group>, g: nat, h: nat)
    requires Blocks(table) && |content| == BLOCK_SIZE && g / 32 < |table| && g != h && DescriptorAt(table, groups, h)
    requires SameRange(table[g / 32], content, 0, g % 32 * 32)
    requires SameRange(table[g / 32], content, g % 32 * 32 + 32, BLOCK_SIZE)
    ensures DescriptorAt(table[g / 32 := content], groups, h)
  {
    if g / 32 == h / 32 {
      assert h % 32 * 32 + 32 <= g % 32 * 32 || g % 32 * 32 + 32 <= h % 32 * 32;
    }
  }

  /** The group descriptor table. */
  method Descriptors(groups: seq<Group>, gdt: nat) returns (table: Image)
    requires |groups| <= 32 * gdt && forall k :: k in groups ==> Describable(k)
    ensures Blocks(table) && |table| == gdt
    ensures forall g: nat {:trigger DescriptorAt(table, groups, g)} :: g < |groups| ==> DescriptorAt(table, groups, g)
  {
    hide Descriptor, DescriptorAt, SameRange, Get32, Get16;
    table := seq(gdt, _ => ZeroBlock());
    for i := 0 to |groups|
      invariant Blocks(table) && |table| == gdt
      invariant forall g: nat {:trigger DescriptorAt(table, groups, g)} :: g < i ==> DescriptorAt(table, groups, g)
    {
      assert groups[i] in groups;
      DescriptorReads(table[i / 32], i % 32 * 32, groups[i]);
      var content := Descriptor(table[i / 32], i % 32 * 32, groups[i]);
      var table' := table[i / 32 := content];
      NewDescriptor(table', groups, i);
      forall g: nat | g < i ensures DescriptorAt(table', groups, g) {
        OtherDescriptor(table, content, groups, i, g);
      }
      table := table';
    }
  }

  lemma NewDescriptor(table: Image, groups: seq<Group>, g: nat)
    requires Blocks(table) && g < |groups| && g / 32 < |table|
    requires var b, base, k := table[g / 32], g % 32 * 32, groups[g];
             && Get32(b, base) == k.blockBitmap && Get32(b, base + 4) == k.inodeBitmap
             && Get32(b, base + 8) == k.inodeTable
             && Get16(b, base + 12) == k.count - k.usedBlocks && Get16(b, base + 14) == INODES_PER_GROUP - k.usedInodes
             && Get16(b, base + 16) == k.directories
    ensures DescriptorAt(table, groups, g)
  {
  }

  // ---- the copies in every group ----

  /** Superblock copies and descriptor tables come first in a group. */
  predicate IsHead(gdt: nat, b: nat) {
    b >= 1 && (b - 1) % BLOCKS_PER_GROUP <= gdt
  }

  ghost predicate OnlyHeads(disk: Image, disk': Image, gdt: nat) {
    |disk'| == |disk| && forall b: nat :: b < |disk| && !IsHead(gdt, b) ==> disk'[b] == disk[b]
  }

  /** Writing the copies disturbs no bitmap, no inode and no file. */
  lemma HeadsKeepAll(disk: Image, disk': Image, groups: seq<Group>, gdt: nat, allocGroup: nat, used: set<nat>,
                     inodes: nat, files: map<nat, Stored>)
    requires Shape(disk, groups, gdt, allocGroup, used) && InodesExact(disk, groups, gdt, inodes)
    requires Intact(disk, gdt, used, files)
    requires Blocks(disk') && OnlyHeads(disk, disk', gdt) && Meta(gdt) <= BLOCKS_PER_GROUP
    ensures Shape(disk', groups, gdt, allocGroup, used) && InodesExact(disk', groups, gdt, inodes)
    ensures Intact(disk', gdt, used, files)
  {
    hide BitmapExact, FileAt;
    forall g ensures GroupAt(disk', groups, gdt, g) {
      assert GroupAt(disk, groups, gdt, g);
      if 0 <= g < |groups| { InGroup(g, 1 + gdt); }
    }
    forall b: nat ensures UsedAt(groups, gdt, used, b) {
      assert UsedAt(groups, gdt, used, b);
    }
    forall g: nat | g < |groups| && InodeBitmap(gdt, g) < |disk|
      ensures disk'[InodeBitmap(gdt, g)] == disk[InodeBitmap(gdt, g)]
    {
      InGroup(g, 2 + gdt);
    }
    InodesKept(disk, disk', groups, groups, gdt, inodes);
    forall b: nat | b < |disk| && (b in used || IsTable(gdt, b)) ensures disk'[b] == disk[b] {
      assert UsedAt(groups, gdt, used, b);
    }
    IntactKept(disk, disk', gdt, used, used, files);
  }

  /** Group `g` starts with this superblock and this table. */
  ghost predicate HeadAt(disk: Image, superblock: seq<byte>, table: Image, g: nat) {
    && Start(g) + |table| < |disk| && disk[Start(g)] == superblock
    && forall j: nat :: j < |table| ==> disk[Start(g) + 1 + j] == table[j]
  }

  /** The image with the head of one group written. */
  method WithHead(disk: Image, gdt: nat, g: nat, superblock: seq<byte>, table: Image) returns (r: Image)
    requires Blocks(disk) && Blocks(table) && |superblock| == BLOCK_SIZE && |table| == gdt < BLOCKS_PER_GROUP
    requires Start(g) + gdt < |disk|
    ensures Blocks(r) && OnlyHeads(disk, r, gdt) && HeadAt(r, superblock, table, g)
    ensures forall b: nat :: b < |disk| && !(Start(g) <= b <= Start(g) + gdt) ==> r[b] == disk[b]
  {
    r := disk[Start(g) := superblock];
    for i := 0 to gdt
      invariant |r| == |disk| && Blocks(r) && r[Start(g)] == superblock
      invariant forall j: nat :: j < i ==> r[Start(g) + 1 + j] == table[j]
      invariant forall b: nat :: b < |disk| && !(Start(g) <= b <= Start(g) + gdt) ==> r[b] == disk[b]
    {
      r := r[Start(g) + 1 + i := table[i]];
    }
    forall b: nat | b < |disk| && !IsHead(gdt, b) ensures r[b] == disk[b] {
      HeadsAreHeads(gdt, g, b);
    }
  }

  lemma HeadsAreHeads(gdt: nat, g: nat, b: nat)
    requires gdt < BLOCKS_PER_GROUP
    ensures Start(g) <= b <= Start(g) + gdt ==> IsHead(gdt, b)
  {
    if Start(g) <= b <= Start(g) + gdt {
      InGroup(g, b - Start(g));
    }
  }

  lemma OtherHead(disk: Image, disk': Image, superblock: seq<byte>, table: Image, g: nat, h: nat, gdt: nat)
    requires |disk'| == |disk| && |table| == gdt < BLOCKS_PER_GROUP && HeadAt(disk, superblock, table, h) && h < g
    requires forall b: nat :: b < |disk| && !(Start(g) <= b <= Start(g) + gdt) ==> disk'[b] == disk[b]
    ensures HeadAt(disk', superblock, table, h)
  {
  }

  lemma TableFits(total: nat)
    requires total > 0
    ensures GroupCount(total) <= 32 * GdtBlocks(total)
  {
  }

  /** What `Finish` needs to know of the disk. */
  lemma FinishFits(disk: Image, groups: seq<Group>, gdt: nat, allocGroup: nat, used: set<nat>, inodes: nat)
    requires Shape(disk, groups, gdt, allocGroup, used) && InodesExact(disk, groups, gdt, inodes)
    requires 1 < |disk| < 0x1_0000_0000 && |groups| == GroupCount(|disk|) <= 65535 && gdt == GdtBlocks(|disk|)
    requires forall k :: k in groups ==> k.directories < 0x1_0000
    ensures |groups| <= 32 * gdt && (forall k :: k in groups ==> Describable(k))
    ensures 0 <= FreeBlocks(groups) < 0x1_0000_0000 && 0 <= FreeInodes(groups) < 0x1_0000_0000
    ensures forall g: nat :: g < |groups| ==> Start(g) + gdt < |disk| && BlockBitmap(gdt, g) < |disk|
    ensures FreeBlocks(groups) == AllZeros(disk, gdt, |groups|)
    ensures FreeInodes(groups) == AllInodeZeros(disk, gdt, |groups|)
  {
    hide BitmapExact, AllZeros, AllInodeZeros, FreeBlocks, FreeInodes, GdtBlocks, GroupCount;
    TableFits(|disk|);
    FreeBlocksAreZeros(disk, groups, gdt, |groups|);
    FreeInodesAreZeros(disk, groups, gdt, inodes, |groups|);
    assert groups[..|groups|] == groups;
    forall g: nat | g < |groups| ensures Describable(groups[g]) && Start(g) + gdt < |disk| {
      assert GroupAt(disk, groups, gdt, g) && InodesAt(disk, groups, gdt, inodes, g);
    }
  }

  /** The superblock copy of group `g`. */
  function Copy(disk: Image, groups: seq<Group>, volume: seq<byte>, g: nat): (r: seq<byte>)
    requires |volume| == 16 && FreeBlocks(groups) >= 0 && FreeInodes(groups) >= 0
    ensures |r| == BLOCK_SIZE
  {
    Superblock(|groups| * INODES_PER_GROUP, |disk|, FreeBlocks(groups), FreeInodes(groups), volume, g)
  }

  ghost predicate HeadsWritten(disk: Image, groups: seq<Group>, volume: seq<byte>, table: Image, n: nat)
    requires |volume| == 16 && FreeBlocks(groups) >= 0 && FreeInodes(groups) >= 0
  {
    forall h: nat {:trigger HeadAt(disk, Copy(disk, groups, volume, h), table, h)} ::
      h < n ==> HeadAt(disk, Copy(disk, groups, volume, h), table, h)
  }

  lemma HeadWritten(disk: Image, disk': Image, groups: seq<Group>, volume: seq<byte>, table: Image, g: nat)
    requires |volume| == 16 && FreeBlocks(groups) >= 0 && FreeInodes(groups) >= 0 && |disk'| == |disk|
    requires |table| < BLOCKS_PER_GROUP
    requires HeadsWritten(disk, groups, volume, table, g) && HeadAt(disk', Copy(disk, groups, volume, g), table, g)
    requires forall b: nat :: b < |disk| && !(Start(g) <= b <= Start(g) + |table|) ==> disk'[b] == disk[b]
    ensures HeadsWritten(disk', groups, volume, table, g + 1)
  {
    hide HeadAt;
    forall h: nat | h < g + 1 ensures HeadAt(disk', Copy(disk', groups, volume, h), table, h) {
      assert Copy(disk', groups, volume, h) == Copy(disk, groups, volume, h);
      if h < g {
        assert HeadAt(disk, Copy(disk, groups, volume, h), table, h);
        OtherHead(disk, disk', Copy(disk, groups, volume, h), table, g, h, |table|);
      }
    }
  }

  /** Writes superblock and descriptors into every group. */
  method Finish(d: Disk, volume: seq<byte>)
    requires d.Valid() && |volume| == 16 && forall k :: k in d.groups ==> k.directories < 0x1_0000
    modifies d`disk
    ensures d.Valid() && FreeBlocks(d.groups) >= 0 && FreeInodes(d.groups) >= 0
    ensures exists table: Image {:trigger HeadsWritten(d.disk, d.groups, volume, table, |d.groups|)} ::
              && Blocks(table) && HeadsWritten(d.disk, d.groups, volume, table, |d.groups|)
              && |table| == d.gdt && forall g: nat {:trigger DescriptorAt(table, d.groups, g)} ::
                   g < |d.groups| ==> DescriptorAt(table, d.groups, g)
  {
    hide Intact, Shape, HeadAt, Copy, DescriptorAt, InodesExact, HeadsWritten, GdtBlocks, FreeBlocks, FreeInodes,
         IsHead;
    ShapeBlocks(d.disk, d.groups, d.gdt, d.allocGroup, d.used);
    FinishFits(d.disk, d.groups, d.gdt, d.allocGroup, d.used, d.inodes);
    ghost var disk0 := d.disk;
    var table := Descriptors(d.groups, d.gdt);
    NoHeadsYet(d.disk, d.groups, volume, table);
    for g := 0 to |d.groups|
      invariant |d.disk| == |disk0| && Blocks(d.disk) && OnlyHeads(disk0, d.disk, d.gdt)
      invariant HeadsWritten(d.disk, d.groups, volume, table, g)
    {
      ghost var before := d.disk;
      var head := Copy(d.disk, d.groups, volume, g);
      d.disk := WithHead(d.disk, d.gdt, g, head, table);
      HeadWritten(before, d.disk, d.groups, volume, table, g);
    }
    HeadsKeepAll(disk0, d.disk, d.groups, d.gdt, d.allocGroup, d.used, d.inodes, d.files);
  }

  lemma ShapeBlocks(disk: Image, groups: seq<Group>, gdt: nat, allocGroup: nat, used: set<nat>)
    requires Shape(disk, groups, gdt, allocGroup, used)
    ensures Blocks(disk)
  {
  }

  lemma NoHeadsYet(disk: Image, groups: seq<Group>, volume: seq<byte>, table: Image)
    requires |volume| == 16 && FreeBlocks(groups) >= 0 && FreeInodes(groups) >= 0
    ensures HeadsWritten(disk, groups, volume, table, 0)
  {
  }

  // ---- building and reading back ----

  /** An inode to be written: the builder numbers the root 2 and the others from 11 on. */
  datatype Entry = Entry(inode: nat, mode: u16, links: u16, data: seq<byte>, symlink: bool, directory: bool)

  predicate Numbered(entries: seq<Entry>) {
    forall k :: 0 <= k < |entries| ==> entries[k].inode == if k == 0 then 2 else k + 10
  }

  /** Where a reader looks for an inode: it asks the descriptor table behind the first superblock. */
  function ReaderInodeBlock(image: Image, number: nat): nat
    requires Blocks(image) && number >= 1
  {
    var g := (number - 1) / INODES_PER_GROUP;
    Get32(BlockAt(image, 2 + g / 32), g % 32 * 32 + 8) + (number - 1) % INODES_PER_GROUP / 8
  }

  /** A reader of the image finds exactly the contents of the entry, and its mode, length, links and sectors;
      pointers that it does not need are zero. */
  ghost predicate Reads(image: Image, e: Entry)
    requires Blocks(image) && e.inode >= 1
  {
    var ib, off := ReaderInodeBlock(image, e.inode), InodeOffset(e.inode);
    && Headed(BlockAt(image, ib), off, e.mode, |e.data|, e.links, 2 * Demand(|e.data|, e.symlink))
    && if e.symlink && |e.data| < 60 then BlockAt(image, ib)[off + 40..off + 40 + |e.data|] == e.data
       else Contents(image, ib, off) == e.data && SparesZero(BlockAt(image, ib), off, BlocksFor(|e.data|))
  }

  /** Through the copy in the first group the reader finds every inode. */
  lemma ReaderFindsInode(disk: Image, groups: seq<Group>, gdt: nat, volume: seq<byte>, table: Image, number: nat)
    requires Blocks(disk) && Blocks(table) && |volume| == 16 && FreeBlocks(groups) >= 0 && FreeInodes(groups) >= 0
    requires HeadsWritten(disk, groups, volume, table, |groups|) && |table| == gdt && |groups| <= 32 * gdt
    requires forall g: nat {:trigger DescriptorAt(table, groups, g)} :: g < |groups| ==> DescriptorAt(table, groups, g)
    requires forall g {:trigger GroupAt(disk, groups, gdt, g)} :: GroupAt(disk, groups, gdt, g)
    requires 1 <= number <= |groups| * INODES_PER_GROUP
    ensures ReaderInodeBlock(disk, number) == InodeBlock(gdt, number)
  {
    hide Get32, Copy;
    var g := (number - 1) / INODES_PER_GROUP;
    assert HeadAt(disk, Copy(disk, groups, volume, 0), table, 0) && DescriptorAt(table, groups, g);
    assert GroupAt(disk, groups, gdt, g);
    assert disk[Start(0) + 1 + g / 32] == table[g / 32];
  }

  lemma EntryReads(disk: Image, gdt: nat, used: set<nat>, files: map<nat, Stored>, e: Entry)
    requires Blocks(disk) && FileAt(disk, gdt, used, files, e.inode) && e.inode in files
    requires Text(files[e.inode]) == e.data
    requires files[e.inode].Inline? <==> e.symlink && |e.data| < 60
    requires files[e.inode].mode == e.mode && files[e.inode].links == e.links
    requires e.inode >= 1 && ReaderInodeBlock(disk, e.inode) == InodeBlock(gdt, e.inode)
    ensures Reads(disk, e)
  {
    hide Get32, Contents, InodeBlock, InodeOffset, ReaderInodeBlock, Headed;
    if files[e.inode].InBlocks? {
      ReadsBack(disk, InodeBlock(gdt, e.inode), InodeOffset(e.inode), files[e.inode].file);
    }
  }

  /** The first `k` entries are in the files of the disk. */
  ghost predicate Entered(files: map<nat, Stored>, entries: seq<Entry>, k: nat) {
    k <= |entries| && forall i :: 0 <= i < k ==>
      && entries[i].inode in files && Text(files[entries[i].inode]) == entries[i].data
      && (files[entries[i].inode].Inline? <==> entries[i].symlink && |entries[i].data| < 60)
      && files[entries[i].inode].mode == entries[i].mode && files[entries[i].inode].links == entries[i].links
  }

  lemma OneMoreEntry(files: map<nat, Stored>, files': map<nat, Stored>, entries: seq<Entry>, k: nat)
    requires Entered(files, entries, k) && k < |entries| && Numbered(entries)
    requires entries[k].inode in files' && Text(files'[entries[k].inode]) == entries[k].data
    requires files'[entries[k].inode].Inline? <==> entries[k].symlink && |entries[k].data| < 60
    requires files'[entries[k].inode].mode == entries[k].mode && files'[entries[k].inode].links == entries[k].links
    requires forall n :: n in files && n != entries[k].inode ==> n in files' && files'[n] == files[n]
    ensures Entered(files', entries, k + 1)
  {
  }

  /** Blocks that the contents of all entries take up. */
  function Demands(entries: seq<Entry>): nat {
    if entries == [] then 0 else
    var n := |entries| - 1;
    Demands(entries[..n]) + Demand(|entries[n].data|, entries[n].symlink)
  }

  lemma {:induction false} DemandsGrow(entries: seq<Entry>, k: nat)
    requires k <= |entries|
    ensures Demands(entries[..k]) <= Demands(entries)
  {
    if k < |entries| {
      var n := |entries| - 1;
      DemandsGrow(entries[..n], k);
      assert entries[..n][..k] == entries[..k];
    } else {
      assert entries[..k] == entries;
    }
  }

  predicate DirectoryIn(e: Entry, g: nat) {
    e.directory && e.inode >= 1 && (e.inode - 1) / INODES_PER_GROUP == g
  }

  /** Directories among the entries whose inodes are in group `g`. */
  function DirectoriesIn(entries: seq<Entry>, g: nat): nat {
    if entries == [] then 0 else
    var n := |entries| - 1;
    DirectoriesIn(entries[..n], g) + (if DirectoryIn(entries[n], g) then 1 else 0)
  }

  /** There are no more directories in a group than inodes, and the root. */
  lemma {:induction false} FewDirectories(entries: seq<Entry>, g: nat)
    requires Numbered(entries)
    ensures DirectoriesIn(entries, g) <= 1 + Share(|entries| + 9, g) <= 1 + INODES_PER_GROUP
  {
    if entries != [] {
      FewDirectories(entries[..|entries| - 1], g);
    }
  }

  predicate EntryFits(e: Entry, groupCount: nat) {
    e.inode <= groupCount * INODES_PER_GROUP && |e.data| <= MAX_FILE_BYTES
  }

  /** When an image can be built: every group has room for its metadata, there are enough inodes, no file
      is too long, and all contents together fit into the blocks that are left. */
  predicate Buildable(total: nat, entries: seq<Entry>) {
    && LayoutFits(total) && Demands(entries) <= Capacity(total)
    && forall k :: 0 <= k < |entries| ==> EntryFits(entries[k], GroupCount(total))
  }

  /** What is written in group `g` about the image: a superblock with the true numbers of all and of free
      blocks and inodes, a copy of the descriptor table, and in the table the place of the group's bitmaps and inodes
      and the true numbers of its free blocks, free inodes and directories. */
  ghost predicate GroupBooks(image: Image, gdt: nat, groups: nat, volume: seq<byte>, g: nat, directories: nat)
    requires Blocks(image)
  {
    && Start(g) + gdt < |image|
    && SuperblockSays(image[Start(g)], groups * INODES_PER_GROUP, |image|, AllZeros(image, gdt, groups),
                      AllInodeZeros(image, gdt, groups), volume, g)
    && image[Start(g) + 1..Start(g) + 1 + gdt] == image[2..2 + gdt]
    && var b, base := BlockAt(image, 2 + g / 32), g % 32 * 32;
       && Get32(b, base) == BlockBitmap(gdt, g) && Get32(b, base + 4) == InodeBitmap(gdt, g)
       && Get32(b, base + 8) == InodeTable(gdt, g)
       && Get16(b, base + 12) == ZeroBits(BlockAt(image, BlockBitmap(gdt, g)), BLOCKS_PER_GROUP)
       && Get16(b, base + 14) == ZeroBits(BlockAt(image, InodeBitmap(gdt, g)), BLOCKS_PER_GROUP)
       && Get16(b, base + 16) == directories
  }

  /** The contents of the entry are in blocks rather than in the inode. */
  predicate UsesBlocks(e: Entry) {
    !(e.symlink && |e.data| < 60)
  }

  /** All blocks that a reader of the inode goes through. */
  ghost function ReachedFrom(image: Image, number: nat): set<nat>
    requires Blocks(image) && number >= 1
  {
    Reached(image, ReaderInodeBlock(image, number), InodeOffset(number))
  }

  /** The entry has as many blocks as it needs, all of them different and none of them metadata. */
  ghost predicate OwnsBlocks(image: Image, gdt: nat, e: Entry)
    requires Blocks(image) && e.inode >= 1
  {
    UsesBlocks(e) ==>
      && |ReachedFrom(image, e.inode)| == Demand(|e.data|, e.symlink)
      && forall b :: b in ReachedFrom(image, e.inode) ==> IsData(gdt, b) && b < |image|
  }

  /** Builds an image. Whenever it succeeds, a reader finds in the image exactly what was put in, no two
      inodes share a block, and every count in superblocks and descriptors is the true number. */
  method Build(total: nat, volume: seq<byte>, entries: seq<Entry>) returns (r: Option<Image>)
    requires |volume| == 16 && total < 0x1_0000_0000 && Numbered(entries)
    ensures r.Some? <==> Buildable(total, entries)
    ensures r.Some? ==> total > 1 && |r.value| == total && Blocks(r.value)
    ensures r.Some? ==> forall k :: 0 <= k < |entries| ==> Reads(r.value, entries[k])
    ensures r.Some? ==> forall k :: 0 <= k < |entries| ==> OwnsBlocks(r.value, GdtBlocks(total), entries[k])
    ensures r.Some? ==> forall j, k :: 0 <= j < k < |entries| && UsesBlocks(entries[j]) && UsesBlocks(entries[k]) ==>
              ReachedFrom(r.value, entries[j].inode) !! ReachedFrom(r.value, entries[k].inode)
    ensures r.Some? ==> forall g: nat {:trigger DirectoriesIn(entries, g)} :: g < GroupCount(total) ==>
              GroupBooks(r.value, GdtBlocks(total), GroupCount(total), volume, g, DirectoriesIn(entries, g))
  {
    hide Reads, OwnsBlocks, ReachedFrom, GroupBooks, Buildable, Disk.Valid, DirectoriesIn, Capacity;
    BuildableMeans(total, entries);
    if !LayoutFits(total) {
      return None;
    }
    var d := new Disk(total);
    var ok := WriteAll(d, entries);
    if !ok {
      return None;
    }
    Finish(d, volume);
    Conclude(d, volume, entries);
    return Some(d.disk);
  }

  lemma BuildableMeans(total: nat, entries: seq<Entry>)
    ensures Buildable(total, entries) <==>
              && LayoutFits(total) && Demands(entries) <= Capacity(total)
              && forall k :: 0 <= k < |entries| ==> EntryFits(entries[k], GroupCount(total))
  {
  }

  method WriteAll(d: Disk, entries: seq<Entry>) returns (ok: bool)
    requires d.Valid() && d.inodes == 10 && d.files == map[] && Numbered(entries)
    requires forall g :: 0 <= g < |d.groups| ==> d.groups[g].directories == 0
    modifies d
    ensures d.Valid()
    ensures ok ==> Entered(d.files, entries, |entries|)
    ensures ok ==> forall g: nat :: g < |d.groups| ==> d.groups[g].directories == DirectoriesIn(entries, g) < 0x1_0000
    ensures ok <==>
              && Demands(entries) <= old(FreeBlocks(d.groups))
              && forall k :: 0 <= k < |entries| ==> EntryFits(entries[k], d.groupCount)
  {
    hide Reads, Text, FreeBlocks, Demand, Disk.Valid, Intact, Separate, Share;
    d.ValidBlocks();
    assert entries[..|entries|] == entries;
    for k := 0 to |entries|
      invariant d.Valid() && d.inodes == (if k == 0 then 10 else 9 + k) && Entered(d.files, entries, k)
      invariant forall i :: 0 <= i < k ==> EntryFits(entries[i], d.groupCount)
      invariant 0 <= FreeBlocks(d.groups) == old(FreeBlocks(d.groups)) - Demands(entries[..k])
      invariant forall g: nat :: g < |d.groups| ==> d.groups[g].directories == DirectoriesIn(entries[..k], g)
    {
      assert entries[..k + 1][..k] == entries[..k];
      DemandsGrow(entries, k + 1);
      ok := WriteEntry(d, entries, k);
      if !ok {
        return;
      }
    }
    forall g: nat ensures DirectoriesIn(entries, g) < 0x1_0000 {
      FewDirectories(entries, g);
    }
    return true;
  }

  method WriteEntry(d: Disk, entries: seq<Entry>, k: nat) returns (ok: bool)
    requires d.Valid() && k < |entries| && Numbered(entries) && Entered(d.files, entries, k)
    requires d.inodes == if k == 0 then 10 else 9 + k
    modifies d
    ensures d.Valid() && |d.groups| == |old(d.groups)|
    ensures ok <==>
              && EntryFits(entries[k], d.groupCount)
              && Demand(|entries[k].data|, entries[k].symlink) <= old(FreeBlocks(d.groups))
    ensures ok ==>
              && d.inodes == 10 + k && Entered(d.files, entries, k + 1)
              && 0 <= FreeBlocks(d.groups) == old(FreeBlocks(d.groups)) - Demand(|entries[k].data|, entries[k].symlink)
              && forall g: nat :: g < |d.groups| ==>
                   d.groups[g].directories
                   == old(d.groups)[g].directories + (if DirectoryIn(entries[k], g) then 1 else 0)
  {
    hide Reads, Text, FreeBlocks, Demand, Disk.Valid, Intact, Separate;
    var e := entries[k];
    ghost var files0 := d.files;
    ok := d.UseInode(e.inode, e.directory);
    if !ok {
      return;
    }
    ghost var groups1 := d.groups;
    ok := d.WriteNode(e.inode, e.mode, e.links, e.data, e.symlink);
    assert forall g :: 0 <= g < |groups1| ==> Directories(groups1)[g] == groups1[g].directories;
    assert forall g :: 0 <= g < |d.groups| ==> Directories(d.groups)[g] == d.groups[g].directories;
    if !ok {
      return;
    }
    OneMoreEntry(files0, d.files, entries, k);
    d.ValidBlocks();
  }

  lemma Conclude(d: Disk, volume: seq<byte>, entries: seq<Entry>)
    requires d.Valid() && |volume| == 16 && Numbered(entries) && Entered(d.files, entries, |entries|)
    requires forall k :: 0 <= k < |entries| ==> entries[k].inode <= d.groupCount * INODES_PER_GROUP
    requires forall g: nat :: g < |d.groups| ==> d.groups[g].directories == DirectoriesIn(entries, g) < 0x1_0000
    requires FreeBlocks(d.groups) >= 0 && FreeInodes(d.groups) >= 0 && d.total > 0
    requires exists table: Image {:trigger HeadsWritten(d.disk, d.groups, volume, table, |d.groups|)} ::
               && Blocks(table) && HeadsWritten(d.disk, d.groups, volume, table, |d.groups|)
               && |table| == d.gdt && forall g: nat {:trigger DescriptorAt(table, d.groups, g)} ::
                    g < |d.groups| ==> DescriptorAt(table, d.groups, g)
    ensures Blocks(d.disk) && |d.disk| == d.total && forall k :: 0 <= k < |entries| ==> Reads(d.disk, entries[k])
    ensures forall k :: 0 <= k < |entries| ==> OwnsBlocks(d.disk, GdtBlocks(d.total), entries[k])
    ensures forall j, k :: 0 <= j < k < |entries| && UsesBlocks(entries[j]) && UsesBlocks(entries[k]) ==>
              ReachedFrom(d.disk, entries[j].inode) !! ReachedFrom(d.disk, entries[k].inode)
    ensures forall g: nat {:trigger DirectoriesIn(entries, g)} :: g < GroupCount(d.total) ==>
              GroupBooks(d.disk, GdtBlocks(d.total), GroupCount(d.total), volume, g, DirectoriesIn(entries, g))
  {
    hide Reads, HeadAt, DescriptorAt, GroupAt, FileAt, InodesAt, GdtBlocks, Get32, FreeBlocks, FreeInodes, AllZeros,
         Superblock,
         AllInodeZeros, OwnsBlocks, ReachedFrom, GroupBooks, Owned, DirectoriesIn, Separate;
    FinishFits(d.disk, d.groups, d.gdt, d.allocGroup, d.used, d.inodes);
    var table: Image :| Blocks(table) && HeadsWritten(d.disk, d.groups, volume, table, |d.groups|) && |table| == d.gdt
                        && forall g: nat {:trigger DescriptorAt(table, d.groups, g)} ::
                             g < |d.groups| ==> DescriptorAt(table, d.groups, g);
    forall k | 0 <= k < |entries|
      ensures Reads(d.disk, entries[k]) && OwnsBlocks(d.disk, d.gdt, entries[k])
      ensures UsesBlocks(entries[k]) ==>
                && entries[k].inode in d.files && d.files[entries[k].inode].InBlocks?
                && ReachedFrom(d.disk, entries[k].inode) == Owned(d.files[entries[k].inode].file)
    {
      ReaderFindsInode(d.disk, d.groups, d.gdt, volume, table, entries[k].inode);
      assert FileAt(d.disk, d.gdt, d.used, d.files, entries[k].inode);
      EntryReads(d.disk, d.gdt, d.used, d.files, entries[k]);
      EntryOwns(d.disk, d.groups, d.gdt, d.used, d.files, entries[k]);
    }
    forall j, k | 0 <= j < k < |entries| && UsesBlocks(entries[j]) && UsesBlocks(entries[k])
      ensures ReachedFrom(d.disk, entries[j].inode) !! ReachedFrom(d.disk, entries[k].inode)
    {
      FilesApart(d.files, entries[j].inode, entries[k].inode);
    }
    forall g: nat | g < |d.groups| ensures GroupBooks(d.disk, d.gdt, |d.groups|, volume, g, DirectoriesIn(entries, g)) {
      BooksOf(d.disk, d.groups, d.gdt, d.inodes, volume, table, g);
    }
  }

  lemma FilesApart(files: map<nat, Stored>, m: nat, n: nat)
    requires Separate(files) && m in files && n in files && m != n && files[m].InBlocks? && files[n].InBlocks?
    ensures Owned(files[m].file) !! Owned(files[n].file)
  {
  }

  /** What a reader goes through is what the file owns. */
  lemma EntryOwns(disk: Image, groups: seq<Group>, gdt: nat, used: set<nat>, files: map<nat, Stored>, e: Entry)
    requires Blocks(disk) && FileAt(disk, gdt, used, files, e.inode) && e.inode in files
    requires Text(files[e.inode]) == e.data
    requires files[e.inode].Inline? <==> !UsesBlocks(e)
    requires e.inode >= 1 && ReaderInodeBlock(disk, e.inode) == InodeBlock(gdt, e.inode)
    requires forall b {:trigger UsedAt(groups, gdt, used, b)} :: UsedAt(groups, gdt, used, b)
    requires forall g {:trigger GroupAt(disk, groups, gdt, g)} :: GroupAt(disk, groups, gdt, g)
    ensures OwnsBlocks(disk, gdt, e)
    ensures UsesBlocks(e) ==> files[e.inode].InBlocks? && ReachedFrom(disk, e.inode) == Owned(files[e.inode].file)
  {
    hide Get32, InodeBlock, InodeOffset, ReaderInodeBlock, Headed, Owned, Reached, Needed, IsData, BitmapExact;
    if files[e.inode].InBlocks? {
      var f := files[e.inode].file;
      ReachesOwned(disk, InodeBlock(gdt, e.inode), InodeOffset(e.inode), f);
      forall b | b in Owned(f) ensures IsData(gdt, b) && b < |disk| {
        assert UsedAt(groups, gdt, used, b) && GroupAt(disk, groups, gdt, GroupOf(b));
      }
    }
  }

  /** The books of one group are right. */
  lemma BooksOf(disk: Image, groups: seq<Group>, gdt: nat, inodes: nat, volume: seq<byte>, table: Image, g: nat)
    requires Blocks(disk) && Blocks(table) && |disk| > 1 && g < |groups| <= 32 * gdt && |volume| == 16 && |table| == gdt
    requires 0 <= FreeBlocks(groups) < 0x1_0000_0000 && 0 <= FreeInodes(groups) < 0x1_0000_0000
    requires |disk| < 0x1_0000_0000 && |groups| <= 65535
    requires FreeBlocks(groups) == AllZeros(disk, gdt, |groups|)
    requires FreeInodes(groups) == AllInodeZeros(disk, gdt, |groups|)
    requires HeadsWritten(disk, groups, volume, table, |groups|) && DescriptorAt(table, groups, g)
    requires forall h {:trigger GroupAt(disk, groups, gdt, h)} :: GroupAt(disk, groups, gdt, h)
    requires InodesExact(disk, groups, gdt, inodes)
    ensures GroupBooks(disk, gdt, |groups|, volume, g, groups[g].directories)
  {
    hide SuperblockSays, Get32, Get16, FreeBlocks, FreeInodes, Superblock, BitmapExact, AllZeros, AllInodeZeros,
         ZeroBits;
    assert HeadAt(disk, Copy(disk, groups, volume, g), table, g);
    assert HeadAt(disk, Copy(disk, groups, volume, 0), table, 0);
    SuperblockReads(|groups| * INODES_PER_GROUP, |disk|, FreeBlocks(groups), FreeInodes(groups), volume, g);
    assert GroupAt(disk, groups, gdt, g) && InodesAt(disk, groups, gdt, inodes, g);
    GroupZeros(disk, groups, gdt, g);
    InodeZeros(disk, groups, gdt, inodes, g);
    assert disk[Start(0) + 1 + g / 32] == table[g / 32];
    assert disk[Start(g) + 1..Start(g) + 1 + gdt] == table && disk[Start(0) + 1..Start(0) + 1 + gdt] == table;
  }
}
