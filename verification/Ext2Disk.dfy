/** The ext2 image under construction: block groups, bitmaps, block allocation and inodes. */
module Ext2Disks {
  import opened Bytes
  import opened Options
  import opened Numbers
  import opened Ext2Files

  const BLOCKS_PER_GROUP: nat := 8192
  const INODES_PER_GROUP: nat := 1024
  const INODE_SIZE: nat := 128
  const TABLE_BLOCKS: nat := 128

  // ---- the layout of a group ----

  function GroupCount(total: nat): nat
    requires total > 0
  {
    (total - 1 + BLOCKS_PER_GROUP - 1) / BLOCKS_PER_GROUP
  }

  function GdtBlocks(total: nat): nat
    requires total > 0
  {
    (GroupCount(total) * 32 + BLOCK_SIZE - 1) / BLOCK_SIZE
  }

  function Start(g: nat): nat {
    1 + g * BLOCKS_PER_GROUP
  }

  function Size(total: nat, g: nat): nat
    requires Start(g) <= total
  {
    Min(total - Start(g), BLOCKS_PER_GROUP)
  }

  /** Superblock copy, descriptors, two bitmaps and the inode table come first in every group. */
  function Meta(gdt: nat): nat {
    1 + gdt + 2 + TABLE_BLOCKS
  }

  function BlockBitmap(gdt: nat, g: nat): nat { Start(g) + 1 + gdt }

  function InodeBitmap(gdt: nat, g: nat): nat { Start(g) + 2 + gdt }

  function InodeTable(gdt: nat, g: nat): nat { Start(g) + 3 + gdt }

  /** Block `b` may hold data: it is behind the metadata of its group. */
  predicate IsData(gdt: nat, b: nat) {
    b >= 1 && (b - 1) % BLOCKS_PER_GROUP >= Meta(gdt)
  }

  predicate IsBlockBitmap(gdt: nat, b: nat) {
    b >= 1 && (b - 1) % BLOCKS_PER_GROUP == 1 + gdt
  }

  predicate IsTable(gdt: nat, b: nat) {
    b >= 1 && 3 + gdt <= (b - 1) % BLOCKS_PER_GROUP < Meta(gdt)
  }

  /** As many groups as the blocks need, and as many descriptor blocks as the groups need. */
  lemma LayoutTight(total: nat)
    requires total > 1
    ensures (GroupCount(total) - 1) * 8192 < total - 1 <= GroupCount(total) * 8192
    ensures 32 * GroupCount(total) <= 1024 * GdtBlocks(total) < 32 * GroupCount(total) + 1024
  {
  }

  /** Exactly those blocks of a group are kept from files that hold the superblock and the descriptors, one of
      the bitmaps, or an inode. */
  lemma MetadataTight(gdt: nat, g: nat, b: nat)
    requires Start(g) <= b < Start(g) + BLOCKS_PER_GROUP
    ensures !IsData(gdt, b) <==>
              || b <= Start(g) + gdt || b == BlockBitmap(gdt, g) || b == InodeBitmap(gdt, g)
              || exists number: nat {:trigger InodeBlock(gdt, number)} ::
                   g * 1024 < number <= (g + 1) * 1024 && InodeBlock(gdt, number) == b
  {
    assert (b - 1) % BLOCKS_PER_GROUP == b - Start(g);
    if InodeBitmap(gdt, g) < b && !IsData(gdt, b) {
      var number := g * 1024 + (b - InodeTable(gdt, g)) * 8 + 1;
      assert InodeBlock(gdt, number) == b;
    }
    forall number: nat | g * 1024 < number <= (g + 1) * 1024
      ensures InodeTable(gdt, g) <= InodeBlock(gdt, number) < Start(g) + Meta(gdt)
    {
      assert (number - 1) / 1024 == g;
    }
  }

  function GroupOf(b: nat): nat
    requires b >= 1
  {
    (b - 1) / BLOCKS_PER_GROUP
  }

  /** Where inode `number` is. */
  function InodeBlock(gdt: nat, number: nat): nat
    requires number >= 1
  {
    InodeTable(gdt, (number - 1) / INODES_PER_GROUP) + (number - 1) % INODES_PER_GROUP / 8
  }

  function InodeOffset(number: nat): (r: nat)
    requires number >= 1
    ensures r + INODE_SIZE <= BLOCK_SIZE
  {
    (number - 1) % 8 * INODE_SIZE
  }

  lemma InodesAreInTables(gdt: nat, number: nat)
    requires number >= 1 && Meta(gdt) <= BLOCKS_PER_GROUP
    ensures IsTable(gdt, InodeBlock(gdt, number))
  {
  }

  /** Two inodes never share a byte. */
  lemma InodesApart(gdt: nat, m: nat, n: nat)
    requires m >= 1 && n >= 1 && m != n && Meta(gdt) <= BLOCKS_PER_GROUP && InodeBlock(gdt, m) == InodeBlock(gdt, n)
    ensures InodeOffset(m) + INODE_SIZE <= InodeOffset(n) || InodeOffset(n) + INODE_SIZE <= InodeOffset(m)
  {
    var g, h := (m - 1) / INODES_PER_GROUP, (n - 1) / INODES_PER_GROUP;
    SameGroup(g, h, (m - 1) % INODES_PER_GROUP / 8, (n - 1) % INODES_PER_GROUP / 8);
    Eighths(m - 1, n - 1);
  }

  lemma Eighths(m: nat, n: nat)
    requires m != n && m / INODES_PER_GROUP == n / INODES_PER_GROUP
    requires m % INODES_PER_GROUP / 8 == n % INODES_PER_GROUP / 8
    ensures m % 8 != n % 8
  {
    var i, j := m % INODES_PER_GROUP, n % INODES_PER_GROUP;
    assert i != j && m == m / INODES_PER_GROUP * INODES_PER_GROUP + i;
    assert n == n / INODES_PER_GROUP * INODES_PER_GROUP + j;
    InEighth(m / INODES_PER_GROUP, i);
    InEighth(n / INODES_PER_GROUP, j);
  }

  lemma InEighth(q: nat, i: nat)
    ensures (q * INODES_PER_GROUP + i) % 8 == i % 8
  {
  }

  lemma SameGroup(g: nat, h: nat, a: nat, b: nat)
    requires a < BLOCKS_PER_GROUP && b < BLOCKS_PER_GROUP && g * BLOCKS_PER_GROUP + a == h * BLOCKS_PER_GROUP + b
    ensures g == h && a == b
  {
  }

  // ---- the groups ----

  datatype Group = Group(start: nat, count: nat, blockBitmap: nat, inodeBitmap: nat, inodeTable: nat,
                         next: nat, usedBlocks: nat, usedInodes: nat, directories: nat)

  /** The block bitmap marks exactly the blocks below `next` and those beyond the group. */
  ghost predicate BitmapExact(bitmap: seq<byte>, taken: nat, count: nat)
    requires |bitmap| == BLOCK_SIZE
  {
    forall bit: nat :: bit < BLOCKS_PER_GROUP ==> (Bit(bitmap, bit) <==> bit < taken || bit >= count)
  }

  ghost predicate GroupAt(disk: Image, groups: seq<Group>, gdt: nat, g: int)
    requires Blocks(disk)
  {
    0 <= g < |groups| ==>
      var k := groups[g];
      && k.start == Start(g) < |disk| && k.count == Size(|disk|, g) && k.blockBitmap == BlockBitmap(gdt, g)
      && k.inodeBitmap == InodeBitmap(gdt, g) && k.inodeTable == InodeTable(gdt, g)
      && Start(g) + Meta(gdt) <= k.next <= k.start + k.count && k.usedBlocks == k.next - k.start
      && BitmapExact(disk[BlockBitmap(gdt, g)], k.usedBlocks, k.count)
  }

  ghost predicate UsedAt(groups: seq<Group>, gdt: nat, used: set<nat>, b: nat) {
    b in used ==> IsData(gdt, b) && GroupOf(b) < |groups| && b < groups[GroupOf(b)].next
  }

  /** Groups before the current one are full. */
  ghost predicate Filled(groups: seq<Group>, upTo: nat) {
    forall g :: 0 <= g < upTo && g < |groups| ==> groups[g].next == groups[g].start + groups[g].count
  }

  ghost predicate Shape(disk: Image, groups: seq<Group>, gdt: nat, allocGroup: nat, used: set<nat>) {
    && Blocks(disk) && Filled(groups, allocGroup) && allocGroup <= |groups|
    && (forall g {:trigger GroupAt(disk, groups, gdt, g)} :: GroupAt(disk, groups, gdt, g))
    && (forall b {:trigger UsedAt(groups, gdt, used, b)} :: UsedAt(groups, gdt, used, b))
  }

  lemma InGroup(g: nat, off: nat)
    requires off < BLOCKS_PER_GROUP
    ensures (Start(g) + off - 1) % BLOCKS_PER_GROUP == off && GroupOf(Start(g) + off) == g
  {
  }

  /** Marking one more block keeps the bitmap exact. */
  lemma BitmapGrows(bitmap: seq<byte>, taken: nat, count: nat)
    requires |bitmap| == BLOCK_SIZE && BitmapExact(bitmap, taken, count) && taken < count <= BLOCKS_PER_GROUP
    ensures BitmapExact(SetBit(bitmap, taken), taken + 1, count)
  {
    forall bit: nat | bit < BLOCKS_PER_GROUP
      ensures Bit(SetBit(bitmap, taken), bit) <==> bit < taken + 1 || bit >= count
    {
      SetBitSets(bitmap, taken, bit);
    }
  }

  /** Everything but block bitmaps is as it was. */
  ghost predicate OnlyBitmaps(disk: Image, disk': Image, gdt: nat) {
    |disk'| == |disk| && forall x: nat :: x < |disk| && !IsBlockBitmap(gdt, x) ==> disk'[x] == disk[x]
  }

  function Marked(disk: Image, k: Group): Image
    requires Blocks(disk) && k.blockBitmap < |disk| && k.start <= k.next < k.start + BLOCKS_PER_GROUP
  {
    disk[k.blockBitmap := SetBit(disk[k.blockBitmap], k.next - k.start)]
  }

  function Advanced(k: Group): Group {
    k.(next := k.next + 1, usedBlocks := k.usedBlocks + 1)
  }

  lemma AllocationFits(disk: Image, groups: seq<Group>, gdt: nat, g: nat, used: set<nat>)
    requires Shape(disk, groups, gdt, g, used) && g < |groups| && groups[g].next < groups[g].start + groups[g].count
    ensures var k := groups[g];
            && k.start <= k.next < |disk| && k.next !in used && IsData(gdt, k.next)
            && k.blockBitmap < |disk| && k.next < k.start + BLOCKS_PER_GROUP && OnlyBitmaps(disk, Marked(disk, k), gdt)
  {
    hide SetBit, Bit, BitmapExact;
    assert GroupAt(disk, groups, gdt, g);
    InGroup(g, groups[g].next - groups[g].start);
    InGroup(g, 1 + gdt);
    assert UsedAt(groups, gdt, used, groups[g].next);
  }

  lemma AllocationKeepsGroup(disk: Image, groups: seq<Group>, gdt: nat, g: nat, h: int)
    requires Blocks(disk) && GroupAt(disk, groups, gdt, g) && GroupAt(disk, groups, gdt, h)
    requires g < |groups| && groups[g].next < groups[g].start + groups[g].count
    ensures groups[g].blockBitmap < |disk| && groups[g].start <= groups[g].next < groups[g].start + BLOCKS_PER_GROUP
    ensures Blocks(Marked(disk, groups[g]))
    ensures GroupAt(Marked(disk, groups[g]), groups[g := Advanced(groups[g])], gdt, h)
  {
    hide SetBit, Bit, BitmapExact;
    var k := groups[g];
    BitmapGrows(disk[k.blockBitmap], k.next - k.start, k.count);
  }

  /** The block handed out is new, holds no metadata and is marked. */
  lemma Allocation(disk: Image, groups: seq<Group>, gdt: nat, g: nat, used: set<nat>)
    requires Shape(disk, groups, gdt, g, used) && g < |groups| && groups[g].next < groups[g].start + groups[g].count
    ensures var k := groups[g];
            && k.start <= k.next < |disk| && k.next !in used && IsData(gdt, k.next)
            && k.blockBitmap < |disk| && k.next < k.start + BLOCKS_PER_GROUP && OnlyBitmaps(disk, Marked(disk, k), gdt)
            && Shape(Marked(disk, k), groups[g := Advanced(k)], gdt, g, used + {k.next})
  {
    hide Marked, IsData;
    AllocationFits(disk, groups, gdt, g, used);
    var k := groups[g];
    var disk', groups', used' := Marked(disk, k), groups[g := Advanced(k)], used + {k.next};
    assert GroupAt(disk, groups, gdt, g);
    AllocationKeepsGroup(disk, groups, gdt, g, g);
    forall h ensures GroupAt(disk', groups', gdt, h) {
      assert GroupAt(disk, groups, gdt, h);
      AllocationKeepsGroup(disk, groups, gdt, g, h);
    }
    forall x: nat ensures UsedAt(groups', gdt, used', x) {
      assert UsedAt(groups, gdt, used, x);
      InGroup(g, k.next - k.start);
    }
    assert Filled(groups', g);
  }

  // ---- the inodes ----

  /** How many of the first `inodes` inodes are in group `g`. */
  function Share(inodes: nat, g: nat): nat {
    if inodes <= g * INODES_PER_GROUP then 0 else Min(inodes - g * INODES_PER_GROUP, INODES_PER_GROUP)
  }

  /** The inode bitmap marks exactly the group's share of the inodes in use, and the padding. */
  ghost predicate InodesAt(disk: Image, groups: seq<Group>, gdt: nat, inodes: nat, g: int)
    requires Blocks(disk)
  {
    0 <= g < |groups| ==>
      && InodeBitmap(gdt, g) < |disk| && groups[g].usedInodes == Share(inodes, g)
      && BitmapExact(disk[InodeBitmap(gdt, g)], Share(inodes, g), INODES_PER_GROUP)
  }

  ghost predicate InodesExact(disk: Image, groups: seq<Group>, gdt: nat, inodes: nat)
    requires Blocks(disk)
  {
    forall g {:trigger InodesAt(disk, groups, gdt, inodes, g)} :: InodesAt(disk, groups, gdt, inodes, g)
  }

  lemma InodesKept(disk: Image, disk': Image, groups: seq<Group>, groups': seq<Group>, gdt: nat, inodes: nat)
    requires Blocks(disk) && Blocks(disk') && InodesExact(disk, groups, gdt, inodes) && |disk'| == |disk|
    requires |groups'| == |groups|
    requires forall g :: 0 <= g < |groups| ==> groups'[g].usedInodes == groups[g].usedInodes
    requires forall g: nat ::
              g < |groups| && InodeBitmap(gdt, g) < |disk| ==> disk'[InodeBitmap(gdt, g)] == disk[InodeBitmap(gdt, g)]
    ensures InodesExact(disk', groups', gdt, inodes)
  {
    forall g ensures InodesAt(disk', groups', gdt, inodes, g) {
      assert InodesAt(disk, groups, gdt, inodes, g);
    }
  }

  // ---- the files ----

  /** The contents of an inode: behind block pointers, or a short link text in the inode itself. */
  type u16 = n: nat | n < 0x1_0000

  datatype Stored = InBlocks(file: File, mode: u16, links: u16) | Inline(text: seq<byte>, mode: u16, links: u16)

  /** The fields of an inode in front of its block pointers. */
  ghost predicate Headed(inode: seq<byte>, off: nat, mode: u16, size: nat, links: u16, sectors: nat)
    requires |inode| == BLOCK_SIZE && off + 128 <= BLOCK_SIZE
  {
    && Get16(inode, off) == mode && Get32(inode, off + 4) == size
    && Get16(inode, off + 26) == links && Get32(inode, off + 28) == sectors
  }

  lemma HeadedKept(inode: seq<byte>, inode': seq<byte>, off: nat, mode: u16, size: nat, links: u16, sectors: nat)
    requires |inode| == BLOCK_SIZE && off + 128 <= BLOCK_SIZE && Headed(inode, off, mode, size, links, sectors)
    requires SameRange(inode, inode', off, off + 40)
    ensures Headed(inode', off, mode, size, links, sectors)
  {
  }

  ghost predicate StoredAt(disk: Image, used: set<nat>, inode: seq<byte>, off: nat, s: Stored)
    requires Blocks(disk) && |inode| == BLOCK_SIZE && off + 128 <= BLOCK_SIZE
  {
    match s
    case InBlocks(f, mode, links) =>
      && Laid(disk, f) && Owned(f) <= used && |Owned(f)| == Needed(|f.blocks|) && Described(inode, off, f)
      && Headed(inode, off, mode, |f.data|, links, 2 * Needed(|f.blocks|))
    case Inline(text, mode, links) =>
      && |text| < 60 && inode[off + 40..off + 40 + |text|] == text
      && Headed(inode, off, mode, |text|, links, 0)
  }

  ghost predicate FileAt(disk: Image, gdt: nat, used: set<nat>, files: map<nat, Stored>, number: nat)
    requires Blocks(disk)
  {
    number in files ==>
      number >= 1 && InodeBlock(gdt, number) < |disk|
      && StoredAt(disk, used, disk[InodeBlock(gdt, number)], InodeOffset(number), files[number])
  }

  /** Every inode written so far can be read back. */
  ghost predicate Intact(disk: Image, gdt: nat, used: set<nat>, files: map<nat, Stored>)
    requires Blocks(disk)
  {
    forall number {:trigger FileAt(disk, gdt, used, files, number)} :: FileAt(disk, gdt, used, files, number)
  }

  lemma StoredKept(disk: Image, disk': Image, used: set<nat>, used': set<nat>, inode: seq<byte>, inode': seq<byte>,
                   off: nat, s: Stored)
    requires Blocks(disk) && Blocks(disk') && |inode| == BLOCK_SIZE && off + 128 <= BLOCK_SIZE
    requires StoredAt(disk, used, inode, off, s)
    requires SameBlocks(disk, disk', used) && used <= used' && SameRange(inode, inode', off, off + 128)
    ensures StoredAt(disk', used', inode', off, s)
  {
    match s {
      case InBlocks(f, mode, links) =>
        HeadedKept(inode, inode', off, mode, |f.data|, links, 2 * Needed(|f.blocks|));
        LaidKept(disk, disk', f);
        DescribedKept(inode, inode', off, f);
      case Inline(text, mode, links) =>
        HeadedKept(inode, inode', off, mode, |text|, links, 0);
        assert inode'[off + 40..off + 40 + |text|] == inode[off + 40..off + 40 + |text|];
    }
  }

  /** Neither the blocks in use nor an inode table changed. */
  lemma IntactKept(disk: Image, disk': Image, gdt: nat, used: set<nat>, used': set<nat>, files: map<nat, Stored>)
    requires Blocks(disk) && Blocks(disk') && Intact(disk, gdt, used, files) && used <= used'
    requires Meta(gdt) <= BLOCKS_PER_GROUP
    requires SameBlocks(disk, disk', used)
    requires forall x: nat :: x < |disk| && IsTable(gdt, x) ==> disk'[x] == disk[x]
    ensures Intact(disk', gdt, used', files)
  {
    forall number ensures FileAt(disk', gdt, used', files, number) {
      assert FileAt(disk, gdt, used, files, number);
      if number in files {
        InodesAreInTables(gdt, number);
        var ib, off := InodeBlock(gdt, number), InodeOffset(number);
        StoredKept(disk, disk', used, used', disk[ib], disk'[ib], off, files[number]);
      }
    }
  }

  /** One inode was written, within its own 128 bytes. */
  lemma IntactInode(disk: Image, disk': Image, gdt: nat, used: set<nat>, files: map<nat, Stored>, number: nat,
                    s: Stored)
    requires Blocks(disk) && Blocks(disk') && Intact(disk, gdt, used, files) && Meta(gdt) <= BLOCKS_PER_GROUP
    requires number >= 1 && InodeBlock(gdt, number) < |disk| && (forall b :: b in used ==> IsData(gdt, b))
    requires |disk'| == |disk| && disk' == disk[InodeBlock(gdt, number) := disk'[InodeBlock(gdt, number)]]
    requires var ib, off := InodeBlock(gdt, number), InodeOffset(number);
             SameRange(disk[ib], disk'[ib], 0, off) && SameRange(disk[ib], disk'[ib], off + 128, BLOCK_SIZE)
    requires StoredAt(disk', used, disk'[InodeBlock(gdt, number)], InodeOffset(number), s)
    ensures Intact(disk', gdt, used, files[number := s])
  {
    hide StoredAt, InodeBlock, InodeOffset;
    InodesAreInTables(gdt, number);
    var files' := files[number := s];
    forall n ensures FileAt(disk', gdt, used, files', n) {
      assert FileAt(disk, gdt, used, files, n);
      if n in files && n != number {
        var ib, off := InodeBlock(gdt, n), InodeOffset(n);
        if ib == InodeBlock(gdt, number) {
          InodesApart(gdt, n, number);
        }
        StoredKept(disk, disk', used, used, disk[ib], disk'[ib], off, files[n]);
      }
    }
  }

  // ---- an empty disk ----

  /** Every group has room for its metadata. */
  predicate LayoutFits(total: nat) {
    total > 1 && GroupCount(total) <= 65535 &&
    forall g: nat :: g < GroupCount(total) ==> Start(g) < total && Meta(GdtBlocks(total)) <= Size(total, g)
  }

  lemma GroupFits(total: nat, g: nat)
    requires LayoutFits(total) && g < GroupCount(total)
    ensures Start(g) < total && Meta(GdtBlocks(total)) <= Size(total, g) <= BLOCKS_PER_GROUP
    ensures Start(g) + Size(total, g) <= total
  {
  }

  /** Blocks not in use, as the groups count them. */
  function FreeBlocks(groups: seq<Group>): int {
    if groups == [] then 0
    else FreeBlocks(groups[..|groups| - 1]) + groups[|groups| - 1].count - groups[|groups| - 1].usedBlocks
  }

  lemma {:induction false} FreeAfter(groups: seq<Group>, g: nat, k: Group)
    requires g < |groups|
    ensures FreeBlocks(groups[g := k]) == FreeBlocks(groups) - groups[g].count + groups[g].usedBlocks
            + k.count - k.usedBlocks
  {
    var n := |groups| - 1;
    if g == n {
      assert groups[g := k][..n] == groups[..n];
    } else {
      FreeAfter(groups[..n], g, k);
      assert groups[g := k][..n] == groups[..n][g := k];
    }
  }

  /** No group uses more than it has, and when all are full nothing is free. */
  lemma {:induction false} FreeIsNatural(disk: Image, groups: seq<Group>, gdt: nat, n: nat)
    requires Blocks(disk) && n <= |groups|
    requires forall g {:trigger GroupAt(disk, groups, gdt, g)} :: GroupAt(disk, groups, gdt, g)
    ensures FreeBlocks(groups[..n]) >= 0 && (Filled(groups, n) ==> FreeBlocks(groups[..n]) == 0)
  {
    if n > 0 {
      FreeIsNatural(disk, groups, gdt, n - 1);
      assert GroupAt(disk, groups, gdt, n - 1);
      assert groups[..n][..n - 1] == groups[..n - 1];
    }
  }

  /** What an empty image of `total` blocks can hold: everything but block 0 and the metadata of the groups. */
  function Capacity(total: nat): int
    requires total > 0
  {
    total - 1 - GroupCount(total) * Meta(GdtBlocks(total))
  }

  /** A bitmap that marks the first `taken` bits and those from `count` on. */
  method Unavailable(taken: nat, count: nat) returns (b: seq<byte>)
    requires taken <= count <= BLOCKS_PER_GROUP
    ensures |b| == BLOCK_SIZE && BitmapExact(b, taken, count)
  {
    b := seq(BLOCK_SIZE, _ => 0);
    forall j: nat | j < BLOCKS_PER_GROUP ensures !Bit(b, j) {
      ZeroHasNoBits(j % 8);
    }
    for i := 0 to BLOCKS_PER_GROUP
      invariant |b| == BLOCK_SIZE
      invariant forall j: nat :: j < BLOCKS_PER_GROUP ==> (Bit(b, j) <==> j < i && (j < taken || j >= count))
    {
      hide Bit, SetBit;
      if i < taken || i >= count {
        forall j: nat | j < BLOCKS_PER_GROUP ensures Bit(SetBit(b, i), j) <==> j == i || Bit(b, j) {
          SetBitSets(b, i, j);
        }
        b := SetBit(b, i);
      }
    }
  }

  lemma {:induction false} ZeroHasNoBits(k: nat)
    ensures !BitOf(0, k)
  {
    if k > 0 {
      ZeroHasNoBits(k - 1);
    }
  }

  lemma GroupAdded(disk: Image, groups: seq<Group>, gdt: nat, g: nat, k: Group, blockBits: seq<byte>,
                   inodeBits: seq<byte>)
    requires Blocks(disk) && |groups| == g && |blockBits| == |inodeBits| == BLOCK_SIZE && Start(g) < |disk|
    requires Meta(gdt) <= Size(|disk|, g) <= BLOCKS_PER_GROUP && Start(g) + Size(|disk|, g) <= |disk|
    requires k == Group(Start(g), Size(|disk|, g), BlockBitmap(gdt, g), InodeBitmap(gdt, g), InodeTable(gdt, g),
                        Start(g) + Meta(gdt), Meta(gdt), Share(10, g), 0)
    requires BitmapExact(blockBits, Meta(gdt), k.count) && BitmapExact(inodeBits, Share(10, g), INODES_PER_GROUP)
    requires forall h {:trigger GroupAt(disk, groups, gdt, h)} :: GroupAt(disk, groups, gdt, h)
    requires InodesExact(disk, groups, gdt, 10)
    ensures k.inodeBitmap < |disk|
    ensures var disk', groups' := disk[k.blockBitmap := blockBits][k.inodeBitmap := inodeBits], groups + [k];
            && Blocks(disk') && InodesExact(disk', groups', gdt, 10)
            && forall h {:trigger GroupAt(disk', groups', gdt, h)} :: GroupAt(disk', groups', gdt, h)
  {
    hide BitmapExact;
    var disk', groups', ten := disk[k.blockBitmap := blockBits][k.inodeBitmap := inodeBits], groups + [k], 10;
    forall h ensures GroupAt(disk', groups', gdt, h) {
      assert GroupAt(disk, groups, gdt, h);
    }
    forall h ensures InodesAt(disk', groups', gdt, ten, h) {
      assert InodesAt(disk, groups, gdt, ten, h) && GroupAt(disk, groups, gdt, h);
    }
  }

  // ---- the disk ----

  /** Only fresh blocks and block bitmaps differ. */
  ghost predicate OnlyFresh(disk: Image, disk': Image, gdt: nat, used: set<nat>, used': set<nat>) {
    && |disk'| == |disk| && used <= used'
    && forall x: nat :: x < |disk| && x !in used' - used && !IsBlockBitmap(gdt, x) ==> disk'[x] == disk[x]
  }

  lemma NoGroups(disk: Image, gdt: nat, inodes: nat)
    requires Blocks(disk)
    ensures InodesExact(disk, [], gdt, inodes) && FreeBlocks([]) == 0
    ensures forall h {:trigger GroupAt(disk, [], gdt, h)} :: GroupAt(disk, [], gdt, h)
  {
  }

  lemma NoFiles(disk: Image, gdt: nat, used: set<nat>)
    requires Blocks(disk)
    ensures Intact(disk, gdt, used, map[])
  {
  }

  lemma LayoutHolds(total: nat)
    requires LayoutFits(total)
    ensures total > 1 && 1 <= GroupCount(total) <= 65535 && Meta(GdtBlocks(total)) <= BLOCKS_PER_GROUP
    ensures (GroupCount(total) - 1) * BLOCKS_PER_GROUP < total - 1 <= GroupCount(total) * BLOCKS_PER_GROUP
  {
    GroupFits(total, 0);
  }

  lemma NextGroup(total: nat, g: nat)
    requires LayoutFits(total) && g < GroupCount(total)
    ensures Start(g) < total
    ensures Min(g * BLOCKS_PER_GROUP, total - 1) + Size(total, g) == Min((g + 1) * BLOCKS_PER_GROUP, total - 1)
  {
  }

  /** Blocks that the contents of a node take up: none for a short symbolic link. */
  function Demand(bytes: nat, symlink: bool): nat {
    if symlink && bytes < 60 then 0 else Needed(BlocksFor(bytes))
  }

  /** How many directories each group counts. */
  function Directories(groups: seq<Group>): (r: seq<nat>)
    ensures |r| == |groups|
  {
    seq(|groups|, g requires 0 <= g < |groups| => groups[g].directories)
  }

  /** `blocks` are `n` blocks that were not in use and are now, and nothing else changed. */
  ghost predicate Fresh(blocks: set<nat>, n: nat, used: set<nat>, used': set<nat>) {
    used' == used + blocks && blocks !! used && |blocks| == n
  }

  ghost function Members(s: seq<nat>): set<nat> {
    set b | b in s
  }

  lemma FreshTogether(a: set<nat>, n: nat, b: set<nat>, m: nat, used: set<nat>, used1: set<nat>, used2: set<nat>)
    requires Fresh(a, n, used, used1) && Fresh(b, m, used1, used2)
    ensures Fresh(a + b, n + m, used, used2)
  {
    assert a !! b;
  }

  lemma FreshOne(b: nat, used: set<nat>, used': set<nat>)
    requires b !in used && used' == used + {b}
    ensures Fresh({b}, 1, used, used')
  {
  }

  lemma FreshNone(used: set<nat>)
    ensures Fresh({}, 0, used, used) && Fresh(Members([]), 0, used, used)
  {
    assert Members([]) == {};
  }

  /** One more block of a growing list. */
  lemma FreshFurther(s: seq<nat>, b: nat, used: set<nat>, used1: set<nat>, used2: set<nat>)
    requires Fresh(Members(s), |s|, used, used1) && b !in used1 && used2 == used1 + {b}
    ensures Fresh(Members(s + [b]), |s| + 1, used, used2)
  {
    assert Members(s + [b]) == Members(s) + {b};
  }

  /** No two inodes share a block. */
  ghost predicate Separate(files: map<nat, Stored>) {
    forall m, n :: m in files && n in files && m != n && files[m].InBlocks? && files[n].InBlocks? ==>
      Owned(files[m].file) !! Owned(files[n].file)
  }

  /** New blocks are no other file's, since files own blocks in use. */
  lemma SeparateWith(disk: Image, gdt: nat, used: set<nat>, files: map<nat, Stored>, number: nat, s: Stored)
    requires Blocks(disk) && Intact(disk, gdt, used, files) && Separate(files)
    requires s.InBlocks? ==> Owned(s.file) !! used
    ensures Separate(files[number := s])
  {
    hide Owned, Laid, Described;
    forall m | m in files && files[m].InBlocks? ensures Owned(files[m].file) <= used {
      assert FileAt(disk, gdt, used, files, m);
    }
  }

  /** An operation that needs `n` blocks succeeds exactly when that many are free, and then takes them. */
  predicate Taken(before: seq<Group>, after: seq<Group>, ok: bool, n: nat) {
    && (ok <==> n <= FreeBlocks(before)) && Directories(after) == Directories(before)
    && FreeBlocks(after) >= 0 && (ok ==> FreeBlocks(after) == FreeBlocks(before) - n)
  }

  class Disk {
    var disk: Image
    var groups: seq<Group>
    var allocGroup: nat
    const total: nat
    const gdt: nat
    const groupCount: nat
    ghost var used: set<nat>
    ghost var inodes: nat
    ghost var files: map<nat, Stored>

    ghost predicate Sound()
      reads this
    {
      && Shape(disk, groups, gdt, allocGroup, used) && InodesExact(disk, groups, gdt, inodes)
      && Meta(gdt) <= BLOCKS_PER_GROUP && 1 < |disk| == total < 0x1_0000_0000 && |groups| == groupCount
      && gdt == GdtBlocks(total) && groupCount == GroupCount(total) <= 65535
    }

    ghost predicate Valid()
      reads this
    {
      Sound() && Intact(disk, gdt, used, files) && Separate(files)
    }

    /** An empty image: `total` blocks, the metadata of every group marked as used. */
    constructor (total: nat)
      requires LayoutFits(total) && total < 0x1_0000_0000
      ensures Valid() && this.total == total && groupCount == GroupCount(total)
      ensures used == {} && inodes == 10 && files == map[] && FreeBlocks(groups) == Capacity(total)
      ensures forall g :: 0 <= g < |groups| ==> groups[g].directories == 0
    {
      hide GroupAt, InodesAt, FileAt, FreeBlocks, GdtBlocks, GroupCount, LayoutFits, Size;
      LayoutHolds(total);
      this.total, gdt, groupCount := total, GdtBlocks(total), GroupCount(total);
      allocGroup, used, inodes, files := 0, {}, 10, map[];
      disk := seq(total, _ => seq(BLOCK_SIZE, _ => 0));
      groups := [];
      new;
      NoGroups(disk, gdt, inodes);
      for g := 0 to groupCount
        invariant |groups| == g && forall h :: 0 <= h < g ==> groups[h].directories == 0
        invariant allocGroup == 0 && |disk| == total && Blocks(disk) && used == {} && inodes == 10 && files == map[]
        invariant forall h {:trigger GroupAt(disk, groups, gdt, h)} :: GroupAt(disk, groups, gdt, h)
        invariant InodesExact(disk, groups, gdt, inodes)
        invariant FreeBlocks(groups) == Min(g * BLOCKS_PER_GROUP, total - 1) - g * Meta(gdt)
        invariant forall b: nat :: b >= Start(g) && b < total ==> disk[b] == seq(BLOCK_SIZE, _ => 0)
      {
        AddGroup(g);
        NextGroup(total, g);
      }
      NoFiles(disk, gdt, used);
    }

    method AddGroup(g: nat)
      requires LayoutFits(|disk|) && |groups| == g < GroupCount(|disk|) && Blocks(disk) && inodes == 10
      requires gdt == GdtBlocks(|disk|)
      requires forall h {:trigger GroupAt(disk, groups, gdt, h)} :: GroupAt(disk, groups, gdt, h)
      requires InodesExact(disk, groups, gdt, inodes)
      requires forall b: nat :: b >= Start(g) && b < |disk| ==> disk[b] == seq(BLOCK_SIZE, _ => 0)
      modifies `disk, `groups
      ensures |groups| == g + 1 && |disk| == |old(disk)| && Blocks(disk)
      ensures forall h {:trigger GroupAt(disk, groups, gdt, h)} :: GroupAt(disk, groups, gdt, h)
      ensures InodesExact(disk, groups, gdt, inodes)
      ensures forall b: nat :: b >= Start(g + 1) && b < |disk| ==> disk[b] == seq(BLOCK_SIZE, _ => 0)
      ensures FreeBlocks(groups) == old(FreeBlocks(groups)) + Size(|disk|, g) - Meta(gdt)
      ensures groups[..g] == old(groups) && groups[g].directories == 0
    {
      hide BitmapExact, GdtBlocks;
      GroupFits(|disk|, g);
      var start, count := Start(g), Size(|disk|, g);
      var next := start + Meta(gdt);
      var usedInodes := if g == 0 then 10 else 0;
      var blockBits := Unavailable(Meta(gdt), count);
      var inodeBits := Unavailable(usedInodes, INODES_PER_GROUP);
      var k := Group(start, count, BlockBitmap(gdt, g), InodeBitmap(gdt, g), InodeTable(gdt, g), next, Meta(gdt),
                     usedInodes, 0);
      GroupAdded(disk, groups, gdt, g, k, blockBits, inodeBits);
      disk := disk[k.blockBitmap := blockBits][k.inodeBitmap := inodeBits];
      groups := groups + [k];
    }

    /** The next free block, from the first group that has one. Fails only when every group is full. */
    method Alloc() returns (r: Option<nat>)
      requires Sound()
      modifies `disk, `groups, `allocGroup, `used
      ensures Sound() && OnlyBitmaps(old(disk), disk, gdt)
      ensures r.Some? ==>
                r.value !in old(used) && used == old(used) + {r.value} && IsData(gdt, r.value) && r.value < |disk|
      ensures r.None? ==> disk == old(disk) && groups == old(groups) && used == old(used)
      ensures Taken(old(groups), groups, r.Some?, 1)
    {
      FreeIsNatural(disk, groups, gdt, |groups|);
      assert groups[..|groups|] == groups;
      while allocGroup < |groups|
        invariant Sound() && disk == old(disk) && groups == old(groups) && used == old(used)
        decreases |groups| - allocGroup
      {
        var k := groups[allocGroup];
        if k.next < k.start + k.count {
          MarkNext();
          FreeIsNatural(disk, groups, gdt, |groups|);
          assert groups[..|groups|] == groups;
          return Some(k.next);
        }
        assert GroupAt(disk, groups, gdt, allocGroup);
        allocGroup := allocGroup + 1;
      }
      return None;
    }

    method MarkNext()
      requires Sound() && allocGroup < |groups|
      requires groups[allocGroup].next < groups[allocGroup].start + groups[allocGroup].count
      modifies `disk, `groups, `used
      ensures Sound() && OnlyBitmaps(old(disk), disk, gdt)
      ensures var b := old(groups)[allocGroup].next;
              b !in old(used) && used == old(used) + {b} && IsData(gdt, b) && b < |disk|
      ensures FreeBlocks(groups) == old(FreeBlocks(groups)) - 1 && Directories(groups) == old(Directories(groups))
    {
      hide GroupAt, InodesAt, IsData, IsBlockBitmap, SetBit;
      var g, k := allocGroup, groups[allocGroup];
      Allocation(disk, groups, gdt, g, used);
      BitmapsApart(disk, Marked(disk, k), gdt, |groups|);
      InodesKept(disk, Marked(disk, k), groups, groups[g := Advanced(k)], gdt, inodes);
      FreeAfter(groups, g, Advanced(k));
      disk := Marked(disk, k);
      groups := groups[g := Advanced(k)];
      used := used + {k.next};
    }

    /** Writes into a block that no file owns yet. */
    lemma Recheck(disk0: Image, used0: set<nat>)
      requires Sound() && Blocks(disk0) && Intact(disk0, gdt, used0, files) && Separate(files)
      requires OnlyFresh(disk0, disk, gdt, used0, used)
      ensures Valid() && SameBlocks(disk0, disk, used0)
    {
      FreshKeepsTables(disk0, disk, gdt, groups, allocGroup, used0, used);
      IntactKept(disk0, disk, gdt, used0, used, files);
    }

    /** Copies a chunk into a new block. */
    method Place(content: seq<byte>) returns (r: Option<nat>)
      requires Valid() && |content| <= BLOCK_SIZE
      modifies `disk, `groups, `allocGroup, `used
      ensures Valid() && OnlyFresh(old(disk), disk, gdt, old(used), used) && SameBlocks(old(disk), disk, old(used))
      ensures r.Some? ==>
                && r.value !in old(used) && used == old(used) + {r.value} && r.value < |disk|
                && disk[r.value][..|content|] == content
      ensures r.None? ==> used == old(used)
      ensures Taken(old(groups), groups, r.Some?, 1)
    {
      hide GroupAt, InodesAt, IsBlockBitmap, FileAt;
      ghost var disk0, used0 := disk, used;
      r := Alloc();
      if r.Some? {
        FillKeepsSound(disk, groups, gdt, allocGroup, used, inodes, r.value, Put(disk[r.value], 0, content));
        disk := disk[r.value := Put(disk[r.value], 0, content)];
      }
      Recheck(disk0, used0);
    }

    /** A new block that lists block numbers. */
    method PointerBlock(pointers: seq<nat>) returns (r: Option<nat>)
      requires Valid() && |pointers| <= NUMBERS_PER_BLOCK && forall p :: p in pointers ==> p < 0x1_0000_0000
      modifies `disk, `groups, `allocGroup, `used
      ensures Valid() && OnlyFresh(old(disk), disk, gdt, old(used), used) && SameBlocks(old(disk), disk, old(used))
      ensures r.Some? ==>
                && r.value !in old(used) && used == old(used) + {r.value}
                && ListedIn(disk, r.value, pointers, 0, |pointers|)
      ensures r.None? ==> used == old(used)
      ensures Taken(old(groups), groups, r.Some?, 1)
    {
      hide GroupAt, InodesAt, IsBlockBitmap, FileAt, Get32, Put;
      ghost var disk0, used0 := disk, used;
      r := Alloc();
      if r.Some? {
        ghost var disk1 := disk;
        for i := 0 to |pointers|
          invariant |disk| == |disk1| && |disk[r.value]| == BLOCK_SIZE && disk == disk1[r.value := disk[r.value]]
          invariant forall k: nat :: k < i ==> Get32(disk[r.value], 0 + k * 4) == pointers[k]
          modifies `disk
        {
          assert pointers[i] in pointers;
          ListOneMore(disk[r.value], 0, pointers, i);
          disk := disk[r.value := Put(disk[r.value], 0 + i * 4, Le32(pointers[i]))];
        }
        FillKeepsSound(disk1, groups, gdt, allocGroup, used, inodes, r.value, disk[r.value]);
      }
      Recheck(disk0, used0);
    }

    /** Writes the data, a block at a time, into new blocks. */
    method WriteChunks(data: seq<byte>) returns (ok: bool, blocks: seq<nat>)
      requires Valid()
      modifies `disk, `groups, `allocGroup, `used
      ensures Valid() && OnlyFresh(old(disk), disk, gdt, old(used), used) && SameBlocks(old(disk), disk, old(used))
      ensures Held(blocks, used, |disk|) && Taken(old(groups), groups, ok, BlocksFor(|data|))
      ensures ok ==> Fresh(Members(blocks), |blocks|, old(used), used)
      ensures ok ==>
                && |blocks| == BlocksFor(|data|)
                && forall k: nat {:trigger ChunkAt(disk, data, blocks, k)} ::
                     k < |blocks| ==> ChunkAt(disk, data, blocks, k)
    {
      hide GroupAt, InodesAt, IsBlockBitmap, FileAt, Valid, Chunk, Fresh, Members, Directories, Separate, Intact;
      ValidBlocks();
      FreshNone(used);
      blocks := [];
      for i := 0 to BlocksFor(|data|)
        invariant Valid() && Blocks(disk) && OnlyFresh(old(disk), disk, gdt, old(used), used)
        invariant SameBlocks(old(disk), disk, old(used))
        invariant |blocks| == i && Held(blocks, used, |disk|) && Taken(old(groups), groups, true, i)
        invariant Fresh(Members(blocks), i, old(used), used)
        invariant forall k: nat {:trigger ChunkAt(disk, data, blocks, k)} :: k < i ==> ChunkAt(disk, data, blocks, k)
      {
        ghost var disk1, used1 := disk, used;
        var b := Place(Chunk(data, i));
        ValidBlocks();
        FreshTwice(old(disk), disk1, disk, gdt, old(used), used1, used);
        if b.None? {
          HeldLonger(blocks, used1, used, |disk|);
          return false, blocks;
        }
        MoreChunks(disk1, disk, data, blocks, used1, used, b.value);
        FreshFurther(blocks, b.value, old(used), used1, used);
        blocks := blocks + [b.value];
      }
      return true, blocks;
    }

    /** The second-level pointer blocks of a file. */
    method WriteSeconds(blocks: seq<nat>) returns (ok: bool, seconds: seq<nat>)
      requires Valid() && Held(blocks, used, |disk|) && |blocks| <= MAX_FILE_BLOCKS
      modifies `disk, `groups, `allocGroup, `used
      ensures Valid() && OnlyFresh(old(disk), disk, gdt, old(used), used) && SameBlocks(old(disk), disk, old(used))
      ensures Held(seconds, used, |disk|) && Taken(old(groups), groups, ok, SecondsFor(|blocks|))
      ensures ok ==> Fresh(Members(seconds), |seconds|, old(used), used)
      ensures ok ==>
                && |seconds| == SecondsFor(|blocks|)
                && forall j: nat {:trigger SecondAt(disk, blocks, seconds, j)} ::
                     j < |seconds| ==> SecondAt(disk, blocks, seconds, j)
    {
      hide GroupAt, InodesAt, IsBlockBitmap, FileAt, Valid, Get32, Fresh, Members, Directories, Separate, Intact;
      ValidBlocks();
      FreshNone(used);
      seconds := [];
      for j := 0 to SecondsFor(|blocks|)
        invariant Valid() && Blocks(disk) && OnlyFresh(old(disk), disk, gdt, old(used), used)
        invariant SameBlocks(old(disk), disk, old(used))
        invariant |seconds| == j && Held(seconds, used, |disk|) && Taken(old(groups), groups, true, j)
        invariant Fresh(Members(seconds), j, old(used), used)
        invariant forall i: nat {:trigger SecondAt(disk, blocks, seconds, i)} ::
                  i < j ==> SecondAt(disk, blocks, seconds, i)
      {
        ghost var disk1, used1 := disk, used;
        var from, to := INDIRECT + NUMBERS_PER_BLOCK * j, Min(INDIRECT + NUMBERS_PER_BLOCK * (j + 1), |blocks|);
        NumbersFit(blocks, old(used), |disk|, from, to);
        ValidBlocks();
        var b := PointerBlock(blocks[from..to]);
        ValidBlocks();
        FreshTwice(old(disk), disk1, disk, gdt, old(used), used1, used);
        if b.None? {
          HeldLonger(seconds, used1, used, |disk|);
          return false, seconds;
        }
        SliceListed(disk, b.value, blocks, from, to);
        MoreSeconds(disk1, disk, blocks, seconds, used1, used, b.value);
        FreshFurther(seconds, b.value, old(used), used1, used);
        seconds := seconds + [b.value];
      }
      return true, seconds;
    }

    /** The single indirect block, if the file needs one. */
    method SingleLevel(blocks: seq<nat>) returns (ok: bool, single: nat)
      requires Valid() && Held(blocks, used, |disk|)
      modifies `disk, `groups, `allocGroup, `used
      ensures Valid() && OnlyFresh(old(disk), disk, gdt, old(used), used) && SameBlocks(old(disk), disk, old(used))
      ensures ok ==> SingleOk(disk, blocks, single, used)
      ensures ok ==> if |blocks| > DIRECT then Fresh({single}, 1, old(used), used) else Fresh({}, 0, old(used), used)
      ensures Taken(old(groups), groups, ok, if |blocks| > DIRECT then 1 else 0)
    {
      hide GroupAt, InodesAt, IsBlockBitmap, FileAt, Valid, Get32, Fresh, Directories, Separate, Intact;
      ValidBlocks();
      FreshNone(used);
      if |blocks| <= DIRECT {
        return true, 0;
      }
      var to := Min(INDIRECT, |blocks|);
      NumbersFit(blocks, used, |disk|, DIRECT, to);
      var b := PointerBlock(blocks[DIRECT..to]);
      ValidBlocks();
      if b.None? {
        return false, 0;
      }
      SliceListed(disk, b.value, blocks, DIRECT, to);
      FreshOne(b.value, old(used), used);
      return true, b.value;
    }

    /** The double indirect block and those below it, if the file needs them. */
    method DoubleLevel(blocks: seq<nat>) returns (ok: bool, seconds: seq<nat>, double: nat)
      requires Valid() && Held(blocks, used, |disk|) && |blocks| <= MAX_FILE_BLOCKS
      modifies `disk, `groups, `allocGroup, `used
      ensures Valid() && OnlyFresh(old(disk), disk, gdt, old(used), used) && SameBlocks(old(disk), disk, old(used))
      ensures ok ==> DoubleOk(disk, blocks, seconds, double, used)
      ensures ok ==> if |blocks| > INDIRECT then
                       Fresh(Members(seconds) + {double}, SecondsFor(|blocks|) + 1, old(used), used)
                     else Fresh({}, 0, old(used), used)
      ensures Taken(old(groups), groups, ok, if |blocks| > INDIRECT then SecondsFor(|blocks|) + 1 else 0)
    {
      hide GroupAt, InodesAt, IsBlockBitmap, FileAt, Valid, Get32, Fresh, Members, Directories, Separate, Intact;
      ValidBlocks();
      FreshNone(used);
      if |blocks| <= INDIRECT {
        return true, [], 0;
      }
      ok, seconds := WriteSeconds(blocks);
      if !ok {
        return false, seconds, 0;
      }
      ValidBlocks();
      ghost var disk1, used1 := disk, used;
      NumbersFit(seconds, used, |disk|, 0, |seconds|);
      assert seconds[0..|seconds|] == seconds;
      var b := PointerBlock(seconds);
      ValidBlocks();
      FreshTwice(old(disk), disk1, disk, gdt, old(used), used1, used);
      if b.None? {
        return false, seconds, 0;
      }
      SecondsKept(disk1, disk, blocks, seconds, used1);
      FreshOne(b.value, used1, used);
      FreshTogether(Members(seconds), |seconds|, {b.value}, 1, old(used), used1, used);
      HeldLonger(seconds, used1, used, |disk|);
      return true, seconds, b.value;
    }

    /** Stores data behind block pointers. */
    method Store(data: seq<byte>) returns (ok: bool, f: File)
      requires Valid() && BlocksFor(|data|) <= MAX_FILE_BLOCKS
      modifies `disk, `groups, `allocGroup, `used
      ensures Valid() && OnlyFresh(old(disk), disk, gdt, old(used), used)
      ensures ok ==> f.data == data && Laid(disk, f) && Fresh(Owned(f), Needed(|f.blocks|), old(used), used)
      ensures Taken(old(groups), groups, ok, Needed(BlocksFor(|data|)))
    {
      hide GroupAt, InodesAt, IsBlockBitmap, FileAt, Valid, Get32, Laid, SingleOk, DoubleOk, Fresh, Members, Owned,
           Directories, Separate, Intact;
      ValidBlocks();
      var blocks, single, seconds, double := [], 0, [], 0;
      f := File(data, [], 0, [], 0);
      ok, blocks := WriteChunks(data);
      if !ok {
        return;
      }
      ValidBlocks();
      ghost var disk1, used1 := disk, used;
      ok, single := SingleLevel(blocks);
      FreshTwice(old(disk), disk1, disk, gdt, old(used), used1, used);
      if !ok {
        return;
      }
      ValidBlocks();
      HeldLonger(blocks, used1, used, |disk|);
      ghost var disk2, used2 := disk, used;
      ok, seconds, double := DoubleLevel(blocks);
      FreshTwice(old(disk), disk2, disk, gdt, old(used), used2, used);
      if !ok {
        return;
      }
      ValidBlocks();
      f := File(data, blocks, single, seconds, double);
      Assembled(disk1, disk2, disk, f, used1, used2, used);
      AllFresh(f, old(used), used1, used2, used);
    }

    /** The inode is on the disk, in an inode table. */
    lemma InodeOnDisk(number: nat)
      requires Valid() && 1 <= number <= groupCount * INODES_PER_GROUP
      ensures InodeBlock(gdt, number) < |disk| && IsTable(gdt, InodeBlock(gdt, number))
    {
      var g := (number - 1) / INODES_PER_GROUP;
      assert GroupAt(disk, groups, gdt, g);
      InodesAreInTables(gdt, number);
    }

    /** After a write within one inode. */
    lemma InodeWritten(disk0: Image, number: nat, s: Stored)
      requires Blocks(disk0) && Blocks(disk) && 1 < |disk| == |disk0| == total < 0x1_0000_0000
      requires Meta(gdt) <= BLOCKS_PER_GROUP
      requires |groups| == groupCount == GroupCount(total) <= 65535 && gdt == GdtBlocks(total)
      requires Shape(disk0, groups, gdt, allocGroup, used) && InodesExact(disk0, groups, gdt, inodes)
      requires Intact(disk0, gdt, used, files)
      requires number >= 1 && InodeBlock(gdt, number) < |disk| && IsTable(gdt, InodeBlock(gdt, number))
      requires disk == disk0[InodeBlock(gdt, number) := disk[InodeBlock(gdt, number)]]
      requires SameRange(disk0[InodeBlock(gdt, number)], disk[InodeBlock(gdt, number)], 0, InodeOffset(number))
      requires SameRange(disk0[InodeBlock(gdt, number)], disk[InodeBlock(gdt, number)], InodeOffset(number) + 128,
                         BLOCK_SIZE)
      requires StoredAt(disk, used, disk[InodeBlock(gdt, number)], InodeOffset(number), s)
      ensures Sound() && Intact(disk, gdt, used, files[number := s])
    {
      hide StoredAt, InodeBlock, InodeOffset, GroupAt, InodesAt, FileAt, IsTable;
      FillKeepsSound(disk0, groups, gdt, allocGroup, used, inodes, InodeBlock(gdt, number),
                     disk[InodeBlock(gdt, number)]);
      forall b | b in used ensures IsData(gdt, b) {
        assert UsedAt(groups, gdt, used, b);
      }
      IntactInode(disk0, disk, gdt, used, files, number, s);
    }

    /** The inode of a stored file. */
    method WriteInode(number: nat, mode: u16, links: u16, f: File)
      requires Valid() && 1 <= number <= groupCount * INODES_PER_GROUP && Laid(disk, f) && Owned(f) <= used
      requires |f.data| < 0x1_0000_0000
      requires |Owned(f)| == Needed(|f.blocks|) && Separate(files[number := InBlocks(f, mode, links)])
      modifies `disk, `files
      ensures Valid() && files == old(files)[number := InBlocks(f, mode, links)]
    {
      hide GroupAt, InodesAt, FileAt, Get32, Put, Laid, Owned, InodeBlock, InodeOffset, IsTable, PointerArray,
           Described, Header, Headed;
      InodeOnDisk(number);
      var ib, off, pointers, sectors := InodeBlock(gdt, number), InodeOffset(number), PointerArray(f), Sectors(f);
      SectorsOf(disk, f);
      PointersFit(f, disk, used, groups, gdt, allocGroup);
      ghost var disk0 := disk;
      HeaderHolds(disk[ib], off, mode, |f.data|, links, sectors);
      disk := disk[ib := Header(disk[ib], off, mode, |f.data|, links, sectors)];
      for i := 0 to 15
        invariant |disk| == |disk0| && |disk[ib]| == BLOCK_SIZE && disk == disk0[ib := disk[ib]]
        invariant SameRange(disk0[ib], disk[ib], 0, off) && SameRange(disk0[ib], disk[ib], off + 128, BLOCK_SIZE)
        invariant Headed(disk[ib], off, mode, |f.data|, links, sectors)
        invariant forall k: nat :: k < i ==> Get32(disk[ib], off + 40 + k * 4) == pointers[k]
        modifies `disk
      {
        ListOneMore(disk[ib], off + 40, pointers, i);
        InodeStep(disk0[ib], disk[ib], off, pointers, i);
        HeadedKept(disk[ib], Put(disk[ib], off + 40 + i * 4, Le32(pointers[i])), off, mode, |f.data|, links, sectors);
        disk := disk[ib := Put(disk[ib], off + 40 + i * 4, Le32(pointers[i]))];
      }
      HeadedSize(disk[ib], off, mode, |f.data|, links, sectors);
      PointersDescribe(disk[ib], off, f);
      LaidElsewhere(disk0, disk, f, used, groups, gdt, allocGroup, ib);
      InodeWritten(disk0, number, InBlocks(f, mode, links));
      files := files[number := InBlocks(f, mode, links)];
    }

    /** The inode of a short symbolic link holds its text. */
    method WriteShortLink(number: nat, mode: u16, links: u16, text: seq<byte>)
      requires Valid() && 1 <= number <= groupCount * INODES_PER_GROUP && |text| < 60
      modifies `disk, `files
      ensures Valid() && files == old(files)[number := Inline(text, mode, links)]
    {
      hide GroupAt, InodesAt, FileAt, Get32, Put, InodeBlock, InodeOffset, IsTable, Header, Headed;
      InodeOnDisk(number);
      var ib, off := InodeBlock(gdt, number), InodeOffset(number);
      ghost var disk0 := disk;
      HeaderHolds(disk[ib], off, mode, |text|, links, 0);
      var header := Header(disk[ib], off, mode, |text|, links, 0);
      TextHolds(disk[ib], header, off, text);
      HeadedKept(header, Put(header, off + 40, text), off, mode, |text|, links, 0);
      disk := disk[ib := Put(header, off + 40, text)];
      InodeWritten(disk0, number, Inline(text, mode, links));
      SeparateWith(disk0, gdt, used, files, number, Inline(text, mode, links));
      files := files[number := Inline(text, mode, links)];
    }

    /** Writes an inode and its contents. */
    method WriteNode(number: nat, mode: u16, links: u16, data: seq<byte>, symlink: bool) returns (ok: bool)
      requires Valid() && 1 <= number <= groupCount * INODES_PER_GROUP
      modifies `disk, `groups, `allocGroup, `used, `files
      ensures Valid()
      ensures ok ==>
                && files.Keys == old(files).Keys + {number} && Text(files[number]) == data && files[number].mode == mode
                && files[number].links == links
      ensures ok ==> (files[number].Inline? <==> symlink && |data| < 60)
      ensures ok <==> |data| <= MAX_FILE_BYTES && Demand(|data|, symlink) <= old(FreeBlocks(groups))
      ensures ok ==> FreeBlocks(groups) == old(FreeBlocks(groups)) - Demand(|data|, symlink)
      ensures Directories(groups) == old(Directories(groups))
      ensures forall n :: n in old(files) && n != number ==> n in files && files[n] == old(files)[n]
    {
      hide GroupAt, InodesAt, FileAt, Valid, Laid, Owned, FreeBlocks, Needed;
      ValidBlocks();
      if |data| > MAX_FILE_BYTES {
        return false;
      }
      if symlink && |data| < 60 {
        WriteShortLink(number, mode, links, data);
        return true;
      }
      var f;
      ghost var disk0, used0 := disk, used;
      ok, f := Store(data);
      if ok {
        SeparateWith(disk0, gdt, used0, files, number, InBlocks(f, mode, links));
        WriteInode(number, mode, links, f);
      }
    }

    /** Marks an inode as used. The builder numbers inodes in ascending order; the root has one of the
        reserved numbers. */
    method UseInode(number: nat, directory: bool) returns (ok: bool)
      requires Valid() && number >= 1 && (number == 2 || number - 1 == inodes)
      modifies `disk, `groups, `inodes
      ensures Valid()
      ensures ok <==> number <= groupCount * INODES_PER_GROUP
      ensures inodes == if ok && number != 2 then old(inodes) + 1 else old(inodes)
      ensures FreeBlocks(groups) == old(FreeBlocks(groups)) && |groups| == |old(groups)|
      ensures forall g :: 0 <= g < |groups| ==>
                groups[g].directories == old(groups)[g].directories
                                         + (if ok && directory && g == (number - 1) / INODES_PER_GROUP then 1 else 0)
    {
      hide GroupAt, InodesAt, FileAt, Shape, InodesExact, Intact, Separate, SetBit, FreeBlocks, GdtBlocks;
      ValidBlocks();
      var g := (number - 1) / INODES_PER_GROUP;
      if g >= |groups| {
        return false;
      }
      if number != 2 {
        ghost var disk0, groups0 := disk, groups;
        FreeAfter(groups, g, groups[g].(usedInodes := groups[g].usedInodes + 1));
        InodeMarked(disk, groups, gdt, allocGroup, used, files, inodes, g);
        disk := disk[groups[g].inodeBitmap := SetBit(disk[groups[g].inodeBitmap], (number - 1) % INODES_PER_GROUP)];
        groups := groups[g := groups[g].(usedInodes := groups[g].usedInodes + 1)];
        inodes := inodes + 1;
      }
      if directory {
        FreeAfter(groups, g, groups[g].(directories := groups[g].directories + 1));
        DirectoryCounted(disk, groups, gdt, allocGroup, used, inodes, g);
        groups := groups[g := groups[g].(directories := groups[g].directories + 1)];
      }
      return true;
    }

    lemma ValidBlocks()
      requires Valid()
      ensures Blocks(disk) && |disk| < 0x1_0000_0000 && FreeBlocks(groups) >= 0
      ensures Intact(disk, gdt, used, files) && Separate(files)
    {
      FreeIsNatural(disk, groups, gdt, |groups|);
      assert groups[..|groups|] == groups;
    }
  }

  /** Blocks that are in use and on the disk. */
  ghost predicate Held(blocks: seq<nat>, used: set<nat>, total: nat) {
    forall b :: b in blocks ==> b in used && b < total
  }

  lemma HeldLonger(blocks: seq<nat>, used: set<nat>, used': set<nat>, total: nat)
    requires Held(blocks, used, total) && used <= used'
    ensures Held(blocks, used', total)
  {
  }

  lemma FreshTwice(d0: Image, d1: Image, d2: Image, gdt: nat, u0: set<nat>, u1: set<nat>, u2: set<nat>)
    requires OnlyFresh(d0, d1, gdt, u0, u1) && OnlyFresh(d1, d2, gdt, u1, u2) && SameBlocks(d0, d1, u0)
    requires SameBlocks(d1, d2, u1)
    ensures OnlyFresh(d0, d2, gdt, u0, u2) && SameBlocks(d0, d2, u0)
  {
  }

  lemma MoreChunks(disk: Image, disk': Image, data: seq<byte>, blocks: seq<nat>, used: set<nat>, used': set<nat>,
                   b: nat)
    requires Blocks(disk) && Blocks(disk') && Held(blocks, used, |disk|) && SameBlocks(disk, disk', used)
    requires used <= used'
    requires forall k: nat {:trigger ChunkAt(disk, data, blocks, k)} :: k < |blocks| ==> ChunkAt(disk, data, blocks, k)
    requires |blocks| < BlocksFor(|data|) && b in used' && b < |disk'|
    requires disk'[b][..|Chunk(data, |blocks|)|] == Chunk(data, |blocks|)
    ensures var blocks' := blocks + [b];
            && Held(blocks', used', |disk'|)
            && forall k: nat {:trigger ChunkAt(disk', data, blocks', k)} ::
                 k < |blocks'| ==> ChunkAt(disk', data, blocks', k)
  {
    var blocks' := blocks + [b];
    forall k: nat | k < |blocks'| ensures ChunkAt(disk', data, blocks', k) {
      if k < |blocks| {
        assert ChunkAt(disk, data, blocks, k) && blocks[k] in blocks && blocks'[k] == blocks[k];
      }
    }
  }

  lemma NumbersFit(blocks: seq<nat>, used: set<nat>, total: nat, from: nat, to: nat)
    requires Held(blocks, used, total) && from <= to <= |blocks|
    ensures forall p :: p in blocks[from..to] ==> p < total
  {
    forall p | p in blocks[from..to] ensures p < total {
      assert p in blocks;
    }
  }

  lemma SliceListed(disk: Image, b: nat, blocks: seq<nat>, from: nat, to: nat)
    requires Blocks(disk) && from <= to <= |blocks| && ListedIn(disk, b, blocks[from..to], 0, to - from)
    ensures ListedIn(disk, b, blocks, from, to)
  {
    hide Get32;
    forall i | from <= i < to ensures Get32(disk[b], (i - from) * 4) == blocks[i] {
      var k := i - from;
      assert blocks[from..to][k] == blocks[i] && Get32(disk[b], (k - 0) * 4) == blocks[from..to][k];
    }
  }

  lemma MoreSeconds(disk: Image, disk': Image, blocks: seq<nat>, seconds: seq<nat>, used: set<nat>, used': set<nat>,
                    b: nat)
    requires Blocks(disk) && Blocks(disk') && Held(seconds, used, |disk|) && SameBlocks(disk, disk', used)
    requires used <= used'
    requires forall j: nat {:trigger SecondAt(disk, blocks, seconds, j)} ::
              j < |seconds| ==> SecondAt(disk, blocks, seconds, j)
    requires b in used' && b < |disk'| && INDIRECT + NUMBERS_PER_BLOCK * |seconds| <= |blocks|
    requires ListedIn(disk', b, blocks, INDIRECT + NUMBERS_PER_BLOCK * |seconds|,
                      Min(INDIRECT + NUMBERS_PER_BLOCK * (|seconds| + 1), |blocks|))
    ensures var seconds' := seconds + [b];
            && Held(seconds', used', |disk'|)
            && forall j: nat {:trigger SecondAt(disk', blocks, seconds', j)} ::
                 j < |seconds'| ==> SecondAt(disk', blocks, seconds', j)
  {
    var seconds' := seconds + [b];
    forall j: nat | j < |seconds'| ensures SecondAt(disk', blocks, seconds', j) {
      if j < |seconds| {
        assert SecondAt(disk, blocks, seconds, j) && seconds[j] in seconds && seconds'[j] == seconds[j];
      }
    }
  }

  ghost predicate SingleOk(disk: Image, blocks: seq<nat>, single: nat, used: set<nat>)
    requires Blocks(disk)
  {
    |blocks| > DIRECT ==> single in used && ListedIn(disk, single, blocks, DIRECT, Min(INDIRECT, |blocks|))
  }

  ghost predicate DoubleOk(disk: Image, blocks: seq<nat>, seconds: seq<nat>, double: nat, used: set<nat>)
    requires Blocks(disk)
  {
    |blocks| > INDIRECT ==>
      && double in used && Held(seconds, used, |disk|) && |seconds| == SecondsFor(|blocks|)
      && ListedIn(disk, double, seconds, 0, |seconds|)
      && forall j: nat {:trigger SecondAt(disk, blocks, seconds, j)} ::
           j < |seconds| ==> SecondAt(disk, blocks, seconds, j)
  }

  lemma SecondsKept(disk: Image, disk': Image, blocks: seq<nat>, seconds: seq<nat>, used: set<nat>)
    requires Blocks(disk) && Blocks(disk') && Held(seconds, used, |disk|) && SameBlocks(disk, disk', used)
    requires forall j: nat {:trigger SecondAt(disk, blocks, seconds, j)} ::
              j < |seconds| ==> SecondAt(disk, blocks, seconds, j)
    ensures forall j: nat {:trigger SecondAt(disk', blocks, seconds, j)} ::
              j < |seconds| ==> SecondAt(disk', blocks, seconds, j)
  {
    forall j: nat | j < |seconds| ensures SecondAt(disk', blocks, seconds, j) {
      assert SecondAt(disk, blocks, seconds, j) && seconds[j] in seconds;
    }
  }

  /** The parts of a file, written one after the other, make up the file. */
  lemma Assembled(disk1: Image, disk2: Image, disk: Image, f: File, used1: set<nat>, used2: set<nat>, used: set<nat>)
    requires Blocks(disk1) && Blocks(disk2) && Blocks(disk) && used1 <= used2 <= used
    requires SameBlocks(disk1, disk2, used1) && SameBlocks(disk2, disk, used2)
    requires Held(f.blocks, used1, |disk1|) && |f.blocks| == BlocksFor(|f.data|) <= MAX_FILE_BLOCKS
    requires forall k: nat {:trigger ChunkAt(disk1, f.data, f.blocks, k)} ::
              k < |f.blocks| ==> ChunkAt(disk1, f.data, f.blocks, k)
    requires SingleOk(disk2, f.blocks, f.single, used2) && DoubleOk(disk, f.blocks, f.seconds, f.double, used)
    ensures Laid(disk, f) && Owned(f) <= used
  {
    forall i: nat | i < |f.blocks| ensures ChunkIn(disk, f, i) {
      assert ChunkAt(disk1, f.data, f.blocks, i) && f.blocks[i] in f.blocks;
    }
    forall j: nat | |f.blocks| > INDIRECT && j < |f.seconds| ensures SecondIn(disk, f, j) {
      assert SecondAt(disk, f.blocks, f.seconds, j);
    }
    assert |f.blocks| > DIRECT ==> disk[f.single] == disk2[f.single];
    assert Laid(disk, f);
    forall b | b in Owned(f) ensures b in used {}
  }

  /** Data and pointer blocks together. */
  lemma AllFresh(f: File, used: set<nat>, used1: set<nat>, used2: set<nat>, used3: set<nat>)
    requires Fresh(Members(f.blocks), |f.blocks|, used, used1)
    requires if |f.blocks| > DIRECT then Fresh({f.single}, 1, used1, used2) else Fresh({}, 0, used1, used2)
    requires if |f.blocks| > INDIRECT then
               Fresh(Members(f.seconds) + {f.double}, SecondsFor(|f.blocks|) + 1, used2, used3)
             else Fresh({}, 0, used2, used3)
    ensures Fresh(Owned(f), Needed(|f.blocks|), used, used3)
  {
    hide Fresh;
    var single := if |f.blocks| > DIRECT then {f.single} else {};
    var double := if |f.blocks| > INDIRECT then Members(f.seconds) + {f.double} else {};
    FreshTogether(Members(f.blocks), |f.blocks|, single, |single|, used, used1, used2);
    FreshTogether(Members(f.blocks) + single, |f.blocks| + |single|, double,
                  if |f.blocks| > INDIRECT then SecondsFor(|f.blocks|) + 1 else 0, used, used2, used3);
    assert Owned(f) == Members(f.blocks) + single + double;
  }

  /** Listing one more number leaves those before it alone. */
  lemma ListOneMore(b: seq<byte>, base: nat, pointers: seq<nat>, i: nat)
    requires |b| == BLOCK_SIZE && i < |pointers| && base + |pointers| * 4 <= BLOCK_SIZE && pointers[i] < 0x1_0000_0000
    requires forall k: nat :: k < i ==> Get32(b, base + k * 4) == pointers[k]
    ensures forall k: nat :: k <= i ==> Get32(Put(b, base + i * 4, Le32(pointers[i])), base + k * 4) == pointers[k]
  {
    var off := base + i * 4;
    var b' := Put(b, off, Le32(pointers[i]));
    GetPut32(b, off, pointers[i]);
    PutKeeps(b, off, Le32(pointers[i]), 0, off);
    forall k: nat | k < i ensures Get32(b', base + k * 4) == pointers[k] {
      assert base + k * 4 + 4 <= off;
    }
  }

  // ---- writing an inode ----

  /** The fields of an inode in front of its block pointers. */
  function Header(b: seq<byte>, off: nat, mode: u16, size: nat, links: u16, sectors: nat): (r: seq<byte>)
    requires |b| == BLOCK_SIZE && off + INODE_SIZE <= BLOCK_SIZE
    ensures |r| == BLOCK_SIZE
  {
    Put(Put(Put(Put(b, off, Le16(mode)), off + 4, Le32(size)), off + 26, Le16(links)), off + 28, Le32(sectors))
  }

  lemma HeaderFields(b: seq<byte>, b1: seq<byte>, b2: seq<byte>, b3: seq<byte>, off: nat, mode: u16, size: nat,
                     links: u16, sectors: nat)
    requires |b| == BLOCK_SIZE && off + INODE_SIZE <= BLOCK_SIZE && size < 0x1_0000_0000 && sectors < 0x1_0000_0000
    requires b1 == Put(b, off, Le16(mode)) && b2 == Put(b1, off + 4, Le32(size)) && b3 == Put(b2, off + 26, Le16(links))
    ensures Headed(Put(b3, off + 28, Le32(sectors)), off, mode, size, links, sectors)
  {
    hide Put, Get32, Get16, Le32, Le16;
    GetPut16(b, off, mode);
    GetPut32(b1, off + 4, size);
    GetPut16(b2, off + 26, links);
    GetPut32(b3, off + 28, sectors);
    PutKeeps(b1, off + 4, Le32(size), off, off + 2);
    PutKeeps(b2, off + 26, Le16(links), off, off + 8);
    PutKeeps(b3, off + 28, Le32(sectors), off, off + 28);
    var b4 := Put(b3, off + 28, Le32(sectors));
    SameNumbers(b1, b2, off);
    SameNumbers(b2, b3, off);
    SameNumbers(b3, b4, off);
    SameNumbers(b2, b3, off + 4);
    SameNumbers(b3, b4, off + 4);
    SameNumbers(b3, b4, off + 26);
  }

  lemma HeaderHolds(b: seq<byte>, off: nat, mode: u16, size: nat, links: u16, sectors: nat)
    requires |b| == BLOCK_SIZE && off + INODE_SIZE <= BLOCK_SIZE && size < 0x1_0000_0000 && sectors < 0x1_0000_0000
    ensures var r := Header(b, off, mode, size, links, sectors);
            Headed(r, off, mode, size, links, sectors) && SameRange(b, r, 0, off)
            && SameRange(b, r, off + 40, BLOCK_SIZE)
  {
    hide Put, Get32;
    var b1 := Put(b, off, Le16(mode));
    var b2 := Put(b1, off + 4, Le32(size));
    var b3 := Put(b2, off + 26, Le16(links));
    var b4 := Put(b3, off + 28, Le32(sectors));
    HeaderFields(b, b1, b2, b3, off, mode, size, links, sectors);
    forall lo, hi | (lo == 0 && hi == off) || (lo == off + 40 && hi == BLOCK_SIZE) ensures SameRange(b, b4, lo, hi) {
      PutKeeps(b, off, Le16(mode), lo, hi);
      PutKeeps(b1, off + 4, Le32(size), lo, hi);
      PutKeeps(b2, off + 26, Le16(links), lo, hi);
      PutKeeps(b3, off + 28, Le32(sectors), lo, hi);
    }
  }

  /** The fifteen block pointers of an inode. */
  function PointerArray(f: File): (r: seq<nat>)
    ensures |r| == 15
  {
    seq(DIRECT, i requires 0 <= i < DIRECT => if i < |f.blocks| then f.blocks[i] else 0)
    + [if |f.blocks| > DIRECT then f.single else 0, if |f.blocks| > INDIRECT then f.double else 0, 0]
  }

  lemma PointersDescribe(inode: seq<byte>, off: nat, f: File)
    requires |inode| == BLOCK_SIZE && off + INODE_SIZE <= BLOCK_SIZE && Get32(inode, off + 4) == |f.data|
    requires forall k: nat :: k < 15 ==> Get32(inode, off + 40 + k * 4) == PointerArray(f)[k]
    ensures Described(inode, off, f)
  {
    hide Get32;
    assert Get32(inode, off + 40 + 12 * 4) == PointerArray(f)[12];
    assert Get32(inode, off + 40 + 13 * 4) == PointerArray(f)[13];
    forall i: nat | i < DIRECT && i < |f.blocks| ensures Get32(inode, off + 40 + i * 4) == f.blocks[i] {
      assert PointerArray(f)[i] == f.blocks[i];
    }
    forall i: nat | i < 15 && Spare(i, |f.blocks|) ensures Get32(inode, off + 40 + i * 4) == 0 {
      assert PointerArray(f)[i] == 0;
    }
  }

  /** Sectors of 512 bytes that data and pointer blocks take up. */
  function Sectors(f: File): nat {
    2 * (|f.blocks| + (if |f.blocks| > DIRECT then 1 else 0) + (if |f.blocks| > INDIRECT then |f.seconds| + 1 else 0))
  }

  lemma SectorsOf(disk: Image, f: File)
    requires Blocks(disk) && Laid(disk, f)
    ensures Sectors(f) == 2 * Needed(|f.blocks|) < 0x1_0000_0000
  {
  }

  lemma HeadedSize(inode: seq<byte>, off: nat, mode: u16, size: nat, links: u16, sectors: nat)
    requires |inode| == BLOCK_SIZE && off + 128 <= BLOCK_SIZE && Headed(inode, off, mode, size, links, sectors)
    ensures Get32(inode, off + 4) == size
  {
  }

  lemma InodeStep(b0: seq<byte>, b: seq<byte>, off: nat, pointers: seq<nat>, i: nat)
    requires |b0| == |b| == BLOCK_SIZE && off + INODE_SIZE <= BLOCK_SIZE && i < |pointers| == 15
    requires SameRange(b0, b, 0, off) && SameRange(b0, b, off + 128, BLOCK_SIZE)
    ensures var b' := Put(b, off + 40 + i * 4, Le32(pointers[i]));
            && SameRange(b0, b', 0, off) && SameRange(b0, b', off + 128, BLOCK_SIZE)
            && SameRange(b, b', off, off + 40)
  {
    hide Put;
    var at, s := off + 40 + i * 4, Le32(pointers[i]);
    PutKeeps(b, at, s, 0, off);
    PutKeeps(b, at, s, off + 128, BLOCK_SIZE);
    PutKeeps(b, at, s, off, off + 40);
  }

  lemma PointersFit(f: File, disk: Image, used: set<nat>, groups: seq<Group>, gdt: nat, allocGroup: nat)
    requires Shape(disk, groups, gdt, allocGroup, used) && Laid(disk, f) && |disk| < 0x1_0000_0000
    ensures forall k :: 0 <= k < 15 ==> PointerArray(f)[k] < 0x1_0000_0000
  {
    forall k | 0 <= k < DIRECT && k < |f.blocks| ensures f.blocks[k] < |disk| {
      assert ChunkIn(disk, f, k);
    }
  }

  /** A write to an inode table leaves the file's own blocks alone. */
  lemma LaidElsewhere(disk: Image, disk': Image, f: File, used: set<nat>, groups: seq<Group>, gdt: nat, allocGroup: nat,
                      ib: nat)
    requires Shape(disk, groups, gdt, allocGroup, used) && Blocks(disk') && Laid(disk, f) && Owned(f) <= used
    requires ib < |disk| == |disk'| && IsTable(gdt, ib) && disk' == disk[ib := disk'[ib]]
    ensures Laid(disk', f)
  {
    assert UsedAt(groups, gdt, used, ib);
    LaidKept(disk, disk', f);
  }

  const MAX_FILE_BYTES: nat := MAX_FILE_BLOCKS * BLOCK_SIZE

  ghost function Text(s: Stored): seq<byte> {
    match s
    case InBlocks(f, _, _) => f.data
    case Inline(text, _, _) => text
  }

  lemma TextHolds(b: seq<byte>, header: seq<byte>, off: nat, text: seq<byte>)
    requires |b| == |header| == BLOCK_SIZE && off + INODE_SIZE <= BLOCK_SIZE && |text| < 60
    requires SameRange(b, header, 0, off) && SameRange(b, header, off + 40, BLOCK_SIZE)
    ensures var r := Put(header, off + 40, text);
            && SameRange(b, r, 0, off) && SameRange(b, r, off + 128, BLOCK_SIZE)
            && SameRange(header, r, off, off + 40) && r[off + 40..off + 40 + |text|] == text
  {
    PutKeeps(header, off + 40, text, 0, off + 40);
    PutKeeps(header, off + 40, text, off + 128, BLOCK_SIZE);
    var r := Put(header, off + 40, text);
    forall k: nat | k < |text| ensures r[off + 40 + k] == text[k] {
      PutAt(header, off + 40, text, off + 40 + k);
    }
  }

  /** Marking the next inode. */
  lemma InodeMarked(disk: Image, groups: seq<Group>, gdt: nat, allocGroup: nat, used: set<nat>, files: map<nat, Stored>,
                    inodes: nat, g: nat)
    requires Shape(disk, groups, gdt, allocGroup, used) && InodesExact(disk, groups, gdt, inodes)
    requires Intact(disk, gdt, used, files)
    requires Meta(gdt) <= BLOCKS_PER_GROUP && g == inodes / INODES_PER_GROUP && g < |groups|
    ensures groups[g].inodeBitmap < |disk|
    ensures var disk' := disk[groups[g].inodeBitmap := SetBit(disk[groups[g].inodeBitmap], inodes % INODES_PER_GROUP)];
            var groups' := groups[g := groups[g].(usedInodes := groups[g].usedInodes + 1)];
            && Shape(disk', groups', gdt, allocGroup, used) && InodesExact(disk', groups', gdt, inodes + 1)
            && Intact(disk', gdt, used, files)
  {
    hide SetBit, BitmapExact, IsData, IsTable, InodeBitmap, FileAt;
    assert GroupAt(disk, groups, gdt, g);
    assert InodesAt(disk, groups, gdt, inodes, g);
    var ib, bit := groups[g].inodeBitmap, inodes % INODES_PER_GROUP;
    var content := SetBit(disk[ib], bit);
    var disk', groups' := disk[ib := content], groups[g := groups[g].(usedInodes := groups[g].usedInodes + 1)];
    forall h ensures GroupAt(disk', groups', gdt, h) {
      assert GroupAt(disk, groups, gdt, h);
      NotAnInodeBitmap(gdt, g, h);
    }
    var inodes' := inodes + 1;
    forall h ensures InodesAt(disk', groups', gdt, inodes', h) {
      MarkedShare(disk, groups, gdt, inodes, g, h);
    }
    forall b: nat ensures UsedAt(groups', gdt, used, b) && (b in used ==> b != ib) {
      assert UsedAt(groups, gdt, used, b);
      NotAnInodeBitmap(gdt, g, g);
    }
    NotAnInodeBitmap(gdt, g, g);
    IntactKept(disk, disk', gdt, used, used, files);
  }

  lemma NotAnInodeBitmap(gdt: nat, g: nat, h: int)
    requires Meta(gdt) <= BLOCKS_PER_GROUP
    ensures h >= 0 ==> BlockBitmap(gdt, h) != InodeBitmap(gdt, g)
    ensures !IsData(gdt, InodeBitmap(gdt, g)) && !IsTable(gdt, InodeBitmap(gdt, g))
  {
    InGroup(g, 2 + gdt);
  }

  lemma MarkedShare(disk: Image, groups: seq<Group>, gdt: nat, inodes: nat, g: nat, h: int)
    requires Blocks(disk) && g < |groups| && InodesAt(disk, groups, gdt, inodes, g)
    requires InodesAt(disk, groups, gdt, inodes, h)
    requires g == inodes / INODES_PER_GROUP && groups[g].inodeBitmap == InodeBitmap(gdt, g)
    ensures var disk' := disk[groups[g].inodeBitmap := SetBit(disk[groups[g].inodeBitmap], inodes % INODES_PER_GROUP)];
            var groups' := groups[g := groups[g].(usedInodes := groups[g].usedInodes + 1)];
            Blocks(disk') && InodesAt(disk', groups', gdt, inodes + 1, h)
  {
    hide SetBit, BitmapExact;
    assert Share(inodes, g) == inodes % INODES_PER_GROUP;
    BitmapGrows(disk[InodeBitmap(gdt, g)], inodes % INODES_PER_GROUP, INODES_PER_GROUP);
  }

  lemma DirectoryCounted(disk: Image, groups: seq<Group>, gdt: nat, allocGroup: nat, used: set<nat>, inodes: nat,
                         g: nat)
    requires Shape(disk, groups, gdt, allocGroup, used) && InodesExact(disk, groups, gdt, inodes) && g < |groups|
    ensures var groups' := groups[g := groups[g].(directories := groups[g].directories + 1)];
            Shape(disk, groups', gdt, allocGroup, used) && InodesExact(disk, groups', gdt, inodes)
  {
    hide BitmapExact;
    var groups' := groups[g := groups[g].(directories := groups[g].directories + 1)];
    forall h ensures GroupAt(disk, groups', gdt, h) && InodesAt(disk, groups', gdt, inodes, h) {
      assert GroupAt(disk, groups, gdt, h) && InodesAt(disk, groups, gdt, inodes, h);
    }
    forall b: nat ensures UsedAt(groups', gdt, used, b) {
      assert UsedAt(groups, gdt, used, b);
    }
  }

  /** What is written to a data block or an inode table matters neither to the groups nor to the bitmaps. */
  lemma FillKeepsSound(disk: Image, groups: seq<Group>, gdt: nat, allocGroup: nat, used: set<nat>, inodes: nat, b: nat,
                       content: seq<byte>)
    requires Shape(disk, groups, gdt, allocGroup, used) && InodesExact(disk, groups, gdt, inodes)
    requires Meta(gdt) <= BLOCKS_PER_GROUP
    requires b < |disk| && (IsData(gdt, b) || IsTable(gdt, b)) && |content| == BLOCK_SIZE
    ensures Shape(disk[b := content], groups, gdt, allocGroup, used)
    ensures InodesExact(disk[b := content], groups, gdt, inodes)
  {
    hide BitmapExact;
    var disk' := disk[b := content];
    forall g ensures GroupAt(disk', groups, gdt, g) {
      assert GroupAt(disk, groups, gdt, g);
      if 0 <= g < |groups| { InGroup(g, 1 + gdt); }
    }
    forall x: nat ensures UsedAt(groups, gdt, used, x) {
      assert UsedAt(groups, gdt, used, x);
    }
    forall g: nat | g < |groups| && InodeBitmap(gdt, g) < |disk|
      ensures disk'[InodeBitmap(gdt, g)] == disk[InodeBitmap(gdt, g)]
    {
      InGroup(g, 2 + gdt);
    }
    InodesKept(disk, disk', groups, groups, gdt, inodes);
  }

  lemma FreshKeepsTables(disk: Image, disk': Image, gdt: nat, groups: seq<Group>, allocGroup: nat, used: set<nat>,
                         used': set<nat>)
    requires OnlyFresh(disk, disk', gdt, used, used') && Shape(disk', groups, gdt, allocGroup, used')
    requires Meta(gdt) <= BLOCKS_PER_GROUP
    ensures SameBlocks(disk, disk', used)
    ensures forall x: nat :: x < |disk| && IsTable(gdt, x) ==> disk'[x] == disk[x]
  {
    forall x: nat | x < |disk| && (x in used || IsTable(gdt, x)) ensures disk'[x] == disk[x] {
      assert UsedAt(groups, gdt, used', x);
    }
  }

  lemma BitmapsApart(disk: Image, disk': Image, gdt: nat, n: nat)
    requires OnlyBitmaps(disk, disk', gdt) && Meta(gdt) <= BLOCKS_PER_GROUP
    ensures forall g: nat ::
              g < n && InodeBitmap(gdt, g) < |disk| ==> disk'[InodeBitmap(gdt, g)] == disk[InodeBitmap(gdt, g)]
  {
    forall g: nat | g < n && InodeBitmap(gdt, g) < |disk|
      ensures disk'[InodeBitmap(gdt, g)] == disk[InodeBitmap(gdt, g)]
    {
      InGroup(g, 2 + gdt);
    }
  }
}
