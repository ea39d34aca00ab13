/** The inode and block bitmaps of kernel/src/fs/ext2.c with their two levels of free counters. */
module Ext2Alloc {
  import opened Arith
  import opened Bits
  import opened Ext2Disk

  /** Whether bit `i` of a bitmap block is set: bit i % 8 of byte i / 8. */
  predicate BitOf(bitmap: Block, i: nat) {
    i / 8 < |bitmap| && Bit(bitmap[i / 8], i % 8)
  }

  function WithBit(bitmap: Block, i: nat): (r: Block)
    requires i / 8 < |bitmap|
    ensures |r| == |bitmap|
  {
    Widths();
    UpdatesKeepWidth(bitmap[i / 8], i % 8, 8);
    bitmap[i / 8 := SetBit(bitmap[i / 8], i % 8)]
  }

  function WithoutBit(bitmap: Block, i: nat): (r: Block)
    requires i / 8 < |bitmap|
    ensures |r| == |bitmap|
  {
    Widths();
    UpdatesKeepWidth(bitmap[i / 8], i % 8, 8);
    bitmap[i / 8 := ClearBit(bitmap[i / 8], i % 8)]
  }

  lemma WithBitMeaning(bitmap: Block, i: nat, j: nat)
    requires i / 8 < |bitmap|
    ensures BitOf(WithBit(bitmap, i), j) <==> i == j || BitOf(bitmap, j)
  {
    SetBitMeaning(bitmap[i / 8], i % 8, j % 8);
  }

  lemma WithoutBitMeaning(bitmap: Block, i: nat, j: nat)
    requires i / 8 < |bitmap|
    ensures BitOf(WithoutBit(bitmap, i), j) <==> i != j && BitOf(bitmap, j)
  {
    ClearBitMeaning(bitmap[i / 8], i % 8, j % 8);
  }

  /** Freeing what was just allocated gives the bitmap back. */
  lemma WithoutUndoesWith(bitmap: Block, i: nat)
    requires i / 8 < |bitmap| && !BitOf(bitmap, i)
    ensures WithoutBit(WithBit(bitmap, i), i) == bitmap
  {
    ClearUndoesSet(bitmap[i / 8], i % 8);
  }

  /** The number of clear bits among the first `n`. */
  function Zeros(bitmap: Block, n: nat): (z: nat)
    ensures z <= n
  {
    if n == 0 then 0 else Zeros(bitmap, n - 1) + if BitOf(bitmap, n - 1) then 0 else 1
  }

  lemma {:induction false} ZerosSame(b: Block, c: Block, n: nat)
    requires forall i: nat | i < n :: BitOf(b, i) == BitOf(c, i)
    ensures Zeros(b, n) == Zeros(c, n)
  {
    if n > 0 {
      ZerosSame(b, c, n - 1);
    }
  }

  /** Changing one bit changes the number of clear bits by one. */
  lemma {:induction false} ZerosChange(b: Block, c: Block, n: nat, i: nat)
    requires i < n && BitOf(b, i) != BitOf(c, i)
    requires forall j: nat | j != i :: BitOf(b, j) == BitOf(c, j)
    ensures Zeros(c, n) == Zeros(b, n) + if BitOf(b, i) then 1 else -1
  {
    if i == n - 1 {
      ZerosSame(b, c, n - 1);
    } else {
      ZerosChange(b, c, n - 1, i);
    }
  }

  lemma {:induction false} ZerosMeaning(bitmap: Block, n: nat)
    ensures Zeros(bitmap, n) == 0 <==> forall i: nat | i < n :: BitOf(bitmap, i)
  {
    if n > 0 {
      ZerosMeaning(bitmap, n - 1);
    }
  }

  function Sum(counts: seq<nat>): nat {
    if counts == [] then 0 else Sum(counts[..|counts| - 1]) + counts[|counts| - 1]
  }

  lemma {:induction false} SumUpdate(counts: seq<nat>, g: nat, v: nat)
    requires g < |counts|
    ensures Sum(counts[g := v]) == Sum(counts) - counts[g] + v
  {
    var n := |counts| - 1;
    if g == n {
      assert counts[g := v][..n] == counts[..n];
    } else {
      assert counts[g := v][..n] == counts[..n][g := v];
      SumUpdate(counts[..n], g, v);
    }
  }

  lemma {:induction false} SumZero(counts: seq<nat>)
    ensures Sum(counts) == 0 <==> forall g | 0 <= g < |counts| :: counts[g] == 0
  {
    if counts != [] {
      var n := |counts| - 1;
      SumZero(counts[..n]);
      assert forall g | 0 <= g < n :: counts[g] == counts[..n][g];
    }
  }

  /** Bitmaps and counters agree: each group's free count is the number of clear bits among the `per` bits of its
      bitmap, and the superblock count is the sum over the groups. */
  ghost predicate Counted(disk: Disk, bitmaps: seq<nat>, counts: seq<nat>, total: nat, per: nat) {
    && |bitmaps| == |counts|
    && (forall g | 0 <= g < |bitmaps| :: bitmaps[g] < |disk| && per <= 8 * |disk[bitmaps[g]]|)
    && (forall g | 0 <= g < |bitmaps| :: counts[g] == Zeros(disk[bitmaps[g]], per))
    && total == Sum(counts)
    && Distinct(bitmaps)
  }

  ghost predicate Distinct(s: seq<nat>) {
    forall g, h | 0 <= g < h < |s| :: s[g] != s[h]
  }

  /** Flipping bit `i` of one bitmap and adjusting both counters keeps the agreement. */
  lemma FlipKeepsCounted(disk: Disk, bitmaps: seq<nat>, counts: seq<nat>, total: nat, per: nat, g: nat, i: nat,
                         bitmap: Block)
    requires Counted(disk, bitmaps, counts, total, per) && g < |bitmaps| && i < per
    requires |bitmap| == |disk[bitmaps[g]]| && BitOf(bitmap, i) != BitOf(disk[bitmaps[g]], i)
    requires forall j: nat | j != i :: BitOf(bitmap, j) == BitOf(disk[bitmaps[g]], j)
    ensures var d: int := if BitOf(bitmap, i) then -1 else 1;
      && counts[g] + d >= 0 && total + d >= 0
      && Counted(disk[bitmaps[g] := bitmap], bitmaps, counts[g := counts[g] + d], total + d, per)
  {
    ZerosChange(disk[bitmaps[g]], bitmap, per, i);
    SumUpdate(counts, g, Zeros(bitmap, per));
  }

  /** Writing a block that is none of the bitmaps keeps the agreement. */
  lemma ElsewhereKeepsCounted(disk: Disk, disk': Disk, bitmaps: seq<nat>, counts: seq<nat>, total: nat, per: nat)
    requires Counted(disk, bitmaps, counts, total, per) && |disk'| == |disk|
    requires forall b: nat | b < |disk| && b in bitmaps :: disk'[b] == disk[b]
    ensures Counted(disk', bitmaps, counts, total, per)
  {
    forall g | 0 <= g < |bitmaps| ensures disk'[bitmaps[g]] == disk[bitmaps[g]] {
      assert bitmaps[g] in bitmaps;
    }
  }

  function InodeBitmaps(groups: seq<GroupDesc>): (r: seq<nat>)
    ensures |r| == |groups|
  {
    seq(|groups|, g requires 0 <= g < |groups| => groups[g].inodeBitmap)
  }

  function InodeCounts(groups: seq<GroupDesc>): (r: seq<nat>)
    ensures |r| == |groups|
  {
    seq(|groups|, g requires 0 <= g < |groups| => groups[g].freeInodes)
  }

  function BlockBitmaps(groups: seq<GroupDesc>): (r: seq<nat>)
    ensures |r| == |groups|
  {
    seq(|groups|, g requires 0 <= g < |groups| => groups[g].blockBitmap)
  }

  function BlockCounts(groups: seq<GroupDesc>): (r: seq<nat>)
    ensures |r| == |groups|
  {
    seq(|groups|, g requires 0 <= g < |groups| => groups[g].freeBlocks)
  }

  lemma Projections(groups: seq<GroupDesc>, g: nat, n: nat)
    requires g < |groups|
    ensures var byInode := groups[g := groups[g].(freeInodes := n)];
      && InodeBitmaps(byInode) == InodeBitmaps(groups) && BlockBitmaps(byInode) == BlockBitmaps(groups)
      && InodeCounts(byInode) == InodeCounts(groups)[g := n] && BlockCounts(byInode) == BlockCounts(groups)
    ensures var byBlock := groups[g := groups[g].(freeBlocks := n)];
      && InodeBitmaps(byBlock) == InodeBitmaps(groups) && BlockBitmaps(byBlock) == BlockBitmaps(groups)
      && InodeCounts(byBlock) == InodeCounts(groups) && BlockCounts(byBlock) == BlockCounts(groups)[g := n]
  {
  }

  /** The invariant of the volume: both kinds of bitmap agree with their counters, and no block holds two bitmaps.
      The counts of a group are 16 bits wide. */
  ghost predicate Agree(geo: Geometry, disk: Disk, groups: seq<GroupDesc>, freeBlocks: nat, freeInodes: nat) {
    && Counted(disk, InodeBitmaps(groups), InodeCounts(groups), freeInodes, geo.inodesPerGroup)
    && Counted(disk, BlockBitmaps(groups), BlockCounts(groups), freeBlocks, geo.blocksPerGroup)
    && (forall g, h | 0 <= g < |groups| && 0 <= h < |groups| :: InodeBitmaps(groups)[g] != BlockBitmaps(groups)[h])
    && geo.inodesPerGroup < COUNT_SPAN && geo.blocksPerGroup < COUNT_SPAN
  }

  /** The loop over the bits of one bitmap block in ext2_allocate_inode and ext2_allocate_block. */
  method TakeLowest(vol: Volume, b: nat, per: nat) returns (found: bool, bit: nat)
    requires vol.Valid() && (b < |vol.disk| ==> per <= 8 * vol.geo.blockSize)
    modifies vol`disk
    ensures vol.Valid()
    ensures found <==> b < |old(vol.disk)| && Zeros(old(vol.disk)[b], per) > 0
    ensures found ==> bit < per && !BitOf(old(vol.disk)[b], bit)
    ensures found ==> forall j: nat | j < bit :: BitOf(old(vol.disk)[b], j)
    ensures found ==> vol.disk == old(vol.disk)[b := WithBit(old(vol.disk)[b], bit)]
    ensures !found ==> vol.disk == old(vol.disk)
  {
    bit := 0;
    var bitmap;
    found, bitmap := vol.ReadBlock(b);
    if !found {
      return;
    }
    while bit < per
      invariant bit <= per
      invariant forall j: nat | j < bit :: BitOf(bitmap, j)
    {
      if !BitOf(bitmap, bit) {
        ZerosMeaning(bitmap, per);
        found := vol.WriteBlock(b, WithBit(bitmap, bit));
        return;
      }
      bit := bit + 1;
    }
    ZerosMeaning(bitmap, per);
    found := false;
  }

  /** Flipping one bit of an inode bitmap with both counters keeps everything in agreement. */
  lemma InodeFlip(geo: Geometry, disk: Disk, groups: seq<GroupDesc>, freeBlocks: nat, freeInodes: nat,
                  g: nat, i: nat, bitmap: Block)
    requires Agree(geo, disk, groups, freeBlocks, freeInodes) && g < |groups| && i < geo.inodesPerGroup
    requires groups[g].inodeBitmap < |disk|
    requires var before := disk[groups[g].inodeBitmap];
      |bitmap| == |before| && BitOf(bitmap, i) != BitOf(before, i) && forall j: nat | j != i ::
        BitOf(bitmap, j) == BitOf(before, j)
    ensures var d: int := if BitOf(bitmap, i) then -1 else 1;
      && groups[g].freeInodes + d >= 0 && freeInodes + d >= 0
      && Agree(geo, disk[groups[g].inodeBitmap := bitmap],
               groups[g := groups[g].(freeInodes := groups[g].freeInodes + d)],
               freeBlocks, freeInodes + d)
  {
    var bitmaps := InodeBitmaps(groups);
    assert bitmaps[g] == groups[g].inodeBitmap;
    FlipKeepsCounted(disk, bitmaps, InodeCounts(groups), freeInodes, geo.inodesPerGroup, g, i, bitmap);
    ElsewhereKeepsCounted(disk, disk[bitmaps[g] := bitmap], BlockBitmaps(groups), BlockCounts(groups), freeBlocks,
                          geo.blocksPerGroup);
    Projections(groups, g, groups[g].freeInodes + if BitOf(bitmap, i) then -1 else 1);
  }

  lemma BlockFlip(geo: Geometry, disk: Disk, groups: seq<GroupDesc>, freeBlocks: nat, freeInodes: nat,
                  g: nat, i: nat, bitmap: Block)
    requires Agree(geo, disk, groups, freeBlocks, freeInodes) && g < |groups| && i < geo.blocksPerGroup
    requires groups[g].blockBitmap < |disk|
    requires var before := disk[groups[g].blockBitmap];
      |bitmap| == |before| && BitOf(bitmap, i) != BitOf(before, i) && forall j: nat | j != i ::
        BitOf(bitmap, j) == BitOf(before, j)
    ensures var d: int := if BitOf(bitmap, i) then -1 else 1;
      && groups[g].freeBlocks + d >= 0 && freeBlocks + d >= 0
      && Agree(geo, disk[groups[g].blockBitmap := bitmap],
               groups[g := groups[g].(freeBlocks := groups[g].freeBlocks + d)],
               freeBlocks + d, freeInodes)
  {
    var bitmaps := BlockBitmaps(groups);
    assert bitmaps[g] == groups[g].blockBitmap;
    FlipKeepsCounted(disk, bitmaps, BlockCounts(groups), freeBlocks, geo.blocksPerGroup, g, i, bitmap);
    ElsewhereKeepsCounted(disk, disk[bitmaps[g] := bitmap], InodeBitmaps(groups), InodeCounts(groups), freeInodes,
                          geo.inodesPerGroup);
    Projections(groups, g, groups[g].freeBlocks + if BitOf(bitmap, i) then -1 else 1);
  }

  /** The group and bitmap index that ext2_free_block computes for a block. */
  function BlockGroup(geo: Geometry, b: nat): nat
    requires geo.Valid() && geo.firstDataBlock <= b
  {
    (b - geo.firstDataBlock) / geo.blocksPerGroup
  }

  function BlockIndex(geo: Geometry, b: nat): (i: nat)
    requires geo.Valid() && geo.firstDataBlock <= b
    ensures i < geo.blocksPerGroup
  {
    (b - geo.firstDataBlock) % geo.blocksPerGroup
  }

  /** What an allocation that found bit `i` of group `g` did: the bit was the lowest clear one, and no earlier group
      had a free one. */
  ghost predicate LowestIn(disk: Disk, bitmaps: seq<nat>, counts: seq<nat>, g: nat, i: nat)
    requires |counts| == |bitmaps|
  {
    && g < |bitmaps| && bitmaps[g] < |disk| && i / 8 < |disk[bitmaps[g]]|
    && (forall h | 0 <= h < g :: counts[h] == 0)
    && !BitOf(disk[bitmaps[g]], i) && forall j: nat | j < i :: BitOf(disk[bitmaps[g]], j)
  }

  /** The lowest free inode, bit `i` of group `g`, was taken: its bit is set, both counters are one lower, and
      nothing else changed. */
  ghost predicate InodeTaken(geo: Geometry, disk0: Disk, groups0: seq<GroupDesc>, free0: nat,
                             disk: Disk, groups: seq<GroupDesc>, free: nat, g: nat, i: nat)
  {
    && i < geo.inodesPerGroup && LowestIn(disk0, InodeBitmaps(groups0), InodeCounts(groups0), g, i)
    && groups0[g].freeInodes > 0 && free0 > 0 && free == free0 - 1
    && groups == groups0[g := groups0[g].(freeInodes := groups0[g].freeInodes - 1)]
    && disk == disk0[groups0[g].inodeBitmap := WithBit(disk0[groups0[g].inodeBitmap], i)]
  }

  /** Taking the lowest free inode of the first group that has one. */
  lemma TakingInode(geo: Geometry, disk: Disk, groups: seq<GroupDesc>, freeBlocks: nat, freeInodes: nat, g: nat, i: nat)
    requires Agree(geo, disk, groups, freeBlocks, freeInodes) && i < geo.inodesPerGroup
    requires LowestIn(disk, InodeBitmaps(groups), InodeCounts(groups), g, i)
    ensures groups[g].inodeBitmap < |disk| && i / 8 < |disk[groups[g].inodeBitmap]|
    ensures groups[g].freeInodes > 0 && freeInodes > 0
    ensures Agree(geo, disk[groups[g].inodeBitmap := WithBit(disk[groups[g].inodeBitmap], i)],
                  groups[g := groups[g].(freeInodes := groups[g].freeInodes - 1)], freeBlocks, freeInodes - 1)
  {
    assert InodeBitmaps(groups)[g] == groups[g].inodeBitmap && InodeCounts(groups)[g] == groups[g].freeInodes;
    var before := disk[groups[g].inodeBitmap];
    forall j: nat ensures BitOf(WithBit(before, i), j) <==> i == j || BitOf(before, j) {
      WithBitMeaning(before, i, j);
    }
    InodeFlip(geo, disk, groups, freeBlocks, freeInodes, g, i, WithBit(before, i));
  }

  /** Take the lowest free inode of a group and update its descriptor and the superblock. */
  method TakeInode(vol: Volume, g: nat) returns (found: bool, bit: nat)
    requires vol.Valid() && Agree(vol.geo, vol.disk, vol.groups, vol.freeBlocks, vol.freeInodes)
    requires g < |vol.groups| && vol.groups[g].freeInodes != 0
    requires forall h | 0 <= h < g :: InodeCounts(vol.groups)[h] == 0
    modifies vol`disk, vol`groups, vol`freeInodes
    ensures found && vol.Valid() && Agree(vol.geo, vol.disk, vol.groups, vol.freeBlocks, vol.freeInodes)
    ensures InodeTaken(vol.geo, old(vol.disk), old(vol.groups), old(vol.freeInodes),
                       vol.disk, vol.groups, vol.freeInodes, g, bit)
  {
    assert InodeBitmaps(vol.groups)[g] == vol.groups[g].inodeBitmap;
    assert InodeCounts(vol.groups)[g] == vol.groups[g].freeInodes;
    ghost var disk0 := vol.disk;
    found, bit := TakeLowest(vol, vol.groups[g].inodeBitmap, vol.geo.inodesPerGroup);
    TakingInode(vol.geo, disk0, vol.groups, vol.freeBlocks, vol.freeInodes, g, bit);
    vol.groups := vol.groups[g := vol.groups[g].(freeInodes := vol.groups[g].freeInodes - 1)];
    vol.freeInodes := vol.freeInodes - 1;
  }

  /** ext2_allocate_inode. */
  method AllocateInode(vol: Volume) returns (num: nat, ghost g: nat, ghost bit: nat)
    requires vol.Valid() && Agree(vol.geo, vol.disk, vol.groups, vol.freeBlocks, vol.freeInodes)
    modifies vol`disk, vol`groups, vol`freeInodes
    ensures vol.Valid() && Agree(vol.geo, vol.disk, vol.groups, vol.freeBlocks, vol.freeInodes)
    ensures num == 0 <==> old(vol.freeInodes) == 0
    ensures num == 0 ==>
      vol.disk == old(vol.disk) && vol.groups == old(vol.groups) && vol.freeInodes == old(vol.freeInodes)
    ensures num != 0 ==> num == g * vol.geo.inodesPerGroup + bit + 1
    ensures num != 0 ==> InodeTaken(vol.geo, old(vol.disk), old(vol.groups), old(vol.freeInodes),
                                    vol.disk, vol.groups, vol.freeInodes, g, bit)
  {
    num, g, bit := 0, 0, 0;
    SumZero(InodeCounts(vol.groups));
    var group := 0;
    while group < |vol.groups|
      invariant group <= |vol.groups|
      invariant forall h | 0 <= h < group :: InodeCounts(vol.groups)[h] == 0
      invariant vol.disk == old(vol.disk) && vol.groups == old(vol.groups) && vol.freeInodes == old(vol.freeInodes)
    {
      if vol.groups[group].freeInodes != 0 {
        var found, i := TakeInode(vol, group);
        MulNat(group, vol.geo.inodesPerGroup);
        num := group * vol.geo.inodesPerGroup + i + 1;
        g, bit := group, i;
        return;
      }
      group := group + 1;
    }
  }

  /** free_inode_bitmap. The 16-bit group count wraps; it is incremented whether or not the bit was set. */
  method FreeInode(vol: Volume, num: nat) returns (ok: bool)
    requires vol.Valid() && (num > 0 ==> GroupOf(vol.geo, num) < |vol.groups|)
    requires vol.geo.inodesPerGroup <= 8 * vol.geo.blockSize
    modifies vol`disk, vol`groups, vol`freeInodes
    ensures vol.Valid()
    ensures ok <==> num > 0 && old(vol.groups)[GroupOf(vol.geo, num)].inodeBitmap < |old(vol.disk)|
    ensures !ok ==> vol.disk == old(vol.disk) && vol.groups == old(vol.groups) && vol.freeInodes == old(vol.freeInodes)
    ensures ok ==> InodeFreed(vol.geo, old(vol.disk), old(vol.groups), old(vol.freeInodes),
                              vol.disk, vol.groups, vol.freeInodes, GroupOf(vol.geo, num), IndexOf(vol.geo, num))
  {
    if num == 0 {
      return false;
    }
    var g, i := GroupOf(vol.geo, num), IndexOf(vol.geo, num);
    var b := vol.groups[g].inodeBitmap;
    var bitmap;
    ok, bitmap := vol.ReadBlock(b);
    if ok {
      ok := vol.WriteBlock(b, WithoutBit(bitmap, i));
      vol.groups := vol.groups[g := vol.groups[g].(freeInodes := (vol.groups[g].freeInodes + 1) % COUNT_SPAN)];
      vol.freeInodes := vol.freeInodes + 1;
    }
  }

  ghost predicate InodeFreed(geo: Geometry, disk0: Disk, groups0: seq<GroupDesc>, free0: nat,
                             disk: Disk, groups: seq<GroupDesc>, free: nat, g: nat, i: nat)
  {
    && g < |groups0| && groups0[g].inodeBitmap < |disk0| && i / 8 < |disk0[groups0[g].inodeBitmap]|
    && free == free0 + 1
    && groups == groups0[g := groups0[g].(freeInodes := (groups0[g].freeInodes + 1) % COUNT_SPAN)]
    && disk == disk0[groups0[g].inodeBitmap := WithoutBit(disk0[groups0[g].inodeBitmap], i)]
  }

  /** Freeing an inode whose bit is set keeps bitmaps and counters in agreement; no count wraps. */
  lemma FreedInodeAgrees(geo: Geometry, disk0: Disk, groups0: seq<GroupDesc>, freeBlocks: nat, free0: nat,
                         disk: Disk, groups: seq<GroupDesc>, free: nat, g: nat, i: nat)
    requires Agree(geo, disk0, groups0, freeBlocks, free0)
    requires InodeFreed(geo, disk0, groups0, free0, disk, groups, free, g, i) && i < geo.inodesPerGroup
    requires BitOf(disk0[groups0[g].inodeBitmap], i)
    ensures Agree(geo, disk, groups, freeBlocks, free)
    ensures groups0[g].freeInodes + 1 < COUNT_SPAN
  {
    var before := disk0[groups0[g].inodeBitmap];
    forall j: nat ensures BitOf(WithoutBit(before, i), j) <==> i != j && BitOf(before, j) {
      WithoutBitMeaning(before, i, j);
    }
    InodeFlip(geo, disk0, groups0, freeBlocks, free0, g, i, WithoutBit(before, i));
    var after := groups0[g := groups0[g].(freeInodes := groups0[g].freeInodes + 1)];
    assert InodeCounts(after)[g] == groups0[g].freeInodes + 1;
  }

  /** Allocating an inode and freeing it again restores the bitmap and both counters. */
  method AllocateThenFreeInode(vol: Volume) returns (num: nat, ok: bool)
    requires vol.Valid() && Agree(vol.geo, vol.disk, vol.groups, vol.freeBlocks, vol.freeInodes)
    modifies vol`disk, vol`groups, vol`freeInodes
    ensures ok == (old(vol.freeInodes) > 0)
    ensures vol.disk == old(vol.disk) && vol.groups == old(vol.groups) && vol.freeInodes == old(vol.freeInodes)
  {
    ghost var disk0, groups0, free0 := vol.disk, vol.groups, vol.freeInodes;
    ghost var g, i;
    num, g, i := AllocateInode(vol);
    if num != 0 {
      DivUnique(num - 1, vol.geo.inodesPerGroup, g, i);
      ghost var disk1, groups1, free1 := vol.disk, vol.groups, vol.freeInodes;
      ok := FreeInode(vol, num);
      InodeTakenFreed(vol.geo, disk0, groups0, free0, disk1, groups1, free1, vol.disk, vol.groups, vol.freeInodes, g,
                      i);
    } else {
      ok := false;
    }
  }

  lemma InodeTakenFreed(geo: Geometry, disk0: Disk, groups0: seq<GroupDesc>, free0: nat, disk1: Disk,
                        groups1: seq<GroupDesc>,
                        free1: nat, disk2: Disk, groups2: seq<GroupDesc>, free2: nat, g: nat, i: nat)
    requires InodeTaken(geo, disk0, groups0, free0, disk1, groups1, free1, g, i)
    requires InodeFreed(geo, disk1, groups1, free1, disk2, groups2, free2, g, i)
    requires groups0[g].freeInodes < COUNT_SPAN
    ensures disk2 == disk0 && groups2 == groups0 && free2 == free0
  {
    WithoutUndoesWith(disk0[groups0[g].inodeBitmap], i);
  }

  /** The lowest free block, bit `i` of group `g`, was taken: its bit is set, both counters are one lower, and
      nothing else changed. */
  ghost predicate BlockTaken(geo: Geometry, disk0: Disk, groups0: seq<GroupDesc>, free0: nat,
                             disk: Disk, groups: seq<GroupDesc>, free: nat, g: nat, i: nat)
  {
    && i < geo.blocksPerGroup && LowestIn(disk0, BlockBitmaps(groups0), BlockCounts(groups0), g, i)
    && groups0[g].freeBlocks > 0 && free0 > 0 && free == free0 - 1
    && groups == groups0[g := groups0[g].(freeBlocks := groups0[g].freeBlocks - 1)]
    && disk == disk0[groups0[g].blockBitmap := WithBit(disk0[groups0[g].blockBitmap], i)]
  }

  lemma TakingBlock(geo: Geometry, disk: Disk, groups: seq<GroupDesc>, freeBlocks: nat, freeInodes: nat, g: nat, i: nat)
    requires Agree(geo, disk, groups, freeBlocks, freeInodes) && i < geo.blocksPerGroup
    requires LowestIn(disk, BlockBitmaps(groups), BlockCounts(groups), g, i)
    ensures groups[g].blockBitmap < |disk| && i / 8 < |disk[groups[g].blockBitmap]|
    ensures groups[g].freeBlocks > 0 && freeBlocks > 0
    ensures Agree(geo, disk[groups[g].blockBitmap := WithBit(disk[groups[g].blockBitmap], i)],
                  groups[g := groups[g].(freeBlocks := groups[g].freeBlocks - 1)], freeBlocks - 1, freeInodes)
  {
    assert BlockBitmaps(groups)[g] == groups[g].blockBitmap && BlockCounts(groups)[g] == groups[g].freeBlocks;
    var before := disk[groups[g].blockBitmap];
    forall j: nat ensures BitOf(WithBit(before, i), j) <==> i == j || BitOf(before, j) {
      WithBitMeaning(before, i, j);
    }
    BlockFlip(geo, disk, groups, freeBlocks, freeInodes, g, i, WithBit(before, i));
  }

  /** Take the lowest free block of a group and update its descriptor and the superblock. */
  method TakeBlock(vol: Volume, g: nat) returns (found: bool, bit: nat)
    requires vol.Valid() && Agree(vol.geo, vol.disk, vol.groups, vol.freeBlocks, vol.freeInodes)
    requires g < |vol.groups| && vol.groups[g].freeBlocks != 0
    requires forall h | 0 <= h < g :: BlockCounts(vol.groups)[h] == 0
    modifies vol`disk, vol`groups, vol`freeBlocks
    ensures found && vol.Valid() && Agree(vol.geo, vol.disk, vol.groups, vol.freeBlocks, vol.freeInodes)
    ensures BlockTaken(vol.geo, old(vol.disk), old(vol.groups), old(vol.freeBlocks),
                       vol.disk, vol.groups, vol.freeBlocks, g, bit)
  {
    assert BlockBitmaps(vol.groups)[g] == vol.groups[g].blockBitmap;
    assert BlockCounts(vol.groups)[g] == vol.groups[g].freeBlocks;
    ghost var disk0 := vol.disk;
    found, bit := TakeLowest(vol, vol.groups[g].blockBitmap, vol.geo.blocksPerGroup);
    TakingBlock(vol.geo, disk0, vol.groups, vol.freeBlocks, vol.freeInodes, g, bit);
    vol.groups := vol.groups[g := vol.groups[g].(freeBlocks := vol.groups[g].freeBlocks - 1)];
    vol.freeBlocks := vol.freeBlocks - 1;
  }

  /** The lowest free block is block 0 exactly if bit 0 of the first group is clear. */
  lemma LowestIsZero(disk: Disk, groups: seq<GroupDesc>, free: nat, per: nat, g: nat, i: nat)
    requires Counted(disk, BlockBitmaps(groups), BlockCounts(groups), free, per) && i < per
    requires LowestIn(disk, BlockBitmaps(groups), BlockCounts(groups), g, i)
    ensures g * per + i == 0 <==> !BitOf(disk[BlockBitmaps(groups)[0]], 0)
  {
    var first := disk[BlockBitmaps(groups)[0]];
    MulNat(g, per);
    if !BitOf(first, 0) {
      ZerosMeaning(first, per);
      assert BlockCounts(groups)[0] > 0;
    } else if g > 0 {
      MulNat(g - 1, per);
      assert g * per == (g - 1) * per + per;
    }
  }

  /** Bit 0 of the first block bitmap is clear. */
  ghost predicate BlockZeroFree(disk: Disk, groups: seq<GroupDesc>) {
    groups != [] && groups[0].blockBitmap < |disk| && !BitOf(disk[groups[0].blockBitmap], 0)
  }

  /** ext2_allocate_block. The number does not take s_first_data_block into account, and block 0 reads as failure. */
  method AllocateBlock(vol: Volume) returns (num: nat, ghost found: bool, ghost g: nat, ghost bit: nat)
    requires vol.Valid() && Agree(vol.geo, vol.disk, vol.groups, vol.freeBlocks, vol.freeInodes)
    modifies vol`disk, vol`groups, vol`freeBlocks
    ensures vol.Valid() && Agree(vol.geo, vol.disk, vol.groups, vol.freeBlocks, vol.freeInodes)
    ensures found <==> old(vol.freeBlocks) > 0
    ensures num == 0 <==> old(vol.freeBlocks) == 0 || BlockZeroFree(old(vol.disk), old(vol.groups))
    ensures !found ==>
      vol.disk == old(vol.disk) && vol.groups == old(vol.groups) && vol.freeBlocks == old(vol.freeBlocks)
    ensures found ==> num == g * vol.geo.blocksPerGroup + bit
    ensures found ==> BlockTaken(vol.geo, old(vol.disk), old(vol.groups), old(vol.freeBlocks),
                                 vol.disk, vol.groups, vol.freeBlocks, g, bit)
  {
    num, found, g, bit := 0, false, 0, 0;
    SumZero(BlockCounts(vol.groups));
    var group := 0;
    while group < |vol.groups|
      invariant group <= |vol.groups|
      invariant forall h | 0 <= h < group :: BlockCounts(vol.groups)[h] == 0
      invariant vol.disk == old(vol.disk) && vol.groups == old(vol.groups) && vol.freeBlocks == old(vol.freeBlocks)
    {
      if vol.groups[group].freeBlocks != 0 {
        var took, i := TakeBlock(vol, group);
        MulNat(group, vol.geo.blocksPerGroup);
        LowestIsZero(old(vol.disk), old(vol.groups), old(vol.freeBlocks), vol.geo.blocksPerGroup, group, i);
        num := group * vol.geo.blocksPerGroup + i;
        found, g, bit := true, group, i;
        return;
      }
      group := group + 1;
    }
  }

  /** Block `b` filled with zeros, if the device has it. */
  function Zeroed(disk: Disk, b: nat): (r: Disk)
    ensures |r| == |disk|
  {
    if b < |disk| then disk[b := seq(|disk[b]|, i => 0)] else disk
  }

  ghost predicate BlockFreed(geo: Geometry, disk0: Disk, groups0: seq<GroupDesc>, free0: nat,
                             disk: Disk, groups: seq<GroupDesc>, free: nat, b: nat, g: nat, i: nat)
  {
    && g < |groups0| && groups0[g].blockBitmap < |disk0| && i / 8 < |disk0[groups0[g].blockBitmap]|
    && free == free0 + 1
    && groups == groups0[g := groups0[g].(freeBlocks := (groups0[g].freeBlocks + 1) % COUNT_SPAN)]
    && disk == Zeroed(disk0[groups0[g].blockBitmap := WithoutBit(disk0[groups0[g].blockBitmap], i)], b)
  }

  /** The guard of ext2_free_block. */
  predicate Freeable(geo: Geometry, b: nat) {
    geo.firstDataBlock <= b < geo.blocksCount
  }

  /** ext2_free_block: clears the bit of the block, adjusts both counters, and fills the block with zeros. */
  method FreeBlock(vol: Volume, b: nat)
    requires vol.Valid() && vol.geo.blocksPerGroup <= 8 * vol.geo.blockSize
    requires Freeable(vol.geo, b) ==> BlockGroup(vol.geo, b) < |vol.groups|
    modifies vol`disk, vol`groups, vol`freeBlocks
    ensures vol.Valid()
    ensures if Freeable(vol.geo, b) && old(vol.groups)[BlockGroup(vol.geo, b)].blockBitmap < |old(vol.disk)|
            then BlockFreed(vol.geo, old(vol.disk), old(vol.groups), old(vol.freeBlocks),
                            vol.disk, vol.groups, vol.freeBlocks, b, BlockGroup(vol.geo, b), BlockIndex(vol.geo, b))
            else vol.disk == old(vol.disk) && vol.groups == old(vol.groups) && vol.freeBlocks == old(vol.freeBlocks)
  {
    if b < vol.geo.firstDataBlock || b >= vol.geo.blocksCount {
      return;
    }
    var g, i := BlockGroup(vol.geo, b), BlockIndex(vol.geo, b);
    var at := vol.groups[g].blockBitmap;
    var ok, bitmap := vol.ReadBlock(at);
    if !ok {
      return;
    }
    ok := vol.WriteBlock(at, WithoutBit(bitmap, i));
    if ok {
      vol.groups := vol.groups[g := vol.groups[g].(freeBlocks := (vol.groups[g].freeBlocks + 1) % COUNT_SPAN)];
      vol.freeBlocks := vol.freeBlocks + 1;
      ok := vol.WriteBlock(b, seq(vol.geo.blockSize, i => 0));
    }
  }

  /** Freeing a block whose bit is set and which is no bitmap keeps bitmaps and counters in agreement. */
  lemma FreedBlockAgrees(geo: Geometry, disk0: Disk, groups0: seq<GroupDesc>, free0: nat, freeInodes: nat,
                         disk: Disk, groups: seq<GroupDesc>, free: nat, b: nat, g: nat, i: nat)
    requires Agree(geo, disk0, groups0, free0, freeInodes)
    requires BlockFreed(geo, disk0, groups0, free0, disk, groups, free, b, g, i) && i < geo.blocksPerGroup
    requires BitOf(disk0[groups0[g].blockBitmap], i) && b !in BlockBitmaps(groups0) && b !in InodeBitmaps(groups0)
    ensures Agree(geo, disk, groups, free, freeInodes)
    ensures groups[g].freeBlocks == groups0[g].freeBlocks + 1
  {
    var at := groups0[g].blockBitmap;
    var before := disk0[at];
    forall j: nat ensures BitOf(WithoutBit(before, i), j) <==> i != j && BitOf(before, j) {
      WithoutBitMeaning(before, i, j);
    }
    BlockFlip(geo, disk0, groups0, free0, freeInodes, g, i, WithoutBit(before, i));
    var disk1 := disk0[at := WithoutBit(before, i)];
    var after := groups0[g := groups0[g].(freeBlocks := groups0[g].freeBlocks + 1)];
    assert BlockCounts(after)[g] == groups0[g].freeBlocks + 1;
    Projections(groups0, g, groups0[g].freeBlocks + 1);
    ElsewhereKeepsCounted(disk1, disk, BlockBitmaps(groups), BlockCounts(groups), free, geo.blocksPerGroup);
    ElsewhereKeepsCounted(disk1, disk, InodeBitmaps(groups), InodeCounts(groups), freeInodes, geo.inodesPerGroup);
  }

  /** The block bitmaps and their counters are the same. */
  ghost predicate SameBlockMap(disk0: Disk, groups0: seq<GroupDesc>, free0: nat, disk: Disk, groups: seq<GroupDesc>,
                               free: nat) {
    && groups == groups0 && free == free0 && |disk| == |disk0|
    && forall b: nat | b < |disk| && b in BlockBitmaps(groups0) :: disk[b] == disk0[b]
  }

  /** Block `b` is a block bitmap with a bit set, which zeroing the block loses. */
  ghost predicate BitmapLost(disk: Disk, groups: seq<GroupDesc>, b: nat) {
    b < |disk| && b in BlockBitmaps(groups) && disk[b] != seq(|disk[b]|, i => 0)
  }

  /** When allocating block `num` and freeing it again restores the block bitmaps and counters: on volumes with
      s_first_data_block = 0, for numbers below s_blocks_count whose block holds no bitmap. Elsewhere ext2_free_block
      clears the bit of another block, or none, or zeroes a bitmap. Number 0 reads as failure and is never freed. */
  ghost predicate Undone(geo: Geometry, disk: Disk, groups: seq<GroupDesc>, free: nat, num: nat) {
    if num == 0 then free == 0
    else geo.firstDataBlock == 0 && num < geo.blocksCount && !BitmapLost(disk, groups, num)
  }

  method AllocateThenFreeBlock(vol: Volume) returns (num: nat)
    requires vol.Valid() && Agree(vol.geo, vol.disk, vol.groups, vol.freeBlocks, vol.freeInodes)
    modifies vol`disk, vol`groups, vol`freeBlocks
    ensures num == 0 <==> old(vol.freeBlocks) == 0 || BlockZeroFree(old(vol.disk), old(vol.groups))
    ensures SameBlockMap(old(vol.disk), old(vol.groups), old(vol.freeBlocks), vol.disk, vol.groups, vol.freeBlocks)
      <==> Undone(vol.geo, old(vol.disk), old(vol.groups), old(vol.freeBlocks), num)
  {
    ghost var disk0, groups0, free0 := vol.disk, vol.groups, vol.freeBlocks;
    ghost var found, g, i;
    num, found, g, i := AllocateBlock(vol);
    if num != 0 {
      ghost var disk1, groups1, free1 := vol.disk, vol.groups, vol.freeBlocks;
      FreedGroup(vol.geo, num, g, i);
      if Freeable(vol.geo, num) {
        assert BlockBitmaps(groups1)[BlockGroup(vol.geo, num)] == groups1[BlockGroup(vol.geo, num)].blockBitmap;
      }
      FreeBlock(vol, num);
      TakenThenFreed(vol.geo, disk0, groups0, free0, disk1, groups1, free1, vol.disk, vol.groups, vol.freeBlocks,
                     num, g, i);
    }
  }

  lemma {:induction false} ZeroBits(b: Block, n: nat)
    requires n <= 8 * |b| && forall k | 0 <= k < |b| :: b[k] == 0
    ensures Zeros(b, n) == n
  {
    if n > 0 {
      ZeroBits(b, n - 1);
    }
  }

  /** A volume of one group of 8 blocks whose first block bitmap byte is 0 or 1, so that all blocks but perhaps block 0
      are free; block 2 holds the block bitmap and block 3 that of the inodes. */
  method SmallVolume(firstDataBlock: nat, zeroUsed: bool) returns (vol: Volume)
    ensures fresh(vol) && vol.Valid() && Agree(vol.geo, vol.disk, vol.groups, vol.freeBlocks, vol.freeInodes)
    ensures vol.geo == Geometry(1024, 8, 8, firstDataBlock, 8) && vol.freeBlocks == (if zeroUsed then 7 else 8)
    ensures vol.groups == [GroupDesc(2, 3, 4, vol.freeBlocks, 8)] && |vol.disk| == 4
    ensures forall i: nat | i < 8 :: BitOf(vol.disk[2], i) <==> zeroUsed && i == 0
  {
    var zero: Block := seq(1024, i => 0);
    var bitmap := if zeroUsed then WithBit(zero, 0) else zero;
    var n := if zeroUsed then 7 else 8;
    ZeroBits(zero, 8);
    forall i: nat ensures !BitOf(zero, i) {
      ZeroIsClear(i % 8);
    }
    if zeroUsed {
      forall j: nat ensures BitOf(bitmap, j) <==> j == 0 {
        WithBitMeaning(zero, 0, j);
      }
      ZerosChange(zero, bitmap, 8, 0);
    }
    var groups := [GroupDesc(2, 3, 4, n, 8)];
    OneGroup([zero, zero, bitmap, zero], groups, n);
    vol := new Volume(Geometry(1024, 8, 8, firstDataBlock, 8), [zero, zero, bitmap, zero], groups, n, 8);
  }

  lemma ZeroIsClear(i: nat)
    ensures !Bit(0, i)
  {
  }

  lemma OneGroup(disk: Disk, groups: seq<GroupDesc>, n: nat)
    requires |disk| == 4 && groups == [GroupDesc(2, 3, 4, n, 8)] && |disk[2]| == |disk[3]| == 1024
    requires Zeros(disk[2], 8) == n && Zeros(disk[3], 8) == 8
    ensures Counted(disk, InodeBitmaps(groups), InodeCounts(groups), 8, 8)
    ensures Counted(disk, BlockBitmaps(groups), BlockCounts(groups), n, 8)
  {
    assert InodeBitmaps(groups) == [3] && InodeCounts(groups) == [8];
    assert BlockBitmaps(groups) == [2] && BlockCounts(groups) == [n];
    assert [8 as nat][..0] == [] && [n][..0] == [];
    assert Sum([8]) == 8 && Sum([n]) == n;
  }

  /** On a volume whose block 0 is free, ext2_allocate_block takes it and returns 0: the block is lost. */
  method BlockZeroIsLost() returns (vol: Volume, num: nat)
    ensures fresh(vol) && num == 0 && vol.freeBlocks == 7
  {
    vol := SmallVolume(0, false);
    ghost var found, g, bit;
    num, found, g, bit := AllocateBlock(vol);
  }

  /** With s_first_data_block = 1, allocating a block and freeing it leaves it marked. */
  method FirstDataBlockOne()
    returns (vol: Volume, num: nat, ghost disk: Disk, ghost groups: seq<GroupDesc>, ghost free: nat)
    ensures fresh(vol) && num != 0 && !SameBlockMap(disk, groups, free, vol.disk, vol.groups, vol.freeBlocks)
    ensures |disk| == 4 && BitOf(disk[2], 0) && free == 7
  {
    vol := SmallVolume(1, true);
    disk, groups, free := vol.disk, vol.groups, vol.freeBlocks;
    num := AllocateThenFreeBlock(vol);
  }

  /** ext2_free_block recomputes the group and index of an allocated block exactly when s_first_data_block is 0. */
  lemma FreedGroup(geo: Geometry, num: nat, g: nat, i: nat)
    requires geo.Valid() && i < geo.blocksPerGroup && num == g * geo.blocksPerGroup + i
    ensures geo.firstDataBlock <= num ==> BlockGroup(geo, num) <= g
    ensures geo.firstDataBlock <= num && BlockGroup(geo, num) == g ==> BlockIndex(geo, num) <= i
    ensures geo.firstDataBlock <= num ==>
      (BlockGroup(geo, num) == g && BlockIndex(geo, num) == i <==> geo.firstDataBlock == 0)
  {
    if geo.firstDataBlock <= num {
      var x := num - geo.firstDataBlock;
      DivUnique(num, geo.blocksPerGroup, g, i);
      DivMod(x, geo.blocksPerGroup);
      Monotone(x, num, geo.blocksPerGroup);
    }
  }

  lemma TakenThenFreed(geo: Geometry, disk0: Disk, groups0: seq<GroupDesc>, free0: nat,
                       disk1: Disk, groups1: seq<GroupDesc>, free1: nat,
                       disk2: Disk, groups2: seq<GroupDesc>, free2: nat, num: nat, g: nat, i: nat)
    requires geo.Valid() && num == g * geo.blocksPerGroup + i && num != 0
    requires BlockTaken(geo, disk0, groups0, free0, disk1, groups1, free1, g, i) && Distinct(BlockBitmaps(groups0))
    requires groups0[g].freeBlocks < COUNT_SPAN
    requires if Freeable(geo, num)
             then BlockFreed(geo, disk1, groups1, free1, disk2, groups2, free2, num,
                             BlockGroup(geo, num), BlockIndex(geo, num))
             else disk2 == disk1 && groups2 == groups1 && free2 == free1
    ensures SameBlockMap(disk0, groups0, free0, disk2, groups2, free2) <==> Undone(geo, disk0, groups0, free0, num)
  {
    if Freeable(geo, num) {
      var h, j := BlockGroup(geo, num), BlockIndex(geo, num);
      FreedGroup(geo, num, g, i);
      BlockTakenFreed(geo, disk0, groups0, free0, disk1, groups1, free1, disk2, groups2, free2, num, g, i, h, j);
    }
  }

  /** Taking bit `i` of group `g`, clearing bit `j` of group `h` and zeroing block `b`. */
  lemma BlockTakenFreed(geo: Geometry, disk0: Disk, groups0: seq<GroupDesc>, free0: nat, disk1: Disk,
                        groups1: seq<GroupDesc>, free1: nat,
                        disk2: Disk, groups2: seq<GroupDesc>, free2: nat,
                        b: nat, g: nat, i: nat, h: nat, j: nat)
    requires BlockTaken(geo, disk0, groups0, free0, disk1, groups1, free1, g, i) && Distinct(BlockBitmaps(groups0))
    requires BlockFreed(geo, disk1, groups1, free1, disk2, groups2, free2, b, h, j)
    requires groups0[g].freeBlocks < COUNT_SPAN && (h == g ==> j <= i)
    ensures SameBlockMap(disk0, groups0, free0, disk2, groups2, free2)
      <==> h == g && j == i && !BitmapLost(disk0, groups0, b)
  {
    var at := groups0[g].blockBitmap;
    assert BlockBitmaps(groups0)[g] == at && at in BlockBitmaps(groups0);
    if h != g {
      assert groups2[g].freeBlocks == groups1[g].freeBlocks;
    } else if j != i {
      WithBitMeaning(disk0[at], i, i);
      WithoutBitMeaning(disk1[at], j, i);
      if b == at {
        LowestNotZero(disk0[at], i);
      }
    } else {
      WithoutUndoesWith(disk0[at], i);
    }
  }

  /** A bitmap whose lowest clear bit is not bit 0 is not all zeros. */
  lemma LowestNotZero(bitmap: Block, i: nat)
    requires 0 < i && BitOf(bitmap, 0)
    ensures bitmap != seq(|bitmap|, k => 0)
  {
    ZeroIsClear(0);
  }
}
