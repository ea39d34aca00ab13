/** ext2_delete_file of kernel/src/fs/ext2.c as a whole: look the name up, free the blocks and the inode, and remove
    the directory entry. */
module Ext2Unlink {
  import opened Machine
  import opened Ext2Disk
  import opened Ext2Blocks
  import opened Ext2File
  import opened Ext2Alloc
  import opened Ext2Delete
  import opened Ext2Dir

  /** Only counters of the group descriptors differ. */
  ghost predicate SameTables(groups: seq<GroupDesc>, groups': seq<GroupDesc>) {
    |groups'| == |groups| && forall g | 0 <= g < |groups| ::
      && groups'[g].inodeTable == groups[g].inodeTable
      && groups'[g].inodeBitmap == groups[g].inodeBitmap && groups'[g].blockBitmap == groups[g].blockBitmap
  }

  /** The blocks a directory depends on: its data and pointer blocks and the block of its inode. */
  ghost predicate DependsOn(geo: Geometry, groups: seq<GroupDesc>, dir: nat, blocks: seq<nat>, paths: set<nat>, b: nat)
    requires geo.Valid() && dir > 0 && GroupOf(geo, dir) < |groups|
  {
    b in blocks || b in paths || b == InodeBlock(geo, groups, dir)
  }

  ghost predicate SameFor(geo: Geometry, groups: seq<GroupDesc>, dir: nat, blocks: seq<nat>, paths: set<nat>,
                          disk: Disk, disk': Disk)
    requires geo.Valid() && dir > 0 && GroupOf(geo, dir) < |groups|
  {
    |disk'| == |disk|
    && forall b: nat | b < |disk| && DependsOn(geo, groups, dir, blocks, paths, b) :: disk'[b] == disk[b]
  }

  /** A directory whose blocks did not change has the same entries. */
  lemma DirectoryKept(geo: Geometry, groups: seq<GroupDesc>, groups': seq<GroupDesc>, disk: Disk, disk': Disk,
                      dir: nat, blocks: seq<nat>, paths: set<nat>)
    requires geo.Valid() && Directory(geo, groups, disk, dir, blocks, paths) && SameTables(groups, groups')
    requires BlocksSized(disk', geo.blockSize) && SameFor(geo, groups, dir, blocks, paths, disk, disk')
    ensures Directory(geo, groups', disk', dir, blocks, paths)
    ensures InodeAt(geo, groups', disk', dir) == InodeAt(geo, groups, disk, dir)
    ensures LiveFrom(disk', blocks, 0) == LiveFrom(disk, blocks, 0)
  {
    TablesKept(geo, groups, groups', blocks, paths);
    assert DependsOn(geo, groups, dir, blocks, paths, InodeBlock(geo, groups, dir));
    var inode := InodeAt(geo, groups, disk, dir);
    forall b: nat | b < |disk| && b in paths ensures disk'[b] == disk[b] {
      assert DependsOn(geo, groups, dir, blocks, paths, b);
    }
    forall k | 0 <= k < |blocks| ensures disk'[blocks[k]] == disk[blocks[k]] {
      assert DependsOn(geo, groups, dir, blocks, paths, blocks[k]);
    }
    StaysAllocated(disk, disk', geo.Pointers(), inode, inode, blocks, paths);
    OtherBlocksLive(disk, disk', blocks, 0);
  }

  lemma TablesKept(geo: Geometry, groups: seq<GroupDesc>, groups': seq<GroupDesc>, blocks: seq<nat>, paths: set<nat>)
    requires geo.Valid() && SameTables(groups, groups') && TablesApart(geo, groups)
    requires OutsideTables(geo, groups, blocks, paths)
    ensures TablesApart(geo, groups') && OutsideTables(geo, groups', blocks, paths)
    ensures forall m: nat | m > 0 && GroupOf(geo, m) < |groups| ::
      InodeBlock(geo, groups', m) == InodeBlock(geo, groups, m)
  {
    forall m: nat | m > 0 && GroupOf(geo, m) < |groups|
      ensures InodeBlock(geo, groups', m) == InodeBlock(geo, groups, m)
    {
    }
    forall n: nat, m: nat {:trigger InodeBlock(geo, groups', n), InodeBlock(geo, groups', m)}
      | n > 0 && m > 0 && GroupOf(geo, n) < |groups| && GroupOf(geo, m) < |groups| && GroupOf(geo, n) != GroupOf(geo, m)
      ensures InodeBlock(geo, groups', n) != InodeBlock(geo, groups', m)
    {
      assert InodeBlock(geo, groups, n) != InodeBlock(geo, groups, m);
    }
    forall m: nat | m > 0 && GroupOf(geo, m) < |groups'|
      ensures InodeBlock(geo, groups', m) !in blocks && InodeBlock(geo, groups', m) !in paths
    {
      assert InodeBlock(geo, groups, m) !in blocks;
    }
  }

  /** The directory shares no block with the file to be deleted, and none of its blocks is a bitmap. */
  ghost predicate DirectoryApart(geo: Geometry, groups: seq<GroupDesc>, dir: nat, blocks: seq<nat>, paths: set<nat>,
                                 tree: seq<nat>)
    requires geo.Valid() && dir > 0 && GroupOf(geo, dir) < |groups|
  {
    forall b: nat | DependsOn(geo, groups, dir, blocks, paths, b) ::
      b !in tree && b !in BlockBitmaps(groups) && b !in InodeBitmaps(groups)
  }

  /** What deleting inode `num` with block tree `tree` did to bitmaps and counters: exactly the bits of the tree and of
      the inode are cleared, and both levels of counters rose by exactly the numbers of freed blocks and inodes. */
  ghost predicate Erased(geo: Geometry, s0: Snapshot, freeInodes0: nat, s: Snapshot, freeInodes: nat, num: nat,
                         tree: seq<nat>)
    requires geo.Valid() && num > 0
  {
    && |s.disk| == |s0.disk| && s.free == s0.free + |tree| && freeInodes == freeInodes0 + 1
    && CountersRaised(geo, s0.groups, s.groups, GroupOf(geo, num), tree)
    && BitsCleared(geo, s0, s, tree)
    && InodeBitCleared(geo, s0.groups, s0.disk, s.disk, num)
  }

  ghost predicate CountersRaised(geo: Geometry, groups0: seq<GroupDesc>, groups: seq<GroupDesc>, h: nat, tree: seq<nat>)
    requires geo.Valid()
  {
    && |groups| == |groups0| && (forall k | 0 <= k < |tree| :: Freeable(geo, tree[k]))
    && forall g: nat | g < |groups0| ::
         groups[g] == groups0[g].(freeBlocks := groups0[g].freeBlocks + CountIn(geo, tree, g),
                                  freeInodes := groups0[g].freeInodes + if g == h then 1 else 0)
  }

  ghost predicate InodeBitCleared(geo: Geometry, groups: seq<GroupDesc>, disk0: Disk, disk: Disk, num: nat)
    requires geo.Valid() && num > 0 && |disk| == |disk0|
  {
    forall g: nat, i: nat | g < |groups| && groups[g].inodeBitmap < |disk0| ::
      BitOf(disk[groups[g].inodeBitmap], i)
      <==> BitOf(disk0[groups[g].inodeBitmap], i) && !(g == GroupOf(geo, num) && i == IndexOf(geo, num))
  }

  /** No block holds two bitmaps. */
  ghost predicate MapsApart(groups: seq<GroupDesc>) {
    && Distinct(InodeBitmaps(groups))
    && forall g, h | 0 <= g < |groups| && 0 <= h < |groups| :: InodeBitmaps(groups)[g] != BlockBitmaps(groups)[h]
  }

  ghost predicate OnlyBlock(disk: Disk, disk': Disk, at: nat) {
    at < |disk| == |disk'| && forall b: nat | b < |disk| && b != at :: disk'[b] == disk[b]
  }

  /** Every block that is neither a bitmap nor in the tree is as before. */
  ghost predicate OthersKept(groups: seq<GroupDesc>, disk0: Disk, disk: Disk, tree: seq<nat>) {
    |disk| == |disk0|
    && forall b: nat | b < |disk| && b !in tree && b !in BlockBitmaps(groups) && b !in InodeBitmaps(groups) ::
         disk[b] == disk0[b]
  }

  lemma BothErase(geo: Geometry, s0: Snapshot, freeInodes0: nat, s1: Snapshot, s2: Snapshot, freeInodes: nat,
                  num: nat, tree: seq<nat>)
    requires geo.Valid() && num > 0 && MapsApart(s0.groups)
    requires Freed(geo, s0, s1, tree) && Separate(geo, s0, tree)
    requires InodeFreed(geo, s1.disk, s1.groups, freeInodes0, s2.disk, s2.groups, freeInodes, GroupOf(geo, num),
                        IndexOf(geo, num))
    requires OnlyBlock(s1.disk, s2.disk, s0.groups[GroupOf(geo, num)].inodeBitmap)
    requires s1.groups[GroupOf(geo, num)].freeInodes + 1 < COUNT_SPAN && s2.free == s1.free
    ensures Erased(geo, s0, freeInodes0, s2, freeInodes, num, tree)
  {
    CountersBoth(geo, s0, s1, s2, GroupOf(geo, num), tree);
    BlockBitsKept(geo, s0, s1, s2, GroupOf(geo, num), tree);
    InodeBitOnly(geo, s0, s1, s2, num, tree);
  }

  lemma CountersBoth(geo: Geometry, s0: Snapshot, s1: Snapshot, s2: Snapshot, h: nat, tree: seq<nat>)
    requires geo.Valid() && Freed(geo, s0, s1, tree) && h < |s1.groups|
    requires s2.groups == s1.groups[h := s1.groups[h].(freeInodes := (s1.groups[h].freeInodes + 1) % COUNT_SPAN)]
    requires s1.groups[h].freeInodes + 1 < COUNT_SPAN
    ensures CountersRaised(geo, s0.groups, s2.groups, h, tree)
  {
  }

  lemma BlockBitsKept(geo: Geometry, s0: Snapshot, s1: Snapshot, s2: Snapshot,
                      h: nat, tree: seq<nat>)
    requires geo.Valid() && MapsApart(s0.groups) && h < |s0.groups|
    requires |s1.disk| == |s0.disk| && BitsCleared(geo, s0, s1, tree) && s0.groups[h].inodeBitmap < |s1.disk|
    requires OnlyBlock(s1.disk, s2.disk, s0.groups[h].inodeBitmap)
    ensures BitsCleared(geo, s0, s2, tree)
  {
    forall g: nat | g < |s0.groups| && s0.groups[g].blockBitmap < |s0.disk|
      ensures s2.disk[s0.groups[g].blockBitmap] == s1.disk[s0.groups[g].blockBitmap]
    {
      assert BlockBitmaps(s0.groups)[g] == s0.groups[g].blockBitmap;
      assert InodeBitmaps(s0.groups)[h] == s0.groups[h].inodeBitmap;
    }
  }

  lemma OthersKeptToo(geo: Geometry, s0: Snapshot, s1: Snapshot, s2: Snapshot, h: nat, tree: seq<nat>)
    requires geo.Valid() && h < |s0.groups| && |s1.disk| == |s0.disk| && OtherBlocks(s0, s1, tree)
    requires s0.groups[h].inodeBitmap < |s1.disk|
    requires OnlyBlock(s1.disk, s2.disk, s0.groups[h].inodeBitmap)
    ensures OthersKept(s0.groups, s0.disk, s2.disk, tree)
  {
    assert InodeBitmaps(s0.groups)[h] == s0.groups[h].inodeBitmap;
  }

  lemma InodeBitOnly(geo: Geometry, s0: Snapshot, s1: Snapshot, s2: Snapshot,
                     num: nat, tree: seq<nat>)
    requires geo.Valid() && num > 0 && MapsApart(s0.groups)
    requires Freed(geo, s0, s1, tree) && Separate(geo, s0, tree) && GroupOf(geo, num) < |s0.groups|
    requires var at := s0.groups[GroupOf(geo, num)].inodeBitmap;
      && at < |s1.disk| && IndexOf(geo, num) / 8 < |s1.disk[at]|
      && s2.disk == s1.disk[at := WithoutBit(s1.disk[at], IndexOf(geo, num))]
    ensures InodeBitCleared(geo, s0.groups, s0.disk, s2.disk, num)
  {
    var at := s0.groups[GroupOf(geo, num)].inodeBitmap;
    var bitmaps := InodeBitmaps(s0.groups);
    forall g: nat, i: nat | g < |s0.groups| && s0.groups[g].inodeBitmap < |s0.disk|
      ensures BitOf(s2.disk[s0.groups[g].inodeBitmap], i) <==>
        BitOf(s0.disk[s0.groups[g].inodeBitmap], i) && !(g == GroupOf(geo, num) && i == IndexOf(geo, num))
    {
      assert bitmaps[g] == s0.groups[g].inodeBitmap && bitmaps[g] in bitmaps && bitmaps[GroupOf(geo, num)] == at;
      assert bitmaps[g] !in BlockBitmaps(s0.groups) && bitmaps[g] !in tree;
      if g == GroupOf(geo, num) {
        WithoutBitMeaning(s1.disk[at], IndexOf(geo, num), i);
      }
    }
  }

  /** Inode `num` is marked as used. */
  ghost predicate InodeUsed(geo: Geometry, groups: seq<GroupDesc>, disk: Disk, num: nat)
    requires geo.Valid()
  {
    && num > 0 && GroupOf(geo, num) < |groups| && groups[GroupOf(geo, num)].inodeBitmap < |disk|
    && BitOf(disk[groups[GroupOf(geo, num)].inodeBitmap], IndexOf(geo, num))
  }

  /** Freeing the blocks of a file does not touch inode bitmaps. */
  lemma InodeStillUsed(geo: Geometry, s0: Snapshot, s1: Snapshot, num: nat, tree: seq<nat>)
    requires geo.Valid() && MapsApart(s0.groups) && Freed(geo, s0, s1, tree) && Separate(geo, s0, tree)
    requires InodeUsed(geo, s0.groups, s0.disk, num)
    ensures InodeUsed(geo, s1.groups, s1.disk, num)
    ensures s1.groups[GroupOf(geo, num)].inodeBitmap == s0.groups[GroupOf(geo, num)].inodeBitmap
  {
    var bitmaps, g := InodeBitmaps(s0.groups), GroupOf(geo, num);
    assert bitmaps[g] == s0.groups[g].inodeBitmap && bitmaps[g] in bitmaps;
    assert bitmaps[g] !in BlockBitmaps(s0.groups) && bitmaps[g] !in tree;
  }

  /** Free all blocks of the file, then the inode itself. */
  method Erase(vol: Volume, num: nat, inode: Inode)
    requires vol.Valid() && Agree(vol.geo, vol.disk, vol.groups, vol.freeBlocks, vol.freeInodes)
    requires Separate(vol.geo, Now(vol), FileTree(vol.disk, inode)) && InodeUsed(vol.geo, vol.groups, vol.disk, num)
    modifies vol`disk, vol`groups, vol`freeBlocks, vol`freeInodes
    ensures vol.Valid() && Agree(vol.geo, vol.disk, vol.groups, vol.freeBlocks, vol.freeInodes)
    ensures Erased(vol.geo, old(Now(vol)), old(vol.freeInodes), Now(vol), vol.freeInodes, num,
                   FileTree(old(vol.disk), inode))
    ensures OthersKept(old(vol.groups), old(vol.disk), vol.disk, FileTree(old(vol.disk), inode))
  {
    ghost var s0, freeInodes0 := Now(vol), vol.freeInodes;
    ghost var tree := FileTree(vol.disk, inode);
    ghost var g, i := GroupOf(vol.geo, num), IndexOf(vol.geo, num);
    FreeFile(vol, inode);
    ghost var s1 := Now(vol);
    InodeStillUsed(vol.geo, s0, s1, num, tree);
    var ok := FreeInode(vol, num);
    FreedInodeAgrees(vol.geo, s1.disk, s1.groups, vol.freeBlocks, freeInodes0, vol.disk, vol.groups, vol.freeInodes, g,
                     i);
    BothErase(vol.geo, s0, freeInodes0, s1, Now(vol), vol.freeInodes, num, tree);
    OthersKeptToo(vol.geo, s0, s1, Now(vol), g, tree);
  }

  /** The directory survives the erasure of a file it shares no block with. */
  lemma ErasureKeepsDirectory(geo: Geometry, s0: Snapshot, freeInodes0: nat, s: Snapshot, freeInodes: nat, num: nat,
                              tree: seq<nat>, dir: nat, blocks: seq<nat>, paths: set<nat>)
    requires geo.Valid() && num > 0 && Directory(geo, s0.groups, s0.disk, dir, blocks, paths)
    requires Erased(geo, s0, freeInodes0, s, freeInodes, num, tree) && OthersKept(s0.groups, s0.disk, s.disk, tree)
    requires BlocksSized(s.disk, geo.blockSize) && DirectoryApart(geo, s0.groups, dir, blocks, paths, tree)
    ensures Directory(geo, s.groups, s.disk, dir, blocks, paths)
    ensures LiveFrom(s.disk, blocks, 0) == LiveFrom(s0.disk, blocks, 0)
    ensures InodeAt(geo, s.groups, s.disk, dir) == InodeAt(geo, s0.groups, s0.disk, dir)
    ensures InodeBitmaps(s.groups) == InodeBitmaps(s0.groups) && BlockBitmaps(s.groups) == BlockBitmaps(s0.groups)
  {
    DirectoryKept(geo, s0.groups, s.groups, s0.disk, s.disk, dir, blocks, paths);
  }

  /** Bitmaps and counters do not care about directory blocks. */
  lemma RemovalKeepsErasure(geo: Geometry, s0: Snapshot, freeInodes0: nat, s: Snapshot, freeInodes: nat, num: nat,
                            tree: seq<nat>, disk: Disk, blocks: seq<nat>)
    requires geo.Valid() && num > 0 && Erased(geo, s0, freeInodes0, s, freeInodes, num, tree)
    requires Agree(geo, s.disk, s.groups, s.free, freeInodes)
    requires |disk| == |s.disk| && forall b: nat | b < |disk| && b !in blocks :: disk[b] == s.disk[b]
    requires NoBitmapIn(s0.groups, s.groups, blocks)
    ensures Agree(geo, disk, s.groups, s.free, freeInodes)
    ensures Erased(geo, s0, freeInodes0, s.(disk := disk), freeInodes, num, tree)
  {
    ElsewhereKeepsCounted(s.disk, disk, BlockBitmaps(s.groups), BlockCounts(s.groups), s.free, geo.blocksPerGroup);
    ElsewhereKeepsCounted(s.disk, disk, InodeBitmaps(s.groups), InodeCounts(s.groups), freeInodes, geo.inodesPerGroup);
    forall g: nat | g < |s0.groups|
      ensures s0.groups[g].blockBitmap !in blocks && s0.groups[g].inodeBitmap !in blocks
    {
      assert BlockBitmaps(s0.groups)[g] == s0.groups[g].blockBitmap;
      assert InodeBitmaps(s0.groups)[g] == s0.groups[g].inodeBitmap;
    }
  }

  /** The inode ext2_find_file returns for a name. */
  ghost function Found(geo: Geometry, groups: seq<GroupDesc>, disk: Disk, dir: nat, name: seq<byte>,
                       blocks: seq<nat>): nat
    requires geo.Valid() && InodeNumber(geo, groups, disk,
                                        dir) && BlocksSized(disk, geo.blockSize) && TiledBlocks(disk, blocks)
  {
    if IsDirectory(InodeAt(geo, groups, disk, dir)) then Lookup(LiveFrom(disk, blocks, 0), name) else 0
  }

  /** What ext2_delete_file asks of the inode `num` it found: it is in use, so are its blocks, no block is shared,
      and the directory lies elsewhere. */
  ghost predicate Deletable(geo: Geometry, s: Snapshot, num: nat, dir: nat, blocks: seq<nat>, paths: set<nat>)
    requires geo.Valid() && BlocksSized(s.disk, geo.blockSize) && dir > 0 && GroupOf(geo, dir) < |s.groups|
  {
    && InodeNumber(geo, s.groups, s.disk, num) && InodeUsed(geo, s.groups, s.disk, num)
    && Separate(geo, s, FileTree(s.disk, InodeAt(geo, s.groups, s.disk, num)))
    && DirectoryApart(geo, s.groups, dir, blocks, paths, FileTree(s.disk, InodeAt(geo, s.groups, s.disk, num)))
  }

  /** Non-empty directories are not deleted. */
  predicate Refused(geo: Geometry, inode: Inode) {
    IsDirectory(inode) && ISize(inode) > geo.blockSize
  }

  /** Erase the file, leaving the directory as it is. */
  method EraseOnly(vol: Volume, dir: nat, num: nat, inode: Inode, ghost blocks: seq<nat>, ghost paths: set<nat>)
    requires vol.Valid() && Agree(vol.geo, vol.disk, vol.groups, vol.freeBlocks, vol.freeInodes)
    requires Directory(vol.geo, vol.groups, vol.disk, dir, blocks, paths)
    requires Separate(vol.geo, Now(vol), FileTree(vol.disk, inode)) && InodeUsed(vol.geo, vol.groups, vol.disk, num)
    requires DirectoryApart(vol.geo, vol.groups, dir, blocks, paths, FileTree(vol.disk, inode))
    modifies vol`disk, vol`groups, vol`freeBlocks, vol`freeInodes
    ensures vol.Valid() && Agree(vol.geo, vol.disk, vol.groups, vol.freeBlocks, vol.freeInodes)
    ensures Erased(vol.geo, old(Now(vol)), old(vol.freeInodes), Now(vol), vol.freeInodes, num,
                   FileTree(old(vol.disk), inode))
    ensures Directory(vol.geo, vol.groups, vol.disk, dir, blocks, paths)
    ensures LiveFrom(vol.disk, blocks, 0) == LiveFrom(old(vol.disk), blocks, 0)
    ensures InodeAt(vol.geo, vol.groups, vol.disk, dir) == InodeAt(vol.geo, old(vol.groups), old(vol.disk), dir)
    ensures NoBitmapIn(old(vol.groups), vol.groups, blocks)
  {
    ghost var s0, freeInodes0 := Now(vol), vol.freeInodes;
    ghost var tree := FileTree(vol.disk, inode);
    Erase(vol, num, inode);
    ErasureKeepsDirectory(vol.geo, s0, freeInodes0, Now(vol), vol.freeInodes, num, tree, dir, blocks, paths);
    BlocksApart(vol.geo, s0.groups, dir, blocks, paths, tree);
  }

  /** The bitmaps are where they were, and none lies in `blocks`. */
  ghost predicate NoBitmapIn(groups0: seq<GroupDesc>, groups: seq<GroupDesc>, blocks: seq<nat>) {
    && InodeBitmaps(groups) == InodeBitmaps(groups0) && BlockBitmaps(groups) == BlockBitmaps(groups0)
    && forall b | b in blocks :: b !in InodeBitmaps(groups0) && b !in BlockBitmaps(groups0)
  }

  /** Erase the file and remove its entry. */
  method EraseAndRemove(vol: Volume, dir: nat, num: nat, inode: Inode, ghost blocks: seq<nat>, ghost paths: set<nat>)
    returns (ok: bool)
    requires vol.Valid() && Agree(vol.geo, vol.disk, vol.groups, vol.freeBlocks, vol.freeInodes)
    requires Directory(vol.geo, vol.groups, vol.disk, dir, blocks, paths) && vol.geo.blockSize < COUNT_SPAN
    requires Separate(vol.geo, Now(vol), FileTree(vol.disk, inode)) && InodeUsed(vol.geo, vol.groups, vol.disk, num)
    requires DirectoryApart(vol.geo, vol.groups, dir, blocks, paths, FileTree(vol.disk, inode))
    requires Has(LiveFrom(vol.disk, blocks, 0), num)
    modifies vol`disk, vol`groups, vol`freeBlocks, vol`freeInodes
    ensures ok && vol.Valid() && Agree(vol.geo, vol.disk, vol.groups, vol.freeBlocks, vol.freeInodes)
    ensures Erased(vol.geo, old(Now(vol)), old(vol.freeInodes), Now(vol), vol.freeInodes, num,
                   FileTree(old(vol.disk), inode))
    ensures Directory(vol.geo, vol.groups, vol.disk, dir, blocks, paths)
    ensures LiveFrom(vol.disk, blocks, 0) == Without(LiveFrom(old(vol.disk), blocks, 0), num)
    ensures InodeAt(vol.geo, vol.groups, vol.disk, dir) == InodeAt(vol.geo, old(vol.groups), old(vol.disk), dir)
  {
    ghost var s0, freeInodes0 := Now(vol), vol.freeInodes;
    ghost var tree := FileTree(vol.disk, inode);
    EraseOnly(vol, dir, num, inode, blocks, paths);
    ghost var s := Now(vol);
    ok := RemoveEntry(vol, dir, num, blocks, paths);
    RemovalKeepsErasure(vol.geo, s0, freeInodes0, s, vol.freeInodes, num, tree, vol.disk, blocks);
  }

  lemma BlocksApart(geo: Geometry, groups: seq<GroupDesc>, dir: nat, blocks: seq<nat>, paths: set<nat>, tree: seq<nat>)
    requires geo.Valid() && dir > 0 && GroupOf(geo, dir) < |groups|
    requires DirectoryApart(geo, groups, dir, blocks, paths, tree)
    ensures forall b | b in blocks :: b !in InodeBitmaps(groups) && b !in BlockBitmaps(groups)
  {
    forall b | b in blocks ensures b !in InodeBitmaps(groups) && b !in BlockBitmaps(groups) {
      assert DependsOn(geo, groups, dir, blocks, paths, b);
    }
  }

  /** ext2_delete_file. It succeeds exactly when the name leads to an inode that is no non-empty directory; then
      exactly the blocks of the file and its inode are free, and its entry is gone. Otherwise nothing changes. */
  method DeleteFile(vol: Volume, dir: nat, name: seq<byte>, ghost blocks: seq<nat>, ghost paths: set<nat>)
    returns (ok: bool, num: nat)
    requires vol.Valid() && Agree(vol.geo, vol.disk, vol.groups, vol.freeBlocks, vol.freeInodes)
    requires Directory(vol.geo, vol.groups, vol.disk, dir, blocks, paths) && vol.geo.blockSize < COUNT_SPAN
    requires var n := Found(vol.geo, vol.groups, vol.disk, dir, name, blocks);
      n != 0 ==> Deletable(vol.geo, Now(vol), n, dir, blocks, paths)
    modifies vol`disk, vol`groups, vol`freeBlocks, vol`freeInodes
    ensures vol.Valid() && Agree(vol.geo, vol.disk, vol.groups, vol.freeBlocks, vol.freeInodes)
    ensures num == Found(vol.geo, old(vol.groups), old(vol.disk), dir, name, blocks)
    ensures ok <==> num != 0 && !Refused(vol.geo, InodeAt(vol.geo, old(vol.groups), old(vol.disk), num))
    ensures !ok ==> Now(vol) == old(Now(vol)) && vol.freeInodes == old(vol.freeInodes)
    ensures ok ==> Erased(vol.geo, old(Now(vol)), old(vol.freeInodes), Now(vol), vol.freeInodes, num,
                          FileTree(old(vol.disk), InodeAt(vol.geo, old(vol.groups), old(vol.disk), num)))
    ensures ok ==> Directory(vol.geo, vol.groups, vol.disk, dir, blocks, paths)
    ensures ok ==> LiveFrom(vol.disk, blocks, 0) == Without(LiveFrom(old(vol.disk), blocks, 0), num)
    ensures ok ==> InodeAt(vol.geo, vol.groups, vol.disk, dir) == InodeAt(vol.geo, old(vol.groups), old(vol.disk), dir)
  {
    num := FindFile(vol, dir, name, blocks, paths);
    if num == 0 {
      return false, num;
    }
    FoundIsThere(LiveFrom(vol.disk, blocks, 0), name);
    var inode;
    ok, inode := GetInode(vol, num);
    if IsDirectory(inode) && ISize(inode) > vol.geo.blockSize {
      return false, num;
    }
    ok := EraseAndRemove(vol, dir, num, inode, blocks, paths);
  }

  /** Deleting a file by its name and looking the name up again: it is gone exactly if it was the only entry with that
      name and the first one with its inode. */
  method DeleteThenFind(vol: Volume, dir: nat, name: seq<byte>, ghost blocks: seq<nat>, ghost paths: set<nat>)
    returns (ok: bool, again: nat)
    requires vol.Valid() && Agree(vol.geo, vol.disk, vol.groups, vol.freeBlocks, vol.freeInodes)
    requires Directory(vol.geo, vol.groups, vol.disk, dir, blocks, paths) && vol.geo.blockSize < COUNT_SPAN
    requires var n := Found(vol.geo, vol.groups, vol.disk, dir, name, blocks);
      n != 0 ==> Deletable(vol.geo, Now(vol), n, dir, blocks, paths)
    modifies vol`disk, vol`groups, vol`freeBlocks, vol`freeInodes
    ensures ok ==> (again == 0 <==> SoleLink(LiveFrom(old(vol.disk), blocks, 0), name))
    ensures !ok ==> again == Found(vol.geo, old(vol.groups), old(vol.disk), dir, name, blocks)
  {
    ghost var entries := LiveFrom(vol.disk, blocks, 0);
    NoZeroFrom(vol.disk, blocks, 0);
    var num;
    ok, num := DeleteFile(vol, dir, name, blocks, paths);
    again := FindFile(vol, dir, name, blocks, paths);
    if ok {
      GoneExactly(entries, name);
    }
  }
}
