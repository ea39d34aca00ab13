/** Freeing the block tree of a deleted file: the nested loops of ext2_delete_file in kernel/src/fs/ext2.c. */
module Ext2Delete {
  import opened Arith
  import opened Ext2Disk
  import opened Options
  import opened Ext2Alloc
  import opened Ext2Blocks

  /** The device and the block counters at one moment. */
  datatype Snapshot = Snapshot(disk: Disk, groups: seq<GroupDesc>, free: nat)

  ghost function Now(vol: Volume): Snapshot
    reads vol
  {
    Snapshot(vol.disk, vol.groups, vol.freeBlocks)
  }

  /** Bit `i` of the bitmap of group `g` is the bit ext2_free_block clears for block `b`. */
  predicate Place(geo: Geometry, b: nat, g: nat, i: nat)
    requires geo.Valid()
  {
    Freeable(geo, b) && BlockGroup(geo, b) == g && BlockIndex(geo, b) == i
  }

  lemma OnePlace(geo: Geometry, b: nat, c: nat)
    requires geo.Valid() && Freeable(geo, b) && Freeable(geo, c)
    requires BlockGroup(geo, b) == BlockGroup(geo, c) && BlockIndex(geo, b) == BlockIndex(geo, c)
    ensures b == c
  {
    DivMod(b - geo.firstDataBlock, geo.blocksPerGroup);
    DivMod(c - geo.firstDataBlock, geo.blocksPerGroup);
  }

  ghost predicate Clears(geo: Geometry, freed: seq<nat>, g: nat, i: nat)
    requires geo.Valid()
  {
    exists k :: 0 <= k < |freed| && Place(geo, freed[k], g, i)
  }

  lemma ClearsNext(geo: Geometry, freed: seq<nat>, b: nat, g: nat, i: nat)
    requires geo.Valid()
    ensures Clears(geo, freed + [b], g, i) <==> Clears(geo, freed, g, i) || Place(geo, b, g, i)
  {
    var next := freed + [b];
    if Clears(geo, freed, g, i) {
      var k :| 0 <= k < |freed| && Place(geo, freed[k], g, i);
      assert Place(geo, next[k], g, i);
    }
    if Place(geo, b, g, i) {
      assert Place(geo, next[|freed|], g, i);
    }
  }

  /** How many of the blocks lie in group `g`. */
  function CountIn(geo: Geometry, blocks: seq<nat>, g: nat): (n: nat)
    requires geo.Valid() && forall k | 0 <= k < |blocks| :: Freeable(geo, blocks[k])
  {
    if blocks == [] then 0
    else
      var last := blocks[|blocks| - 1];
      assert Freeable(geo, last);
      CountIn(geo, blocks[..|blocks| - 1], g) + if BlockGroup(geo, last) == g then 1 else 0
  }

  /** A block that may be freed: its bit is set and it holds no bitmap. */
  ghost predicate InUse(geo: Geometry, s: Snapshot, b: nat)
    requires geo.Valid()
  {
    && Freeable(geo, b) && BlockGroup(geo, b) < |s.groups|
    && s.groups[BlockGroup(geo, b)].blockBitmap < |s.disk|
    && BitOf(s.disk[s.groups[BlockGroup(geo, b)].blockBitmap], BlockIndex(geo, b))
    && b !in BlockBitmaps(s.groups) && b !in InodeBitmaps(s.groups)
  }

  /** No block occurs twice, and all may be freed. */
  ghost predicate Separate(geo: Geometry, s: Snapshot, blocks: seq<nat>)
    requires geo.Valid()
  {
    && (forall k | 0 <= k < |blocks| :: InUse(geo, s, blocks[k]))
    && (forall k, m | 0 <= k < m < |blocks| :: blocks[k] != blocks[m])
  }

  /** Exactly the blocks `freed` were freed since `s0`: their bits are clear and all other bits as before, each group
      count is up by the number of its freed blocks and the superblock count by the number of all, the freed blocks
      are zero, and every other block but the block bitmaps is as before. */
  ghost predicate Freed(geo: Geometry, s0: Snapshot, s: Snapshot, freed: seq<nat>)
    requires geo.Valid()
  {
    && (forall k | 0 <= k < |freed| :: Freeable(geo, freed[k]))
    && |s.disk| == |s0.disk| && |s.groups| == |s0.groups|
    && (forall g: nat | g < |s.groups| ::
         s.groups[g] == s0.groups[g].(freeBlocks := s0.groups[g].freeBlocks + CountIn(geo, freed, g)))
    && s.free == s0.free + |freed|
    && OtherBlocks(s0, s, freed)
    && BitsCleared(geo, s0, s, freed)
  }

  ghost predicate OtherBlocks(s0: Snapshot, s: Snapshot, freed: seq<nat>)
    requires |s.disk| == |s0.disk|
  {
    forall b: nat | b < |s.disk| && b !in BlockBitmaps(s0.groups) ::
      s.disk[b] == if b in freed then seq(|s0.disk[b]|, i => 0) else s0.disk[b]
  }

  ghost predicate BitsCleared(geo: Geometry, s0: Snapshot, s: Snapshot, freed: seq<nat>)
    requires geo.Valid() && |s.disk| == |s0.disk|
  {
    forall g: nat, i: nat | g < |s0.groups| && s0.groups[g].blockBitmap < |s.disk| ::
      BitOf(s.disk[s0.groups[g].blockBitmap], i)
      <==> BitOf(s0.disk[s0.groups[g].blockBitmap], i) && !Clears(geo, freed, g, i)
  }

  /** Freeing one more block. */
  lemma FreedNext(geo: Geometry, s0: Snapshot, s: Snapshot, s': Snapshot, freed: seq<nat>, b: nat)
    requires geo.Valid() && Freed(geo, s0, s, freed) && InUse(geo, s0, b) && Distinct(BlockBitmaps(s0.groups))
    requires BlockFreed(geo, s.disk, s.groups, s.free, s'.disk, s'.groups, s'.free, b, BlockGroup(geo, b),
                        BlockIndex(geo, b))
    requires s'.groups[BlockGroup(geo, b)].freeBlocks == s.groups[BlockGroup(geo, b)].freeBlocks + 1
    ensures Freed(geo, s0, s', freed + [b])
  {
    var next := freed + [b];
    assert next[..|freed|] == freed;
    BitsNext(geo, s0, s, s', freed, b);
    OtherNext(geo, s0, s, s', freed, b);
  }

  lemma BitsNext(geo: Geometry, s0: Snapshot, s: Snapshot, s': Snapshot, freed: seq<nat>, b: nat)
    requires geo.Valid() && Freed(geo, s0, s, freed) && InUse(geo, s0, b) && Distinct(BlockBitmaps(s0.groups))
    requires BlockFreed(geo, s.disk, s.groups, s.free, s'.disk, s'.groups, s'.free, b, BlockGroup(geo, b),
                        BlockIndex(geo, b))
    ensures BitsCleared(geo, s0, s', freed + [b])
  {
    var at := s0.groups[BlockGroup(geo, b)].blockBitmap;
    forall g: nat, i: nat | g < |s0.groups| && s0.groups[g].blockBitmap < |s'.disk|
      ensures BitOf(s'.disk[s0.groups[g].blockBitmap], i)
        <==> BitOf(s0.disk[s0.groups[g].blockBitmap], i) && !Clears(geo, freed + [b], g, i)
    {
      ClearsNext(geo, freed, b, g, i);
      assert BlockBitmaps(s0.groups)[g] == s0.groups[g].blockBitmap;
      assert BlockBitmaps(s0.groups)[BlockGroup(geo, b)] == at;
      assert s0.groups[g].blockBitmap in BlockBitmaps(s0.groups);
      if g == BlockGroup(geo, b) {
        WithoutBitMeaning(s.disk[at], BlockIndex(geo, b), i);
      }
    }
  }

  lemma OtherNext(geo: Geometry, s0: Snapshot, s: Snapshot, s': Snapshot, freed: seq<nat>, b: nat)
    requires geo.Valid() && Freed(geo, s0, s, freed) && InUse(geo, s0, b)
    requires BlockFreed(geo, s.disk, s.groups, s.free, s'.disk, s'.groups, s'.free, b, BlockGroup(geo, b),
                        BlockIndex(geo, b))
    ensures OtherBlocks(s0, s', freed + [b])
  {
    var at := s0.groups[BlockGroup(geo, b)].blockBitmap;
    assert BlockBitmaps(s0.groups)[BlockGroup(geo, b)] == at;
    assert at in BlockBitmaps(s0.groups);
  }

  /** A block not yet freed is still in use. */
  lemma StillInUse(geo: Geometry, s0: Snapshot, s: Snapshot, freed: seq<nat>, b: nat)
    requires geo.Valid() && Freed(geo, s0, s, freed) && InUse(geo, s0, b) && b !in freed
    ensures InUse(geo, s, b)
  {
    var g, i := BlockGroup(geo, b), BlockIndex(geo, b);
    if Clears(geo, freed, g, i) {
      var k :| 0 <= k < |freed| && Place(geo, freed[k], g, i);
      OnePlace(geo, freed[k], b);
    }
    SameBitmaps(geo, s0, s, freed);
  }

  lemma SameBitmaps(geo: Geometry, s0: Snapshot, s: Snapshot, freed: seq<nat>)
    requires geo.Valid() && Freed(geo, s0, s, freed)
    ensures BlockBitmaps(s.groups) == BlockBitmaps(s0.groups) && InodeBitmaps(s.groups) == InodeBitmaps(s0.groups)
  {
  }

  /** The volume is in agreement, and exactly the blocks `freed` were freed since `s0`. */
  ghost predicate Progress(vol: Volume, s0: Snapshot, freed: seq<nat>)
    reads vol
  {
    && vol.Valid() && Agree(vol.geo, vol.disk, vol.groups, vol.freeBlocks, vol.freeInodes)
    && Freed(vol.geo, s0, Now(vol), freed) && Distinct(BlockBitmaps(s0.groups))
  }

  /** One ext2_free_block of the nested loops. */
  method FreeOne(vol: Volume, b: nat, ghost s0: Snapshot, ghost freed: seq<nat>)
    requires Progress(vol, s0, freed) && InUse(vol.geo, s0, b) && b !in freed
    modifies vol`disk, vol`groups, vol`freeBlocks
    ensures Progress(vol, s0, freed + [b])
  {
    ghost var s := Now(vol);
    StillInUse(vol.geo, s0, s, freed, b);
    assert BlockBitmaps(vol.groups)[BlockGroup(vol.geo, b)] == vol.groups[BlockGroup(vol.geo, b)].blockBitmap;
    FreeBlock(vol, b);
    FreedBlockAgrees(vol.geo, s.disk, s.groups, s.free, vol.freeInodes, vol.disk, vol.groups, vol.freeBlocks,
                     b, BlockGroup(vol.geo, b), BlockIndex(vol.geo, b));
    FreedNext(vol.geo, s0, s, Now(vol), freed, b);
  }

  /** The words of pointer block `b`. */
  function Words(block: Block): (r: seq<nat>)
    ensures |r| == |block| / 4
  {
    seq(|block| / 4, i requires 0 <= i < |block| / 4 => Word(block, 4 * i))
  }

  /** The blocks the loops free, in their order, for pointer block `b` with `level` levels of pointers under it,
      read off the device as it was before anything was freed. Data blocks have level 0. */
  function Tree(disk: Disk, level: nat, b: nat): seq<nat>
    decreases level, 0
  {
    if level == 0 then [b]
    else if b < |disk| then Trees(disk, level - 1, Words(disk[b])) + [b]
    else [b]
  }

  /** A loop over pointers stops at the first zero. */
  function Trees(disk: Disk, level: nat, pointers: seq<nat>): seq<nat>
    decreases level, 1 + |pointers|
  {
    if pointers == [] || pointers[0] == 0 then []
    else Tree(disk, level, pointers[0]) + Trees(disk, level, pointers[1..])
  }

  lemma SeparatePrefix(geo: Geometry, s0: Snapshot, a: seq<nat>, b: seq<nat>)
    requires geo.Valid() && Separate(geo, s0, a + b)
    ensures Separate(geo, s0, a)
  {
    assert forall k | 0 <= k < |a| :: (a + b)[k] == a[k];
  }

  lemma SeparateLast(geo: Geometry, s0: Snapshot, a: seq<nat>, b: nat)
    requires geo.Valid() && Separate(geo, s0, a + [b])
    ensures InUse(geo, s0, b) && b !in a
  {
    assert (a + [b])[|a|] == b;
    assert forall k | 0 <= k < |a| :: (a + [b])[k] == a[k];
  }

  /** A pointer block read before it is freed still holds what it held at the start. */
  lemma NotYetFreed(geo: Geometry, s0: Snapshot, s: Snapshot, freed: seq<nat>, b: nat)
    requires geo.Valid() && Freed(geo, s0, s, freed) && InUse(geo, s0, b) && b !in freed
    ensures b < |s0.disk| ==> s.disk[b] == s0.disk[b]
  {
  }

  /** The blocks below pointer block `b`, in the order the loops free them. */
  function Below(disk: Disk, level: nat, b: nat): seq<nat> {
    if level > 0 && b < |disk| then Trees(disk, level - 1, Words(disk[b])) else []
  }

  /** What a tree consists of: the trees below its root, and the root. */
  lemma TreeParts(geo: Geometry, s0: Snapshot, freed: seq<nat>, level: nat, b: nat)
    requires geo.Valid() && Separate(geo, s0, freed + Tree(s0.disk, level, b))
    ensures freed + Tree(s0.disk, level, b) == freed + Below(s0.disk, level, b) + [b]
    ensures Separate(geo, s0, freed + Below(s0.disk, level, b))
    ensures InUse(geo, s0, b) && b !in freed + Below(s0.disk, level, b) && b !in freed
  {
    var below := Below(s0.disk, level, b);
    assert Tree(s0.disk, level, b) == below + [b];
    assert freed + (below + [b]) == freed + below + [b];
    SeparateLast(geo, s0, freed + below, b);
    SeparatePrefix(geo, s0, freed + below, [b]);
  }

  /** Free block `b` and, if `level` is positive, first all trees under its pointers. The nested loops of
      ext2_delete_file repeat this for each level. */
  method FreeTree(vol: Volume, level: nat, b: nat, ghost s0: Snapshot, ghost freed: seq<nat>)
    requires Progress(vol, s0, freed) && Separate(vol.geo, s0, freed + Tree(s0.disk, level, b))
    modifies vol`disk, vol`groups, vol`freeBlocks
    ensures Progress(vol, s0, freed + Tree(s0.disk, level, b))
    decreases level, 1
  {
    TreeParts(vol.geo, s0, freed, level, b);
    FreeBelow(vol, level, b, s0, freed);
    FreeOne(vol, b, s0, freed + Below(s0.disk, level, b));
  }

  /** Read pointer block `b`, if it is one, and free the trees under its pointers. */
  method FreeBelow(vol: Volume, level: nat, b: nat, ghost s0: Snapshot, ghost freed: seq<nat>)
    requires Progress(vol, s0, freed) && Separate(vol.geo, s0, freed + Below(s0.disk, level, b))
    requires InUse(vol.geo, s0, b) && b !in freed
    modifies vol`disk, vol`groups, vol`freeBlocks
    ensures Progress(vol, s0, freed + Below(s0.disk, level, b))
    decreases level, 0
  {
    assert freed + [] == freed;
    if level > 0 {
      NotYetFreed(vol.geo, s0, Now(vol), freed, b);
      var ok, buffer := vol.ReadBlock(b);
      if ok {
        FreeTrees(vol, level - 1, Words(buffer), s0, freed);
      }
    }
  }

  /** One turn of the loop over pointers. */
  lemma TreesStep(geo: Geometry, s0: Snapshot, done: seq<nat>, level: nat, pointers: seq<nat>, i: nat)
    requires geo.Valid() && i < |pointers| && pointers[i] != 0
    requires Separate(geo, s0, done + Trees(s0.disk, level, pointers[i..]))
    ensures Separate(geo, s0, done + Tree(s0.disk, level, pointers[i]))
    ensures done + Trees(s0.disk, level, pointers[i..])
      == done + Tree(s0.disk, level, pointers[i]) + Trees(s0.disk, level, pointers[i + 1..])
  {
    var tree, rest := Tree(s0.disk, level, pointers[i]), Trees(s0.disk, level, pointers[i + 1..]);
    assert pointers[i..][1..] == pointers[i + 1..];
    assert done + Trees(s0.disk, level, pointers[i..]) == done + tree + rest;
    SeparatePrefix(geo, s0, done + tree, rest);
  }

  /** The loop over the pointers of one array, up to the first zero. */
  method FreeTrees(vol: Volume, level: nat, pointers: seq<nat>, ghost s0: Snapshot, ghost freed: seq<nat>)
    requires Progress(vol, s0, freed) && Separate(vol.geo, s0, freed + Trees(s0.disk, level, pointers))
    modifies vol`disk, vol`groups, vol`freeBlocks
    ensures Progress(vol, s0, freed + Trees(s0.disk, level, pointers))
    decreases level, 2 + |pointers|
  {
    var i := 0;
    ghost var all := freed + Trees(s0.disk, level, pointers);
    ghost var done := freed;
    assert pointers[0..] == pointers;
    while i < |pointers| && pointers[i] != 0
      invariant i <= |pointers| && all == done + Trees(s0.disk, level, pointers[i..])
      invariant Separate(vol.geo, s0, all) && Progress(vol, s0, done)
    {
      TreesStep(vol.geo, s0, done, level, pointers, i);
      FreeTree(vol, level, pointers[i], s0, done);
      done := done + Tree(s0.disk, level, pointers[i]);
      i := i + 1;
    }
    assert Trees(s0.disk, level, pointers[i..]) == [];
    assert done + [] == done;
  }

  /** The direct pointers of an inode. */
  function Directs(inode: Inode): seq<nat> {
    seq(DIRECT_BLOCKS, i requires 0 <= i < DIRECT_BLOCKS => IBlock(inode, i))
  }

  /** The tree under i_block[11 + level], which is absent when the pointer is zero. */
  function Root(disk: Disk, level: nat, inode: Inode): seq<nat>
    requires 1 <= level <= 3
  {
    if IBlock(inode, 11 + level) == 0 then [] else Tree(disk, level, IBlock(inode, 11 + level))
  }

  /** All blocks ext2_delete_file frees, in its order. */
  function FileTree(disk: Disk, inode: Inode): seq<nat> {
    Trees(disk, 0, Directs(inode)) + Root(disk, 1, inode) + Root(disk, 2, inode) + Root(disk, 3, inode)
  }

  /** One of the three parts of ext2_delete_file that free indirect blocks. */
  method FreeRoot(vol: Volume, level: nat, inode: Inode, ghost s0: Snapshot, ghost freed: seq<nat>)
    requires 1 <= level <= 3 && Progress(vol, s0, freed) && Separate(vol.geo, s0, freed + Root(s0.disk, level, inode))
    modifies vol`disk, vol`groups, vol`freeBlocks
    ensures Progress(vol, s0, freed + Root(s0.disk, level, inode))
  {
    if IBlock(inode, 11 + level) != 0 {
      FreeTree(vol, level, IBlock(inode, 11 + level), s0, freed);
    } else {
      assert freed + [] == freed;
    }
  }

  /** The block-freeing part of ext2_delete_file, for a file whose blocks are in use and not shared: exactly the
      blocks of its tree are freed, although each freed block is zeroed on the way. */
  method FreeFile(vol: Volume, inode: Inode)
    requires vol.Valid() && Agree(vol.geo, vol.disk, vol.groups, vol.freeBlocks, vol.freeInodes)
    requires Separate(vol.geo, Now(vol), FileTree(vol.disk, inode))
    modifies vol`disk, vol`groups, vol`freeBlocks
    ensures vol.Valid() && Agree(vol.geo, vol.disk, vol.groups, vol.freeBlocks, vol.freeInodes)
    ensures Freed(vol.geo, old(Now(vol)), Now(vol), FileTree(old(vol.disk), inode))
  {
    ghost var s0 := Now(vol);
    ghost var direct, single := Trees(vol.disk, 0, Directs(inode)), Root(vol.disk, 1, inode);
    ghost var double, triple := Root(vol.disk, 2, inode), Root(vol.disk, 3, inode);
    NothingFreed(vol.geo, s0);
    SeparatePrefix(vol.geo, s0, direct + single + double, triple);
    SeparatePrefix(vol.geo, s0, direct + single, double);
    SeparatePrefix(vol.geo, s0, direct, single);
    assert [] + direct == direct;
    FreeTrees(vol, 0, Directs(inode), s0, []);
    FreeRoot(vol, 1, inode, s0, direct);
    FreeRoot(vol, 2, inode, s0, direct + single);
    FreeRoot(vol, 3, inode, s0, direct + single + double);
  }

  lemma NothingFreed(geo: Geometry, s0: Snapshot)
    requires geo.Valid()
    ensures Freed(geo, s0, s0, [])
  {
  }

  /** Block `c` belongs to the tree under `b`: independently of the order and the stopping rule of the loops. */
  ghost predicate InTree(disk: Disk, level: nat, b: nat, c: nat)
    decreases level
  {
    c == b || (level > 0 && b < |disk| && exists i: nat :: i < |Words(disk[b])| && Words(disk[b])[i] != 0
                                                          && InTree(disk, level - 1, Words(disk[b])[i], c))
  }

  /** The non-zero pointers come first. */
  ghost predicate Packed(pointers: seq<nat>) {
    forall i, j | 0 <= i < j < |pointers| :: pointers[i] == 0 ==> pointers[j] == 0
  }

  ghost predicate PackedTree(disk: Disk, level: nat, b: nat)
    decreases level
  {
    level > 0 && b < |disk| ==>
      Packed(Words(disk[b])) && forall i | 0 <= i < |Words(disk[b])| :: PackedTree(disk, level - 1, Words(disk[b])[i])
  }

  /** On arrays whose non-zero pointers form a prefix, the loops reach exactly the blocks of the tree. */
  lemma {:induction false} TreeIsWhole(disk: Disk, level: nat, b: nat, c: nat)
    requires PackedTree(disk, level, b)
    ensures c in Tree(disk, level, b) <==> InTree(disk, level, b, c)
    decreases level, 0
  {
    if level > 0 && b < |disk| {
      TreesAreWhole(disk, level - 1, Words(disk[b]), c);
    }
  }

  lemma {:induction false} TreesAreWhole(disk: Disk, level: nat, pointers: seq<nat>, c: nat)
    requires Packed(pointers) && forall i | 0 <= i < |pointers| :: PackedTree(disk, level, pointers[i])
    ensures c in Trees(disk, level, pointers)
      <==> exists i: nat :: i < |pointers| && pointers[i] != 0 && InTree(disk, level, pointers[i], c)
    decreases level, 1 + |pointers|
  {
    if pointers != [] && pointers[0] != 0 {
      var rest := pointers[1..];
      TreeIsWhole(disk, level, pointers[0], c);
      TreesAreWhole(disk, level, rest, c);
      if i: nat :| i < |pointers| && pointers[i] != 0 && InTree(disk, level, pointers[i], c) {
        assert i > 0 ==> rest[i - 1] == pointers[i];
      }
      if j: nat :| j < |rest| && rest[j] != 0 && InTree(disk, level, rest[j], c) {
        assert pointers[j + 1] == rest[j];
      }
      var zero: nat := 0;
      assert InTree(disk, level, pointers[0], c) ==> zero < |pointers| && InTree(disk, level, pointers[zero], c);
    }
  }

  /** Block `c` is a data or pointer block of the file. */
  ghost predicate InFile(disk: Disk, inode: Inode, c: nat) {
    || (exists i: nat :: i < DIRECT_BLOCKS && IBlock(inode, i) != 0 && IBlock(inode, i) == c)
    || UnderRoot(disk, 1, inode, c) || UnderRoot(disk, 2, inode, c) || UnderRoot(disk, 3, inode, c)
  }

  ghost predicate UnderRoot(disk: Disk, level: nat, inode: Inode, c: nat)
    requires 1 <= level <= 3
  {
    IBlock(inode, 11 + level) != 0 && InTree(disk, level, IBlock(inode, 11 + level), c)
  }

  ghost predicate PackedFile(disk: Disk, inode: Inode) {
    && Packed(Directs(inode))
    && PackedTree(disk, 1,
                  IBlock(inode, 12)) && PackedTree(disk, 2, IBlock(inode, 13)) && PackedTree(disk, 3, IBlock(inode, 14))
  }

  /** ext2_delete_file frees exactly the blocks of the file. */
  lemma FileTreeIsWhole(disk: Disk, inode: Inode, c: nat)
    requires PackedFile(disk, inode)
    ensures c in FileTree(disk, inode) <==> InFile(disk, inode, c)
  {
    DirectsAreWhole(disk, inode, c);
    RootIsWhole(disk, 1, inode, c);
    RootIsWhole(disk, 2, inode, c);
    RootIsWhole(disk, 3, inode, c);
    assert c in FileTree(disk, inode)
      <==> (c in Trees(disk, 0, Directs(inode))
            || c in Root(disk, 1, inode) || c in Root(disk, 2, inode) || c in Root(disk, 3, inode));
  }

  lemma DirectsAreWhole(disk: Disk, inode: Inode, c: nat)
    requires Packed(Directs(inode))
    ensures c in Trees(disk, 0, Directs(inode))
      <==> exists i: nat :: i < DIRECT_BLOCKS && IBlock(inode, i) != 0 && IBlock(inode, i) == c
  {
    var directs := Directs(inode);
    TreesAreWhole(disk, 0, directs, c);
    if i: nat :| i < |directs| && directs[i] != 0 && InTree(disk, 0, directs[i], c) {
      assert IBlock(inode, i) == c;
    }
    if i: nat :| i < DIRECT_BLOCKS && IBlock(inode, i) != 0 && IBlock(inode, i) == c {
      assert directs[i] == c && InTree(disk, 0, directs[i], c);
    }
  }

  lemma RootIsWhole(disk: Disk, level: nat, inode: Inode, c: nat)
    requires 1 <= level <= 3 && PackedTree(disk, level, IBlock(inode, 11 + level))
    ensures c in Root(disk, level, inode) <==> UnderRoot(disk, level, inode, c)
  {
    TreeIsWhole(disk, level, IBlock(inode, 11 + level), c);
  }

  /** Deletion clears exactly the bits of the data and pointer blocks of the file and no other block bit. */
  lemma DeletionClearsTheFile(geo: Geometry, s0: Snapshot, s: Snapshot, inode: Inode, b: nat)
    requires geo.Valid() && PackedFile(s0.disk, inode) && Freed(geo, s0, s, FileTree(s0.disk, inode))
    requires Freeable(geo, b) && BlockGroup(geo, b) < |s0.groups|
    requires s0.groups[BlockGroup(geo, b)].blockBitmap < |s0.disk|
    ensures var g, i := BlockGroup(geo, b), BlockIndex(geo, b);
      BitOf(s.disk[s.groups[g].blockBitmap], i)
      <==> BitOf(s0.disk[s0.groups[g].blockBitmap], i) && !InFile(s0.disk, inode, b)
  {
    var g, i := BlockGroup(geo, b), BlockIndex(geo, b);
    var freed := FileTree(s0.disk, inode);
    FileTreeIsWhole(s0.disk, inode, b);
    if k :| 0 <= k < |freed| && Place(geo, freed[k], g, i) {
      OnePlace(geo, freed[k], b);
    }
    if b in freed {
      var k :| 0 <= k < |freed| && freed[k] == b;
      assert Place(geo, freed[k], g, i);
    }
  }

  /** Every block that ext2_read_inode_block and ext2_write_inode_block resolve belongs to the file. */
  lemma ResolvedIsInFile(disk: Disk, inode: Inode, slot: Slot, c: nat)
    requires (slot.Direct? ==> slot.i < DIRECT_BLOCKS) && Follow(disk, inode, slot) == Some(c) && c != 0
    requires 0 !in Path(disk, inode, slot)
    ensures InFile(disk, inode, c)
  {
    match slot
    case Direct(i) =>
    case Single(i) =>
      PointerInTree(disk, 1, IBlock(inode, 12), i, c);
    case Double(i, j) =>
      var a := Pointer(disk, IBlock(inode, 13), i).value;
      PointerInTree(disk, 1, a, j, c);
      PointerInTree(disk, 2, IBlock(inode, 13), i, c);
    case Triple(i, j, k) =>
      var a := Pointer(disk, IBlock(inode, 14), i).value;
      var b := Pointer(disk, a, j).value;
      PointerInTree(disk, 1, b, k, c);
      PointerInTree(disk, 2, a, j, c);
      PointerInTree(disk, 3, IBlock(inode, 14), i, c);
  }

  lemma PointerInTree(disk: Disk, level: nat, b: nat, i: nat, c: nat)
    requires level > 0 && Pointer(disk, b, i).Some? && Pointer(disk, b, i).value != 0
    requires InTree(disk, level - 1, Pointer(disk, b, i).value, c)
    ensures InTree(disk, level, b, c)
  {
    assert Words(disk[b])[i] == Pointer(disk, b, i).value;
  }
}
