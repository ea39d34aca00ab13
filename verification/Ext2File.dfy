/** Inode access, and reading and writing files, of kernel/src/fs/ext2.c: a file behaves as one byte sequence. */
module Ext2File {
  import opened Machine
  import opened Arith
  import opened Ext2Disk
  import opened Options
  import opened Ext2Blocks

  /** The byte at position `p` of a file whose logical block n is disk block blocks[n]. */
  function ByteAt(disk: Disk, blockSize: nat, blocks: seq<nat>, p: nat): byte
    requires blockSize > 0 && p / blockSize < |blocks| && blocks[p / blockSize] < |disk|
    requires |disk[blocks[p / blockSize]]| == blockSize
  {
    disk[blocks[p / blockSize]][p % blockSize]
  }

  /** Block `old`, which holds the file positions from `base` on, after `buffer` was written at `offset`. */
  function Overlay(before: Block, base: nat, offset: nat, buffer: seq<byte>): (b: Block)
    ensures |b| == |before|
  {
    seq(|before|, i requires 0 <= i < |before| =>
      if offset <= base + i < offset + |buffer| then buffer[base + i - offset] else before[i])
  }

  /** The chunk copied into one block buffer: `count` bytes from position `written` of the buffer go to `at`. */
  lemma ChunkIsOverlay(before: Block, block: Block, base: nat, offset: nat, buffer: seq<byte>, at: nat, written: nat,
                       count: nat)
    requires |block| == |before| && base + at == offset + written && at <= |block| && written <= |buffer|
    requires count == if |block| - at > |buffer| - written then |buffer| - written else |block| - at
    requires at == 0 || written == 0
    requires block == before || (at == 0 && count == |block|)
    ensures block[..at] + buffer[written..written + count] + block[at + count..]
      == Overlay(before, base, offset, buffer)
  {
    var after := block[..at] + buffer[written..written + count] + block[at + count..];
    forall i | 0 <= i < |before| ensures after[i] == Overlay(before, base, offset, buffer)[i] {
      if at <= i < at + count {
        assert after[i] == buffer[written + (i - at)];
      } else {
        assert after[i] == block[i];
      }
    }
  }

  lemma OverlayOutside(before: Block, base: nat, offset: nat, buffer: seq<byte>)
    requires base + |before| <= offset || offset + |buffer| <= base
    ensures Overlay(before, base, offset, buffer) == before
  {
  }

  /** Logical blocks [first, next) hold the old contents overlaid with the buffer; the others are as before. */
  ghost predicate Overlaid(disk0: Disk, disk: Disk, blockSize: nat, blocks: seq<nat>, offset: nat, buffer: seq<byte>,
                           first: nat, next: nat)
  {
    && |disk| == |disk0|
    && (forall k | 0 <= k < |blocks| :: blocks[k] < |disk|)
    && (forall k | 0 <= k < |blocks| :: disk[blocks[k]] ==
         if first <= k < next then Overlay(disk0[blocks[k]], k * blockSize, offset, buffer) else disk0[blocks[k]])
  }

  /** Overlaid, and everything else on the device is as before. */
  ghost predicate Written(disk0: Disk, disk: Disk, blockSize: nat, blocks: seq<nat>, offset: nat, buffer: seq<byte>,
                          first: nat, next: nat)
  {
    && Overlaid(disk0, disk, blockSize, blocks, offset, buffer, first, next)
    && (forall b: nat | b < |disk| && b !in blocks :: disk[b] == disk0[b])
  }

  lemma WriteNext(disk0: Disk, disk: Disk, blockSize: nat, blocks: seq<nat>, offset: nat, buffer: seq<byte>,
                  first: nat, n: nat, block: Block)
    requires first <= n < |blocks| && blocks[n] < |disk0| == |disk|
    requires block == Overlay(disk0[blocks[n]], n * blockSize, offset, buffer)
    requires forall k, m | 0 <= k < m < |blocks| :: blocks[k] != blocks[m]
    requires Written(disk0, disk, blockSize, blocks, offset, buffer, first, n)
    ensures Written(disk0, disk[blocks[n] := block], blockSize, blocks, offset, buffer, first, n + 1)
  {
    var disk' := disk[blocks[n] := block];
    forall k | 0 <= k < |blocks|
      ensures disk'[blocks[k]] ==
        if first <= k < n + 1 then Overlay(disk0[blocks[k]], k * blockSize, offset, buffer) else disk0[blocks[k]]
    {
      if k != n {
        assert disk'[blocks[k]] == disk[blocks[k]];
      }
    }
  }

  predicate Outside(k: nat, blockSize: nat, offset: nat, size: nat) {
    k * blockSize + blockSize <= offset || offset + size <= k * blockSize
  }

  /** The blocks the write loop leaves out are exactly the blocks the buffer does not reach. */
  lemma LeftOut(k: nat, blockSize: nat, offset: nat, size: nat)
    requires blockSize > 0 && offset + size > 0
    ensures offset / blockSize <= k <= (offset + size - 1) / blockSize <==> !Outside(k, blockSize, offset, size)
  {
    DivBound(offset, blockSize, k + 1);
    DivBound(offset + size - 1, blockSize, k);
    assert (k + 1) * blockSize == k * blockSize + blockSize;
  }

  /** The buffer reaches no block outside [first, next). */
  ghost predicate ReachedIn(blockSize: nat, offset: nat, size: nat, first: nat, next: nat) {
    forall k: nat {:trigger Outside(k, blockSize, offset, size)} | k < first || next <= k ::
      Outside(k, blockSize, offset, size)
  }

  lemma LoopReaches(blockSize: nat, offset: nat, size: nat, first: nat, next: nat)
    requires blockSize > 0 && offset + size > 0
    requires first == offset / blockSize && next == (offset + size - 1) / blockSize + 1
    ensures ReachedIn(blockSize, offset, size, first, next)
  {
    forall k: nat | k < first || next <= k ensures Outside(k, blockSize, offset, size) {
      LeftOut(k, blockSize, offset, size);
    }
  }

  lemma ReachedIsAll(disk0: Disk, disk: Disk, blockSize: nat, blocks: seq<nat>, offset: nat, buffer: seq<byte>,
                     first: nat, next: nat)
    requires forall b | 0 <= b < |disk0| :: |disk0[b]| == blockSize
    requires ReachedIn(blockSize, offset, |buffer|, first, next)
    requires Written(disk0, disk, blockSize, blocks, offset, buffer, first, next)
    ensures Written(disk0, disk, blockSize, blocks, offset, buffer, 0, |blocks|)
  {
    forall k: nat | k < |blocks|
      ensures disk[blocks[k]] == Overlay(disk0[blocks[k]], k * blockSize, offset, buffer)
    {
      if k < first || next <= k {
        assert Outside(k, blockSize, offset, |buffer|);
        OverlayOutside(disk0[blocks[k]], k * blockSize, offset, buffer);
      }
    }
  }

  /** The write loop leaves out only blocks the buffer does not reach. */
  lemma RangeIsAll(disk0: Disk, disk: Disk, blockSize: nat, blocks: seq<nat>, offset: nat, buffer: seq<byte>,
                   first: nat, next: nat)
    requires forall b | 0 <= b < |disk0| :: |disk0[b]| == blockSize
    requires blockSize > 0 && offset + |buffer| > 0
    requires first == offset / blockSize && next == (offset + |buffer| - 1) / blockSize + 1
    requires Written(disk0, disk, blockSize, blocks, offset, buffer, first, next)
    ensures Written(disk0, disk, blockSize, blocks, offset, buffer, 0, |blocks|)
  {
    LoopReaches(blockSize, offset, |buffer|, first, next);
    ReachedIsAll(disk0, disk, blockSize, blocks, offset, buffer, first, next);
  }

  /** In terms of bytes: the old contents overlaid with the buffer. */
  lemma OverlaidBytes(disk0: Disk, disk: Disk, blockSize: nat, blocks: seq<nat>, offset: nat, buffer: seq<byte>, p: nat)
    requires blockSize > 0 && p / blockSize < |blocks|
    requires forall b | 0 <= b < |disk0| :: |disk0[b]| == blockSize
    requires Overlaid(disk0, disk, blockSize, blocks, offset, buffer, 0, |blocks|)
    ensures |disk[blocks[p / blockSize]]| == blockSize
    ensures ByteAt(disk, blockSize, blocks, p) ==
      if offset <= p < offset + |buffer| then buffer[p - offset] else ByteAt(disk0, blockSize, blocks, p)
  {
    DivMod(p, blockSize);
  }

  /** Where inode `i` of a table lies: the block, counted from the start of the table, and the offset there. */
  function TableBlock(blockSize: nat, i: nat): nat
    requires blockSize > 0
  {
    i * INODE_SIZE / blockSize
  }

  function TableOffset(blockSize: nat, i: nat): nat
    requires blockSize > 0
  {
    i * INODE_SIZE % blockSize
  }

  /** Inodes do not straddle blocks, and two inodes of one block do not overlap. */
  lemma InodeSlots(blockSize: nat, i: nat, j: nat)
    requires blockSize >= 1024 && blockSize % 1024 == 0
    ensures TableOffset(blockSize, i) + INODE_SIZE <= blockSize
    ensures i != j && TableBlock(blockSize, i) == TableBlock(blockSize, j) ==>
      TableOffset(blockSize, i) + INODE_SIZE <= TableOffset(blockSize, j)
      || TableOffset(blockSize, j) + INODE_SIZE <= TableOffset(blockSize, i)
  {
    var k := blockSize / INODE_SIZE;
    assert blockSize == INODE_SIZE * k;
    ScaledDiv(INODE_SIZE, i, k);
    ScaledDiv(INODE_SIZE, j, k);
    DivMod(i, k);
    DivMod(j, k);
  }

  /** An inode number the group descriptors cover, whose inode lies on the device. */
  predicate InodeNumber(geo: Geometry, groups: seq<GroupDesc>, disk: Disk, num: nat)
    requires geo.Valid()
  {
    num > 0 && GroupOf(geo, num) < |groups| && InodeBlock(geo, groups, num) < |disk|
  }

  /** The block of the inode table that holds an inode. */
  function InodeBlock(geo: Geometry, groups: seq<GroupDesc>, num: nat): nat
    requires geo.Valid() && num > 0 && GroupOf(geo, num) < |groups|
  {
    groups[GroupOf(geo, num)].inodeTable + TableBlock(geo.blockSize, IndexOf(geo, num))
  }

  function InodeOffset(geo: Geometry, num: nat): (offset: nat)
    requires geo.Valid() && num > 0
    ensures offset + INODE_SIZE <= geo.blockSize
  {
    InodeSlots(geo.blockSize, IndexOf(geo, num), 0);
    TableOffset(geo.blockSize, IndexOf(geo, num))
  }

  /** The inode tables of different groups share no block. */
  ghost predicate TablesApart(geo: Geometry, groups: seq<GroupDesc>)
    requires geo.Valid()
  {
    forall n: nat, m: nat {:trigger InodeBlock(geo, groups, n), InodeBlock(geo, groups, m)}
      | n > 0 && m > 0 && GroupOf(geo,
                                  n) < |groups| && GroupOf(geo, m) < |groups| && GroupOf(geo, n) != GroupOf(geo, m) ::
      InodeBlock(geo, groups, n) != InodeBlock(geo, groups, m)
  }

  /** The places of different inodes do not overlap. */
  lemma InodePlaces(geo: Geometry, groups: seq<GroupDesc>, n: nat, m: nat)
    requires geo.Valid() && TablesApart(geo, groups) && n != m
    requires n > 0 && m > 0 && GroupOf(geo, n) < |groups| && GroupOf(geo, m) < |groups|
    ensures InodeBlock(geo, groups, n) != InodeBlock(geo, groups, m)
      || InodeOffset(geo, n) + INODE_SIZE <= InodeOffset(geo, m)
      || InodeOffset(geo, m) + INODE_SIZE <= InodeOffset(geo, n)
  {
    if GroupOf(geo, n) == GroupOf(geo, m) {
      DivMod(n - 1, geo.inodesPerGroup);
      DivMod(m - 1, geo.inodesPerGroup);
      InodeSlots(geo.blockSize, IndexOf(geo, n), IndexOf(geo, m));
    }
  }

  /** `size` bytes of block `b` from `offset` on. */
  function Slice(disk: Disk, b: nat, offset: nat, size: nat): seq<byte>
    requires b < |disk| && offset + size <= |disk[b]|
  {
    disk[b][offset..offset + size]
  }

  function Splice(block: Block, offset: nat, data: seq<byte>): (r: Block)
    requires offset + |data| <= |block|
    ensures |r| == |block|
  {
    block[..offset] + data + block[offset + |data|..]
  }

  lemma SpliceSlice(disk: Disk, b: nat, offset: nat, data: seq<byte>, c: nat, at: nat)
    requires b < |disk| && offset + |data| <= |disk[b]| && c < |disk| && at + |data| <= |disk[c]|
    ensures var disk' := disk[b := Splice(disk[b], offset, data)];
      && (c == b && at == offset ==> Slice(disk', c, at, |data|) == data)
      && (c != b || at + |data| <= offset || offset + |data| <= at ==>
          Slice(disk', c, at, |data|) == Slice(disk, c, at, |data|))
  {
  }

  /** The inode stored on disk under number `num`. */
  function InodeAt(geo: Geometry, groups: seq<GroupDesc>, disk: Disk, num: nat): Inode
    requires geo.Valid() && InodeNumber(geo, groups, disk, num)
    requires |disk[InodeBlock(geo, groups, num)]| == geo.blockSize
  {
    Slice(disk, InodeBlock(geo, groups, num), InodeOffset(geo, num), INODE_SIZE)
  }

  ghost predicate BlocksSized(disk: Disk, blockSize: nat) {
    forall b | 0 <= b < |disk| :: |disk[b]| == blockSize
  }

  /** Storing an inode leaves every other inode alone. */
  lemma StoreInode(geo: Geometry, groups: seq<GroupDesc>, disk: Disk, num: nat, inode: Inode, m: nat)
    requires geo.Valid() && TablesApart(geo, groups) && BlocksSized(disk, geo.blockSize)
    requires InodeNumber(geo, groups, disk, num) && InodeNumber(geo, groups, disk, m)
    ensures var b := InodeBlock(geo, groups, num);
      var disk' := disk[b := Splice(disk[b], InodeOffset(geo, num), inode)];
      InodeAt(geo, groups, disk', m) == if m == num then inode else InodeAt(geo, groups, disk, m)
  {
    if m != num {
      InodePlaces(geo, groups, num, m);
    }
    SpliceSlice(disk, InodeBlock(geo, groups, num), InodeOffset(geo, num), inode,
                InodeBlock(geo, groups, m), InodeOffset(geo, m));
  }

  /** Which file positions logical block `n` of a write of `size` bytes at `offset` covers. */
  lemma ChunkBounds(n: nat, blockSize: nat, offset: nat, size: nat, first: nat, last: nat)
    requires blockSize > 0 && offset + size > 0
    requires first == offset / blockSize && last == (offset + size - 1) / blockSize && first <= n <= last
    ensures first * blockSize + offset % blockSize == offset && offset % blockSize < blockSize
    ensures n > first ==> offset <= n * blockSize
    ensures n * blockSize < offset + size
    ensures n < last ==> n * blockSize + blockSize < offset + size
    ensures n == last ==> offset + size <= n * blockSize + blockSize
    ensures n == last && (offset + size) % blockSize == 0 ==> offset + size == n * blockSize + blockSize
  {
    var end := offset + size - 1;
    DivMod(offset, blockSize);
    DivBound(offset, blockSize, n);
    DivBound(end, blockSize, n);
    DivBound(end, blockSize, n + 1);
    assert (n + 1) * blockSize == n * blockSize + blockSize;
    if n == last && (offset + size) % blockSize == 0 {
      DivMod(end, blockSize);
      DivMod(offset + size, blockSize);
      if end % blockSize + 1 < blockSize {
        DivUnique(offset + size, blockSize, last, end % blockSize + 1);
      }
    }
  }

  /** ext2_get_inode. */
  method GetInode(vol: Volume, num: nat) returns (ok: bool, inode: Inode)
    requires vol.Valid() && (num > 0 ==> GroupOf(vol.geo, num) < |vol.groups|)
    ensures ok <==> InodeNumber(vol.geo, vol.groups, vol.disk, num)
    ensures ok ==> inode == InodeAt(vol.geo, vol.groups, vol.disk, num)
  {
    inode := seq(INODE_SIZE, i => 0);
    if num == 0 {
      return false, inode;
    }
    var buffer;
    ok, buffer := vol.ReadBlock(InodeBlock(vol.geo, vol.groups, num));
    if ok {
      var offset := InodeOffset(vol.geo, num);
      inode := buffer[offset..offset + INODE_SIZE];
    }
  }

  /** ext2_write_inode. */
  method WriteInode(vol: Volume, num: nat, inode: Inode) returns (ok: bool)
    requires vol.Valid() && (num > 0 ==> GroupOf(vol.geo, num) < |vol.groups|)
    modifies vol`disk
    ensures vol.Valid()
    ensures ok <==> InodeNumber(vol.geo, vol.groups, old(vol.disk), num)
    ensures !ok ==> vol.disk == old(vol.disk)
    ensures ok ==> var b := InodeBlock(vol.geo, vol.groups, num);
      vol.disk == old(vol.disk)[b := Splice(old(vol.disk)[b], InodeOffset(vol.geo, num), inode)]
  {
    if num == 0 {
      return false;
    }
    var b := InodeBlock(vol.geo, vol.groups, num);
    var buffer;
    ok, buffer := vol.ReadBlock(b);
    if ok {
      ok := vol.WriteBlock(b, Splice(buffer, InodeOffset(vol.geo, num), inode));
    }
  }

  /** How many bytes the write loop has consumed before logical block `n`. */
  function Consumed(n: nat, blockSize: nat, offset: nat, size: nat, first: nat): int {
    if n == first then 0
    else if n * blockSize - offset < size then n * blockSize - offset
    else size
  }

  /** What the write loop writes of the buffer: all of it, or, when the end of the write wraps into the block where it
      starts, what goes into the rest of that block. */
  ghost predicate WrittenPart(part: seq<byte>, buffer: seq<byte>, blockSize: nat, offset: nat, first: nat, last: nat)
    requires blockSize > 0
  {
    && part <= buffer && offset + |part| > 0 && last == (offset + |part| - 1) / blockSize
    && (part == buffer || (last == first && |part| == blockSize - offset % blockSize))
  }

  /** One turn of the loop of ext2_write_file. */
  method WriteChunk(vol: Volume, inode: Inode, n: nat, buffer: seq<byte>, offset: nat, first: nat, last: nat,
                    before: Block, written: nat, ghost part: seq<byte>, ghost blocks: seq<nat>, ghost paths: set<nat>,
                    ghost disk0: Disk)
    returns (ok: bool, block: Block, written': nat)
    requires vol.Valid() && Allocated(vol.disk, vol.geo.Pointers(), inode, blocks, paths)
    requires first == offset / vol.geo.blockSize && WrittenPart(part, buffer, vol.geo.blockSize, offset, first, last)
    requires first <= n <= last < |blocks| && |before| == vol.geo.blockSize
    requires written == Consumed(n, vol.geo.blockSize, offset, |part|, first)
    requires BlocksSized(disk0, vol.geo.blockSize)
    requires Written(disk0, vol.disk, vol.geo.blockSize, blocks, offset, part, first, n)
    modifies vol`disk
    ensures vol.Valid() && Allocated(vol.disk, vol.geo.Pointers(), inode, blocks, paths)
    ensures ok && |block| == vol.geo.blockSize
    ensures written' == Consumed(n + 1, vol.geo.blockSize, offset, |part|, first)
    ensures Written(disk0, vol.disk, vol.geo.blockSize, blocks, offset, part, first, n + 1)
  {
    var blockSize := vol.geo.blockSize;
    ChunkBounds(n, blockSize, offset, |part|, first, last);
    ok, block := true, before;
    if n == first || (n == last && (offset + |buffer|) % blockSize != 0) {
      ok, block := ReadAllocated(vol, inode, n, blocks, paths);
    }
    var at := if n == first then offset % blockSize else 0;
    var count := blockSize - at;
    if count > |buffer| - written {
      count := |buffer| - written;
    }
    assert buffer[written..written + count] == part[written..written + count];
    ChunkIsOverlay(disk0[blocks[n]], block, n * blockSize, offset, part, at, written, count);
    block := block[..at] + buffer[written..written + count] + block[at + count..];
    WriteNext(disk0, vol.disk, blockSize, blocks, offset, part, first, n, block);
    ok := WriteAllocated(vol, inode, n, block, blocks, paths);
    written' := written + count;
    assert (n + 1) * blockSize == n * blockSize + blockSize;
  }

  ghost predicate OutsideTables(geo: Geometry, groups: seq<GroupDesc>, blocks: seq<nat>, paths: set<nat>)
    requires geo.Valid()
  {
    forall m: nat {:trigger InodeBlock(geo, groups, m)} | m > 0 && GroupOf(geo, m) < |groups| ::
      InodeBlock(geo, groups, m) !in blocks && InodeBlock(geo, groups, m) !in paths
  }

  /** What ext2_read_file and ext2_write_file ask of file `num`: its inode lies on the device, its first |blocks|
      logical blocks are allocated, and neither they nor their pointer blocks are blocks of an inode table. */
  ghost predicate Ready(geo: Geometry, groups: seq<GroupDesc>, disk: Disk, num: nat, blocks: seq<nat>, paths: set<nat>)
    requires geo.Valid()
  {
    && BlocksSized(disk, geo.blockSize)
    && TablesApart(geo, groups)
    && InodeNumber(geo, groups, disk, num)
    && Allocated(disk, geo.Pointers(), InodeAt(geo, groups, disk, num), blocks, paths)
    && OutsideTables(geo, groups, blocks, paths)
  }

  /** All inodes but `except` are the same on both disks. */
  ghost predicate SameInodes(geo: Geometry, groups: seq<GroupDesc>, disk0: Disk, disk: Disk, except: nat)
    requires geo.Valid() && BlocksSized(disk0, geo.blockSize) && BlocksSized(disk, geo.blockSize)
  {
    && |disk| == |disk0|
    && forall m: nat | m != except && InodeNumber(geo, groups, disk0, m) ::
         InodeAt(geo, groups, disk, m) == InodeAt(geo, groups, disk0, m)
  }

  /** Changing only data blocks of a file touches no inode. */
  lemma DataKeepsInodes(geo: Geometry, groups: seq<GroupDesc>, disk0: Disk, disk: Disk,
                        num: nat, blocks: seq<nat>, paths: set<nat>)
    requires geo.Valid() && Ready(geo, groups, disk0, num, blocks, paths) && BlocksSized(disk, geo.blockSize)
    requires |disk| == |disk0| && forall b: nat | b < |disk| && b !in blocks :: disk[b] == disk0[b]
    ensures SameInodes(geo, groups, disk0, disk, 0)
    ensures InodeAt(geo, groups, disk, num) == InodeAt(geo, groups, disk0, num)
    ensures Ready(geo, groups, disk, num, blocks, paths)
  {
    forall m: nat | InodeNumber(geo, groups, disk0, m)
      ensures InodeAt(geo, groups, disk, m) == InodeAt(geo, groups, disk0, m)
    {
      assert disk[InodeBlock(geo, groups, m)] == disk0[InodeBlock(geo, groups, m)];
    }
    StaysAllocated(disk0, disk, geo.Pointers(), InodeAt(geo, groups, disk0, num), InodeAt(geo, groups, disk0, num),
                   blocks, paths);
  }

  /** Writing an inode back with a new size touches no file data and no other inode. */
  lemma InodeKeepsData(geo: Geometry, groups: seq<GroupDesc>, disk: Disk, inode: Inode,
                       num: nat, blocks: seq<nat>, paths: set<nat>)
    requires geo.Valid() && Ready(geo, groups, disk, num, blocks, paths)
    requires forall i: nat | i < 15 :: IBlock(inode, i) == IBlock(InodeAt(geo, groups, disk, num), i)
    ensures var b := InodeBlock(geo, groups, num);
      var disk' := disk[b := Splice(disk[b], InodeOffset(geo, num), inode)];
      && Ready(geo, groups, disk', num, blocks, paths)
      && InodeAt(geo, groups, disk', num) == inode
      && SameInodes(geo, groups, disk, disk', num)
      && forall k | 0 <= k < |blocks| :: disk'[blocks[k]] == disk[blocks[k]]
  {
    var b := InodeBlock(geo, groups, num);
    var disk' := disk[b := Splice(disk[b], InodeOffset(geo, num), inode)];
    forall m: nat | InodeNumber(geo, groups, disk, m)
      ensures InodeAt(geo, groups, disk', m) == if m == num then inode else InodeAt(geo, groups, disk, m)
    {
      StoreInode(geo, groups, disk, num, inode, m);
    }
    StaysAllocated(disk, disk', geo.Pointers(), InodeAt(geo, groups, disk, num), inode, blocks, paths);
  }

  /** The write loop of ext2_write_file. */
  method WriteData(vol: Volume, inode: Inode, buffer: seq<byte>, offset: nat, first: nat, last: nat,
                   ghost part: seq<byte>, ghost blocks: seq<nat>, ghost paths: set<nat>)
    returns (ok: bool)
    requires vol.Valid() && Allocated(vol.disk, vol.geo.Pointers(), inode, blocks, paths)
    requires first == offset / vol.geo.blockSize
    requires if first <= last
             then last < |blocks| && WrittenPart(part, buffer, vol.geo.blockSize, offset, first, last)
             else part == []
    modifies vol`disk
    ensures ok && vol.Valid() && Allocated(vol.disk, vol.geo.Pointers(), inode, blocks, paths)
    ensures Written(old(vol.disk), vol.disk, vol.geo.blockSize, blocks, offset, part, 0, |blocks|)
  {
    ghost var disk0 := vol.disk;
    var block: Block := seq(vol.geo.blockSize, i => 0);
    var written := 0;
    var n := first;
    ok := true;
    while ok && n <= last
      invariant first <= n && (n <= last + 1 || n == first) && ok && |block| == vol.geo.blockSize
      invariant vol.Valid() && Allocated(vol.disk, vol.geo.Pointers(), inode, blocks, paths)
      invariant written == Consumed(n, vol.geo.blockSize, offset, |part|, first)
      invariant Written(disk0, vol.disk, vol.geo.blockSize, blocks, offset, part, first, n)
    {
      ok, block, written :=
        WriteChunk(vol, inode, n, buffer, offset, first, last, block, written, part, blocks, paths, disk0);
      n := n + 1;
    }
    if first <= last {
      RangeIsAll(disk0, vol.disk, vol.geo.blockSize, blocks, offset, part, first, last + 1);
    } else {
      NothingWritten(disk0, vol.geo.blockSize, blocks, offset);
    }
  }

  lemma NothingWritten(disk: Disk, blockSize: nat, blocks: seq<nat>, offset: nat)
    requires blockSize > 0 && BlocksSized(disk, blockSize) && forall k | 0 <= k < |blocks| :: blocks[k] < |disk|
    ensures Written(disk, disk, blockSize, blocks, offset, [], 0, |blocks|)
  {
    forall k: nat | k < |blocks| ensures disk[blocks[k]] == Overlay(disk[blocks[k]], k * blockSize, offset, []) {
    }
  }

  /** The inode ext2_write_file leaves: i_size becomes the larger of itself and the end of the write. */
  function Extended(inode: Inode, end: nat): Inode
    requires end < U32_SPAN
  {
    if end > ISize(inode) then SetISize(inode, end) else inode
  }

  /** The end of ext2_write_file: update the inode size if necessary. */
  method UpdateSize(vol: Volume, num: nat, inode: Inode, end: nat, ghost blocks: seq<nat>, ghost paths: set<nat>)
    returns (ok: bool)
    requires vol.Valid() && Ready(vol.geo, vol.groups, vol.disk, num, blocks, paths) && end < U32_SPAN
    requires inode == InodeAt(vol.geo, vol.groups, vol.disk, num)
    modifies vol`disk
    ensures ok && vol.Valid() && Ready(vol.geo, vol.groups, vol.disk, num, blocks, paths)
    ensures InodeAt(vol.geo, vol.groups, vol.disk, num) == Extended(inode, end)
    ensures SameInodes(vol.geo, vol.groups, old(vol.disk), vol.disk, num)
    ensures forall k | 0 <= k < |blocks| :: vol.disk[blocks[k]] == old(vol.disk)[blocks[k]]
    ensures forall b: nat | b < |vol.disk| && b != InodeBlock(vol.geo, vol.groups, num) ::
      vol.disk[b] == old(vol.disk)[b]
  {
    ok := true;
    if end > ISize(inode) {
      var inode' := SetISize(inode, end);
      SetISizeMeaning(inode, end);
      InodeKeepsData(vol.geo, vol.groups, vol.disk, inode', num, blocks, paths);
      ok := WriteInode(vol, num, inode');
    }
  }

  /** What ext2_write_file does to the device: the old contents are overlaid with the buffer, i_size grows to the
      end of the write, and every other inode and every block outside the file is as before. */
  ghost predicate FileWritten(geo: Geometry, groups: seq<GroupDesc>, disk0: Disk, disk: Disk, num: nat,
                              offset: nat, buffer: seq<byte>, end: nat, blocks: seq<nat>)
    requires geo.Valid() && end < U32_SPAN
    requires BlocksSized(disk0, geo.blockSize) && BlocksSized(disk, geo.blockSize)
    requires InodeNumber(geo, groups, disk0, num)
  {
    && Overlaid(disk0, disk, geo.blockSize, blocks, offset, buffer, 0, |blocks|)
    && InodeAt(geo, groups, disk, num) == Extended(InodeAt(geo, groups, disk0, num), end)
    && SameInodes(geo, groups, disk0, disk, num)
    && (forall b: nat | b < |disk| && b !in blocks && b != InodeBlock(geo, groups, num) :: disk[b] == disk0[b])
  }

  lemma TwoParts(geo: Geometry, groups: seq<GroupDesc>, disk0: Disk, disk1: Disk, disk2: Disk, num: nat,
                 offset: nat, buffer: seq<byte>, end: nat, blocks: seq<nat>)
    requires geo.Valid() && end < U32_SPAN
    requires BlocksSized(disk0, geo.blockSize) && BlocksSized(disk1, geo.blockSize) && BlocksSized(disk2, geo.blockSize)
    requires InodeNumber(geo, groups, disk0, num)
    requires Written(disk0, disk1, geo.blockSize, blocks, offset, buffer, 0, |blocks|)
    requires SameInodes(geo, groups, disk0, disk1, 0) && SameInodes(geo, groups, disk1, disk2, num)
    requires InodeAt(geo, groups, disk2, num) == Extended(InodeAt(geo, groups, disk0, num), end)
    requires forall k | 0 <= k < |blocks| :: disk2[blocks[k]] == disk1[blocks[k]]
    requires forall b: nat | b < |disk2| && b != InodeBlock(geo, groups, num) :: disk2[b] == disk1[b]
    ensures FileWritten(geo, groups, disk0, disk2, num, offset, buffer, end, blocks)
  {
    forall m: nat | m != num && InodeNumber(geo, groups, disk0, m)
      ensures InodeAt(geo, groups, disk2, m) == InodeAt(geo, groups, disk0, m)
    {
      assert InodeAt(geo, groups, disk1, m) == InodeAt(geo, groups, disk0, m);
    }
  }

  /** The byte at position `p` of the file is `v`. */
  ghost predicate ByteIs(disk: Disk, blockSize: nat, blocks: seq<nat>, p: nat, v: byte)
    requires blockSize > 0 && BlocksSized(disk, blockSize)
  {
    p / blockSize < |blocks| && blocks[p / blockSize] < |disk| && ByteAt(disk, blockSize, blocks, p) == v
  }

  /** `data` is what the file holds from position `offset` on. */
  ghost predicate Reads(disk: Disk, blockSize: nat, blocks: seq<nat>, offset: nat, data: seq<byte>)
    requires blockSize > 0 && BlocksSized(disk, blockSize)
  {
    forall i | 0 <= i < |data| :: ByteIs(disk, blockSize, blocks, offset + i, data[i])
  }

  /** The chunk the read loop copies out of one block continues the file. */
  lemma ChunkReads(disk: Disk, blockSize: nat, blocks: seq<nat>, offset: nat, data: seq<byte>, n: nat, at: nat,
                   count: nat)
    requires blockSize > 0 && BlocksSized(disk, blockSize) && n < |blocks| && blocks[n] < |disk|
    requires n * blockSize + at == offset + |data| && at + count <= blockSize
    requires Reads(disk, blockSize, blocks, offset, data)
    ensures Reads(disk, blockSize, blocks, offset, data + disk[blocks[n]][at..at + count])
  {
    var data' := data + disk[blocks[n]][at..at + count];
    forall i | 0 <= i < |data'| ensures ByteIs(disk, blockSize, blocks, offset + i, data'[i]) {
      if i >= |data| {
        DivUnique(offset + i, blockSize, n, at + i - |data|);
      } else {
        assert data'[i] == data[i];
      }
    }
  }

  /** The number of bytes the read loop has copied grows by one chunk. */
  lemma ConsumedNext(n: nat, blockSize: nat, offset: nat, size: nat, first: nat, at: nat)
    requires blockSize > 0 && size > 0 && first == offset / blockSize && first <= n
    requires at == if n == first then offset % blockSize else 0
    ensures 0 <= Consumed(n, blockSize, offset, size, first) <= size && at < blockSize
    ensures Consumed(n, blockSize, offset, size, first) < size ==>
      n * blockSize + at == offset + Consumed(n, blockSize, offset, size, first)
    ensures Consumed(n + 1, blockSize, offset, size, first)
      == Consumed(n, blockSize, offset, size, first)
         + Least(blockSize - at, size - Consumed(n, blockSize, offset, size, first))
  {
    DivMod(offset, blockSize);
    assert (n + 1) * blockSize == n * blockSize + blockSize;
    if n > first {
      DivBound(offset, blockSize, n);
    }
  }

  /** One turn of the loop of ext2_read_file. */
  method ReadChunk(vol: Volume, inode: Inode, n: nat, offset: nat, size: nat, first: nat, data: seq<byte>,
                   ghost blocks: seq<nat>, ghost paths: set<nat>)
    returns (ok: bool, data': seq<byte>)
    requires vol.Valid() && Allocated(vol.disk, vol.geo.Pointers(), inode, blocks, paths)
    requires size > 0 && first == offset / vol.geo.blockSize && first <= n && Addressable(vol.geo.Pointers(), n)
    requires |data| == Consumed(n, vol.geo.blockSize, offset, size, first)
    ensures n < |blocks| ==> ok
    ensures ok ==> |data'| == Consumed(n + 1, vol.geo.blockSize, offset, size, first)
    ensures n < |blocks| && Reads(vol.disk, vol.geo.blockSize, blocks, offset, data) ==>
      Reads(vol.disk, vol.geo.blockSize, blocks, offset, data')
  {
    var blockSize := vol.geo.blockSize;
    var at := if n == first then offset % blockSize else 0;
    ConsumedNext(n, blockSize, offset, size, first, at);
    var block;
    ok, block := ReadInodeBlock(vol, inode, n);
    if !ok {
      return false, data;
    }
    var count := blockSize - at;
    if count > size - |data| {
      count := size - |data|;
    }
    data' := data + block[at..at + count];
    if n < |blocks| && Reads(vol.disk, blockSize, blocks, offset, data) {
      assert DataBlock(vol.disk, vol.geo.Pointers(), inode, n) == Some(blocks[n]);
      if count > 0 {
        ChunkReads(vol.disk, blockSize, blocks, offset, data, n, at, count);
      } else {
        assert data' == data;
      }
    }
  }

  lemma BlockAddressable(geo: Geometry, n: nat, last: nat)
    requires geo.Valid() && n <= last == (U32_SPAN - 1) / geo.blockSize
    ensures Addressable(geo.Pointers(), n)
  {
    DivMod(U32_SPAN - 1, geo.blockSize);
    ProductBelow(last, n, geo.blockSize);
    DivUnique(n * geo.blockSize, geo.blockSize, n, 0);
    OffsetAddressable(geo.blockSize, n * geo.blockSize, n);
  }

  /** The read loop of ext2_read_file, for any two block numbers the code may compute. */
  method ReadData(vol: Volume, inode: Inode, offset: nat, size: nat, first: nat, last: nat,
                  ghost blocks: seq<nat>, ghost paths: set<nat>)
    returns (ok: bool, data: seq<byte>)
    requires vol.Valid() && Allocated(vol.disk, vol.geo.Pointers(), inode, blocks, paths)
    requires size > 0 && first == offset / vol.geo.blockSize && last <= (U32_SPAN - 1) / vol.geo.blockSize
    ensures last < first ==> ok && data == []
    ensures first <= last < |blocks| ==> ok
    ensures first <= last && ok ==> |data| == Consumed(last + 1, vol.geo.blockSize, offset, size, first)
    ensures last < |blocks| ==> Reads(vol.disk, vol.geo.blockSize, blocks, offset, data)
  {
    var n := first;
    ok, data := true, [];
    while ok && n <= last
      invariant first <= n && (n <= last + 1 || n == first) && (n == first ==> ok && data == [])
      invariant ok ==> |data| == Consumed(n, vol.geo.blockSize, offset, size, first)
      invariant last < |blocks| ==> ok && Reads(vol.disk, vol.geo.blockSize, blocks, offset, data)
      decreases last + 1 - n
    {
      BlockAddressable(vol.geo, n, (U32_SPAN - 1) / vol.geo.blockSize);
      ok, data := ReadChunk(vol, inode, n, offset, size, first, data, blocks, paths);
      n := n + 1;
    }
    if first <= last && ok {
      assert n == last + 1;
    }
  }

  lemma ConsumedAll(blockSize: nat, offset: nat, size: nat, first: nat, last: nat)
    requires blockSize > 0 && size > 0 && first == offset / blockSize && last == (offset + size - 1) / blockSize
    ensures first <= last && Consumed(last + 1, blockSize, offset, size, first) == size
  {
    Monotone(offset, offset + size - 1, blockSize);
    ChunkBounds(last, blockSize, offset, size, first, last);
    assert (last + 1) * blockSize == last * blockSize + blockSize;
  }

  function Least(a: int, b: int): int {
    if a < b then a else b
  }

  /** What ext2_read_file copies when offset + size exceeds 2^32: the rest of the first block if the wrapped end lies in
      it as well, and otherwise nothing. */
  function WrappedCopy(blockSize: nat, offset: nat, size: nat): int
    requires blockSize > 0 && offset < U32_SPAN && size < U32_SPAN && offset + size > U32_SPAN
  {
    if (offset + size - 1 - U32_SPAN) / blockSize == offset / blockSize then blockSize - offset % blockSize else 0
  }

  lemma WrappedEnd(blockSize: nat, offset: nat, size: nat, first: nat, last: nat)
    requires 0 < blockSize < 0x4_0000 && offset < U32_SPAN && size < U32_SPAN && offset + size > U32_SPAN
    requires first == offset / blockSize && last == (offset + size - 1 - U32_SPAN) / blockSize
    ensures last <= first
    ensures last == first ==> Consumed(last + 1, blockSize, offset, size, first) == WrappedCopy(blockSize, offset, size)
  {
    Monotone(offset + size - 1 - U32_SPAN, offset, blockSize);
    DivMod(offset, blockSize);
    DivMod(offset + size - 1 - U32_SPAN, blockSize);
    assert (first + 1) * blockSize == first * blockSize + blockSize;
  }

  /** The size after the clipping of ext2_read_file, and the last block it reads, in 32 bits. */
  function Clipped(offset: nat, size: nat, fileSize: nat): nat
    requires offset < fileSize
  {
    if (offset + size) % U32_SPAN > fileSize then fileSize - offset else size
  }

  /** The cases of ext2_read_file for a read that starts inside the file. */
  ghost predicate ReadOutcome(blockSize: nat, offset: nat, size: nat, fileSize: nat, ok: bool, n: nat)
    requires blockSize > 0 && offset < fileSize < U32_SPAN && 0 < size < U32_SPAN
  {
    if offset + size < U32_SPAN then ok && n == Least(size, fileSize - offset)
    else if offset + size == U32_SPAN then ok ==> n == size
    else ok && n == WrappedCopy(blockSize, offset, size)
  }

  /** ext2_read_file, for all 32-bit offsets and sizes, on a file allocated up to its end or that of the read. It fails
      for an empty read and for one that starts behind the end. */
  method ReadFile(vol: Volume, num: nat, offset: nat, size: nat, ghost blocks: seq<nat>, ghost paths: set<nat>)
    returns (ok: bool, data: seq<byte>)
    requires vol.Valid() && Ready(vol.geo, vol.groups, vol.disk, num, blocks, paths)
    requires offset < U32_SPAN && size < U32_SPAN
    requires var end: int := Least(offset + size, ISize(InodeAt(vol.geo, vol.groups, vol.disk, num)));
      offset < end ==> (end - 1) / vol.geo.blockSize < |blocks|
    ensures ok ==> size > 0 && offset < ISize(InodeAt(vol.geo, vol.groups, vol.disk, num))
    ensures size > 0 && offset < ISize(InodeAt(vol.geo, vol.groups, vol.disk, num)) ==>
      ReadOutcome(vol.geo.blockSize, offset, size, ISize(InodeAt(vol.geo, vol.groups, vol.disk, num)), ok, |data|)
    ensures ok && offset + size != U32_SPAN ==> Reads(vol.disk, vol.geo.blockSize, blocks, offset, data)
  {
    var inode;
    ok, inode := GetInode(vol, num);
    data := [];
    if offset >= ISize(inode) || size == 0 {
      return false, [];
    }
    ok, data := ReadClipped(vol, inode, offset, size, blocks, paths);
  }

  /** ext2_read_file after its checks. */
  method ReadClipped(vol: Volume, inode: Inode, offset: nat, size: nat, ghost blocks: seq<nat>, ghost paths: set<nat>)
    returns (ok: bool, data: seq<byte>)
    requires vol.Valid() && Allocated(vol.disk, vol.geo.Pointers(), inode, blocks, paths)
    requires offset < ISize(inode) && 0 < size < U32_SPAN
    requires (Least(offset + size, ISize(inode)) - 1) / vol.geo.blockSize < |blocks|
    ensures ReadOutcome(vol.geo.blockSize, offset, size, ISize(inode), ok, |data|)
    ensures ok && offset + size != U32_SPAN ==> Reads(vol.disk, vol.geo.blockSize, blocks, offset, data)
  {
    var count := Clipped(offset, size, ISize(inode));
    var first := FirstBlock(vol.geo.blockSize, offset);
    var last := LastBlock(vol.geo.blockSize, offset + count);
    LastInRange(vol.geo.blockSize, offset + count, last);
    if offset + size <= U32_SPAN {
      PlainBounds(vol.geo.blockSize, offset, size, ISize(inode), count, first, last);
    } else {
      WrappedBounds(vol.geo.blockSize, offset, size, ISize(inode), first, last);
    }
    ok, data := ReadData(vol, inode, offset, count, first, last, blocks, paths);
  }

  function FirstBlock(blockSize: nat, offset: nat): (first: nat)
    requires blockSize > 0
  {
    Monotone(0, offset, blockSize);
    offset / blockSize
  }

  /** (offset + size - 1) / block_size in 32 bits. */
  function LastBlock(blockSize: nat, end: nat): (last: nat)
    requires blockSize > 0 && end > 0
  {
    Monotone(0, (end - 1) % U32_SPAN, blockSize);
    (end - 1) % U32_SPAN / blockSize
  }

  /** No wrap-around: the last block is that of the end of the clipped read. */
  lemma PlainBounds(blockSize: nat, offset: nat, size: nat, fileSize: nat, count: nat, first: nat, last: nat)
    requires blockSize > 0 && offset < fileSize < U32_SPAN && 0 < size < U32_SPAN && offset + size <= U32_SPAN
    requires count == Clipped(offset, size, fileSize) && first == offset / blockSize
    requires last == LastBlock(blockSize, offset + count)
    ensures 0 < count && offset + count <= U32_SPAN && last == (offset + count - 1) / blockSize
    ensures count == if offset + size == U32_SPAN then size else Least(size, fileSize - offset)
    ensures first <= last && Consumed(last + 1, blockSize, offset, count, first) == count
  {
    ConsumedAll(blockSize, offset, count, first, last);
  }

  lemma WrappedBounds(blockSize: nat, offset: nat, size: nat, fileSize: nat, first: nat, last: nat)
    requires 0 < blockSize < 0x4_0000 && offset < fileSize < U32_SPAN && size < U32_SPAN && offset + size > U32_SPAN
    requires first == offset / blockSize
    requires last == LastBlock(blockSize, offset + Clipped(offset, size, fileSize))
    ensures Clipped(offset, size, fileSize) == size && last <= first <= (fileSize - 1) / blockSize
    ensures last == first ==>
      Consumed(last + 1, blockSize, offset, size, first) == WrappedCopy(blockSize, offset, size)
    ensures last < first ==> WrappedCopy(blockSize, offset, size) == 0
  {
    WrapIsNotClipped(offset, size, fileSize);
    WrappedEnd(blockSize, offset, size, first, last);
    Monotone(offset, fileSize - 1, blockSize);
  }

  lemma WrapIsNotClipped(offset: nat, size: nat, fileSize: nat)
    requires offset < fileSize < U32_SPAN && size < U32_SPAN && offset + size > U32_SPAN
    ensures Clipped(offset, size, fileSize) == size && (offset + size - 1) % U32_SPAN == offset + size - 1 - U32_SPAN
  {
    DivUnique(offset + size, U32_SPAN, 1, offset + size - U32_SPAN);
    DivUnique(offset + size - 1, U32_SPAN, 1, offset + size - 1 - U32_SPAN);
  }

  lemma LastInRange(blockSize: nat, end: nat, last: nat)
    requires blockSize > 0 && end > 0 && last == LastBlock(blockSize, end)
    ensures last <= (U32_SPAN - 1) / blockSize
  {
    Monotone((end - 1) % U32_SPAN, U32_SPAN - 1, blockSize);
  }

  /** A read that starts inside the file is complete exactly if offset + size fits in 32 bits, or if it wraps into the
      block where it starts and the file ends with that block. */
  lemma ReadCompletes(blockSize: nat, offset: nat, size: nat, fileSize: nat, ok: bool, n: nat)
    requires blockSize > 0 && offset < fileSize < U32_SPAN && 0 < size < U32_SPAN
    requires ReadOutcome(blockSize, offset, size, fileSize, ok, n)
    ensures (ok && n == Least(size, fileSize - offset))
      <==> offset + size < U32_SPAN
           || (offset + size > U32_SPAN && (offset + size - 1 - U32_SPAN) / blockSize == offset / blockSize
               && fileSize - offset == blockSize - offset % blockSize)
  {
    DivMod(offset, blockSize);
  }

  /** A read of 2^32 - 1 bytes from byte 100 of a file of 5000 bytes in blocks of 1024 succeeds after 924 bytes. */
  method ReadStopsShort(vol: Volume, num: nat, ghost blocks: seq<nat>, ghost paths: set<nat>)
    returns (ok: bool, data: seq<byte>)
    requires vol.Valid() && Ready(vol.geo, vol.groups, vol.disk, num, blocks, paths) && vol.geo.blockSize == 1024
    requires ISize(InodeAt(vol.geo, vol.groups, vol.disk, num)) == 5000 && |blocks| == 5
    ensures ok && |data| == 924
  {
    ok, data := ReadFile(vol, num, 100, 0xFFFF_FFFF, blocks, paths);
  }

  /** How much of the buffer ext2_write_file writes. */
  function WriteCount(blockSize: nat, offset: nat, size: nat): (n: nat)
    requires 0 < blockSize < 0x4_0000 && offset < U32_SPAN && size < U32_SPAN && offset + size != U32_SPAN
    ensures n <= size
  {
    if offset + size < U32_SPAN then size
    else
      WrappedFits(blockSize, offset, size);
      WrappedCopy(blockSize, offset, size)
  }

  /** The rest of a block that a write starts in and wraps into is shorter than the write. */
  lemma WrappedFits(blockSize: nat, offset: nat, size: nat)
    requires 0 < blockSize < 0x4_0000 && offset < U32_SPAN && size < U32_SPAN && offset + size > U32_SPAN
    ensures 0 <= WrappedCopy(blockSize, offset, size) < size
  {
    DivMod(offset, blockSize);
    DivMod(offset + size - 1 - U32_SPAN, blockSize);
  }

  /** A write is complete exactly if offset + size fits in 32 bits. */
  lemma WriteCompletes(blockSize: nat, offset: nat, size: nat)
    requires 0 < blockSize < 0x4_0000 && offset < U32_SPAN && size < U32_SPAN && offset + size != U32_SPAN
    ensures WriteCount(blockSize, offset, size) == size <==> offset + size < U32_SPAN
  {
    if offset + size > U32_SPAN {
      WrappedFits(blockSize, offset, size);
    }
  }

  lemma PlainPart(blockSize: nat, offset: nat, buffer: seq<byte>, first: nat, last: nat)
    requires blockSize > 0 && 0 < offset + |buffer| < U32_SPAN
    requires first == offset / blockSize && last == LastBlock(blockSize, offset + |buffer|)
    ensures WrittenPart(buffer, buffer, blockSize, offset, first, last) && (last < first ==> buffer == [])
  {
    if buffer != [] {
      Monotone(offset, offset + |buffer| - 1, blockSize);
    }
  }

  lemma WrappedPart(blockSize: nat, offset: nat, buffer: seq<byte>, part: seq<byte>, first: nat, last: nat)
    requires 0 < blockSize < 0x4_0000 && offset < U32_SPAN && |buffer| < U32_SPAN && offset + |buffer| > U32_SPAN
    requires first == offset / blockSize && last == LastBlock(blockSize, offset + |buffer|)
    requires part == buffer[..WriteCount(blockSize, offset, |buffer|)]
    ensures first <= last ==> WrittenPart(part, buffer, blockSize, offset, first, last)
    ensures last < first ==> part == []
  {
    WrappedEnd(blockSize, offset, |buffer|, first, last);
    DivMod(offset, blockSize);
    if first <= last {
      DivUnique(offset + |part| - 1, blockSize, first, blockSize - 1);
    }
  }

  /** ext2_write_file, for all 32-bit offsets and sizes whose sum is not 0 or 2^32, on a file whose blocks from the
      first to the last are allocated. */
  method WriteFile(vol: Volume, num: nat, buffer: seq<byte>, offset: nat, ghost blocks: seq<nat>, ghost paths: set<nat>)
    returns (ok: bool)
    requires vol.Valid() && Ready(vol.geo, vol.groups, vol.disk, num, blocks, paths)
    requires offset < U32_SPAN && |buffer| < U32_SPAN && (offset + |buffer|) % U32_SPAN != 0
    requires FirstBlock(vol.geo.blockSize, offset) <= LastBlock(vol.geo.blockSize, offset + |buffer|) ==>
      LastBlock(vol.geo.blockSize, offset + |buffer|) < |blocks|
    modifies vol`disk
    ensures ok && vol.Valid() && Ready(vol.geo, vol.groups, vol.disk, num, blocks, paths)
    ensures FileWritten(vol.geo, vol.groups, old(vol.disk), vol.disk, num, offset,
                        buffer[..WriteCount(vol.geo.blockSize, offset, |buffer|)],
                        (offset + |buffer|) % U32_SPAN, blocks)
  {
    var inode;
    ok, inode := GetInode(vol, num);
    var first := FirstBlock(vol.geo.blockSize, offset);
    var last := LastBlock(vol.geo.blockSize, offset + |buffer|);
    ghost var disk0, part := vol.disk, buffer[..WriteCount(vol.geo.blockSize, offset, |buffer|)];
    if offset + |buffer| < U32_SPAN {
      PlainPart(vol.geo.blockSize, offset, buffer, first, last);
    } else {
      WrappedPart(vol.geo.blockSize, offset, buffer, part, first, last);
    }
    ok := WriteData(vol, inode, buffer, offset, first, last, part, blocks, paths);
    ghost var disk1 := vol.disk;
    DataKeepsInodes(vol.geo, vol.groups, disk0, disk1, num, blocks, paths);
    var end := (offset + |buffer|) % U32_SPAN;
    ok := UpdateSize(vol, num, inode, end, blocks, paths);
    TwoParts(vol.geo, vol.groups, disk0, disk1, vol.disk, num, offset, part, end, blocks);
  }

  /** The first turns of the loop of ext2_write_file for an empty write at offset 0, where the last block is that of
      offset 2^32 - 1. Only the first turn reads a block, and every turn writes what the one before wrote: all blocks
      become copies of the first. */
  method EmptyWriteCopies(vol: Volume, inode: Inode, turns: nat, ghost blocks: seq<nat>, ghost paths: set<nat>)
    returns (ok: bool)
    requires vol.Valid() && Allocated(vol.disk, vol.geo.Pointers(), inode, blocks, paths)
    requires turns <= |blocks| && turns <= LastBlock(vol.geo.blockSize, U32_SPAN)
    modifies vol`disk
    ensures ok && vol.Valid() && Allocated(vol.disk, vol.geo.Pointers(), inode, blocks, paths)
    ensures |vol.disk| == |old(vol.disk)|
    ensures forall k | 0 <= k < turns :: vol.disk[blocks[k]] == old(vol.disk)[blocks[0]]
    ensures forall b: nat | b < |vol.disk| && b !in blocks[..turns] :: vol.disk[b] == old(vol.disk)[b]
  {
    var block: Block := seq(vol.geo.blockSize, i => 0);
    ghost var disk0 := vol.disk;
    var n := 0;
    ok := true;
    while ok && n < turns
      invariant n <= turns && ok && |block| == vol.geo.blockSize
      invariant vol.Valid() && |vol.disk| == |disk0| && Allocated(vol.disk, vol.geo.Pointers(), inode, blocks, paths)
      invariant n > 0 ==> block == disk0[blocks[0]]
      invariant forall k | 0 <= k < n :: vol.disk[blocks[k]] == disk0[blocks[0]]
      invariant forall b: nat | b < |vol.disk| && b !in blocks[..n] :: vol.disk[b] == disk0[b]
    {
      if n == 0 {
        ok, block := ReadAllocated(vol, inode, n, blocks, paths);
      }
      assert blocks[n] in blocks[..n + 1];
      ok := WriteAllocated(vol, inode, n, block, blocks, paths);
      n := n + 1;
    }
  }

  lemma ByteAfterWrite(disk0: Disk, disk: Disk, blockSize: nat, blocks: seq<nat>, offset: nat, buffer: seq<byte>,
                       p: nat, v: byte)
    requires blockSize > 0 && BlocksSized(disk0, blockSize) && BlocksSized(disk, blockSize)
    requires Overlaid(disk0, disk, blockSize, blocks, offset, buffer, 0, |blocks|)
    requires ByteIs(disk, blockSize, blocks, p, v)
    ensures if offset <= p < offset + |buffer| then v == buffer[p - offset] else ByteIs(disk0, blockSize, blocks, p, v)
  {
    OverlaidBytes(disk0, disk, blockSize, blocks, offset, buffer, p);
  }

  /** A file is one byte sequence: what ext2_read_file returns after ext2_write_file is the old contents overlaid
      with the written buffer, byte by byte. */
  lemma ReadAfterWrite(geo: Geometry, groups: seq<GroupDesc>, disk0: Disk, disk: Disk, num: nat, offset: nat,
                       buffer: seq<byte>, end: nat, blocks: seq<nat>, start: nat, data: seq<byte>, i: nat)
    requires geo.Valid() && end < U32_SPAN
    requires BlocksSized(disk0, geo.blockSize) && BlocksSized(disk, geo.blockSize)
    requires InodeNumber(geo, groups, disk0, num)
    requires FileWritten(geo, groups, disk0, disk, num, offset, buffer, end, blocks)
    requires Reads(disk, geo.blockSize, blocks, start, data) && i < |data|
    ensures if offset <= start + i < offset + |buffer| then data[i] == buffer[start + i - offset]
            else ByteIs(disk0, geo.blockSize, blocks, start + i, data[i])
  {
    assert ByteIs(disk, geo.blockSize, blocks, start + i, data[i]);
    ByteAfterWrite(disk0, disk, geo.blockSize, blocks, offset, buffer, start + i, data[i]);
  }

  lemma SameBlocksRead(disk0: Disk, disk: Disk, blockSize: nat, blocks: seq<nat>, start: nat, data: seq<byte>)
    requires blockSize > 0 && BlocksSized(disk0, blockSize) && BlocksSized(disk, blockSize) && |disk| == |disk0|
    requires forall b: nat | b in blocks && b < |disk| :: disk[b] == disk0[b]
    requires Reads(disk0, blockSize, blocks, start, data)
    ensures Reads(disk, blockSize, blocks, start, data)
  {
    forall i | 0 <= i < |data| ensures ByteIs(disk, blockSize, blocks, start + i, data[i]) {
      assert ByteIs(disk0, blockSize, blocks, start + i, data[i]);
      assert blocks[(start + i) / blockSize] in blocks;
    }
  }

  /** Writing one file leaves every other file that shares no block with it as it was. */
  lemma OtherFileKept(geo: Geometry, groups: seq<GroupDesc>, disk0: Disk, disk: Disk, num: nat, offset: nat,
                      buffer: seq<byte>, end: nat, blocks: seq<nat>, other: nat, blocks': seq<nat>,
                      paths': set<nat>, start: nat, data: seq<byte>)
    requires geo.Valid() && end < U32_SPAN && other != num
    requires BlocksSized(disk, geo.blockSize) && InodeNumber(geo, groups, disk0, num)
    requires Ready(geo, groups, disk0, other, blocks', paths')
    requires forall b: nat | b in blocks' || b in paths' :: b !in blocks
    requires FileWritten(geo, groups, disk0, disk, num, offset, buffer, end, blocks)
    ensures Ready(geo, groups, disk, other, blocks', paths')
    ensures InodeAt(geo, groups, disk, other) == InodeAt(geo, groups, disk0, other)
    ensures Reads(disk0, geo.blockSize, blocks', start, data) ==> Reads(disk, geo.blockSize, blocks', start, data)
  {
    var inode := InodeAt(geo, groups, disk0, other);
    StaysAllocated(disk0, disk, geo.Pointers(), inode, inode, blocks', paths');
    if Reads(disk0, geo.blockSize, blocks', start, data) {
      SameBlocksRead(disk0, disk, geo.blockSize, blocks', start, data);
    }
  }
}
