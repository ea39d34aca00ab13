/** The block device under the ext2 engine of kernel/src/fs/ext2.c, and how its blocks are read as
    little-endian words, pointer arrays and inodes. Block I/O fails only for a block the device does not have. */
module Ext2Disk {
  import opened Machine
  import opened Options

  type Block = seq<byte>
  type Disk = seq<Block>

  const INODE_SIZE: nat := 128
  const DIRECT_BLOCKS: nat := 12
  const COUNT_SPAN: nat := 0x1_0000

  /** What ext2_init computes from the superblock. The block size is 1024 << s_log_block_size; from 256 KiB on the
      square of the number of pointers in a block would not fit in 32 bits (see Ext2Blocks.SquareFits). */
  datatype Geometry = Geometry(blockSize: nat, inodesPerGroup: nat, blocksPerGroup: nat,
                               firstDataBlock: nat, blocksCount: nat)
  {
    predicate Valid() {
      1024 <= blockSize < 0x4_0000 && blockSize % 1024 == 0 && inodesPerGroup > 0 && blocksPerGroup > 0
    }

    /** The number of pointers in a block. */
    function Pointers(): nat {
      blockSize / 4
    }
  }

  datatype GroupDesc = GroupDesc(blockBitmap: nat, inodeBitmap: nat, inodeTable: nat, freeBlocks: nat, freeInodes: nat)

  /** The group of an inode, and its index there. */
  function GroupOf(geo: Geometry, num: nat): nat
    requires geo.Valid() && num > 0
  {
    (num - 1) / geo.inodesPerGroup
  }

  function IndexOf(geo: Geometry, num: nat): nat
    requires geo.Valid() && num > 0
  {
    (num - 1) % geo.inodesPerGroup
  }

  /** The little-endian 32-bit word at `offset`. */
  function Word(b: seq<byte>, offset: nat): (w: nat)
    requires offset + 4 <= |b|
    ensures w < U32_SPAN
  {
    b[offset] as int + 0x100 * (b[offset + 1] as int)
    + 0x1_0000 * (b[offset + 2] as int) + 0x100_0000 * (b[offset + 3] as int)
  }

  function Encode(w: nat): (b: seq<byte>)
    requires w < U32_SPAN
    ensures |b| == 4
  {
    [w % 0x100, w / 0x100 % 0x100, w / 0x1_0000 % 0x100, w / 0x100_0000]
  }

  lemma WordOfEncode(w: nat)
    requires w < U32_SPAN
    ensures Word(Encode(w), 0) == w
  {
    var a := w / 0x100;
    var b := a / 0x100;
    assert w / 0x1_0000 == b && w / 0x100_0000 == b / 0x100;
  }

  /** The i-th pointer stored in block `b`, if the device has the block. */
  function Pointer(disk: Disk, b: nat, i: nat): Option<nat> {
    if b < |disk| && 4 * i + 4 <= |disk[b]| then Some(Word(disk[b], 4 * i)) else None
  }

  /** An in-memory inode is the 128 bytes of struct ext2_inode. */
  type Inode = s: seq<byte> | |s| == INODE_SIZE witness seq(INODE_SIZE, i => 0)

  function ISize(inode: Inode): nat {
    Word(inode, 4)
  }

  function IBlock(inode: Inode, i: nat): nat
    requires i < 15
  {
    Word(inode, 40 + 4 * i)
  }

  /** inode->i_size = size */
  function SetISize(inode: Inode, size: nat): Inode
    requires size < U32_SPAN
  {
    inode[..4] + Encode(size) + inode[8..]
  }

  lemma SetISizeMeaning(inode: Inode, size: nat)
    requires size < U32_SPAN
    ensures ISize(SetISize(inode, size)) == size
    ensures forall i: nat | i < 15 :: IBlock(SetISize(inode, size), i) == IBlock(inode, i)
    ensures SetISize(inode, size)[..4] == inode[..4] && SetISize(inode, size)[8..] == inode[8..]
  {
    var inode' := SetISize(inode, size);
    assert inode'[4] == Encode(size)[0] && inode'[5] == Encode(size)[1];
    assert inode'[6] == Encode(size)[2] && inode'[7] == Encode(size)[3];
    WordOfEncode(size);
  }

  /** The mounted volume: ext2_instance and the device. */
  class Volume {
    const geo: Geometry
    var disk: Disk
    var groups: seq<GroupDesc>
    var freeBlocks: nat         // s_free_blocks_count
    var freeInodes: nat         // s_free_inodes_count

    predicate Valid()
      reads this
    {
      geo.Valid() && forall b | 0 <= b < |disk| :: |disk[b]| == geo.blockSize
    }

    constructor (geo: Geometry, disk: Disk, groups: seq<GroupDesc>, freeBlocks: nat, freeInodes: nat)
      requires geo.Valid() && forall b | 0 <= b < |disk| :: |disk[b]| == geo.blockSize
      ensures Valid() && this.geo == geo && this.disk == disk && this.groups == groups
      ensures this.freeBlocks == freeBlocks && this.freeInodes == freeInodes
    {
      this.geo, this.disk, this.groups := geo, disk, groups;
      this.freeBlocks, this.freeInodes := freeBlocks, freeInodes;
    }

    method ReadBlock(b: nat) returns (ok: bool, data: Block)
      ensures ok <==> b < |disk|
      ensures ok ==> data == disk[b]
    {
      if b < |disk| {
        return true, disk[b];
      }
      return false, [];
    }

    method WriteBlock(b: nat, data: Block) returns (ok: bool)
      requires Valid() && |data| == geo.blockSize
      modifies this`disk
      ensures Valid()
      ensures ok <==> b < |old(disk)|
      ensures disk == if ok then old(disk)[b := data] else old(disk)
    {
      ok := b < |disk|;
      if ok {
        disk := disk[b := data];
      }
    }
  }
}
