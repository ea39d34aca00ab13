/** How ext2_read_inode_block and ext2_write_inode_block of kernel/src/fs/ext2.c find the disk block of a
    logical block: the slot in the pointer tree, and the walk to it. */
module Ext2Blocks {
  import opened Machine
  import opened Arith
  import opened Ext2Disk
  import opened Options

  /** A place in the pointer tree of an inode. */
  datatype Slot = Direct(i: nat) | Single(i: nat) | Double(i: nat, j: nat) | Triple(i: nat, j: nat, k: nat)

  /** The slot the code resolves logical block `n` to, with `p` pointers a block. The double-indirect range ends
      at p * p and is indexed from p on, so its last row stays unused; the triple range is indexed from p * p. */
  function SlotOf(p: nat, n: nat): Slot
    requires p > 0
  {
    SlotAt(p, p * p, n)
  }

  function SlotAt(p: nat, square: nat, n: nat): Slot
    requires p > 0 && square > 0
  {
    if n < DIRECT_BLOCKS then Direct(n)
    else
      var m := n - DIRECT_BLOCKS;
      if m < p then Single(m)
      else if m < square then Double((m - p) / p, (m - p) % p)
      else Triple((m - square) / square, (m - square) % square / p, (m - square) % square % p)
  }

  predicate InRange(p: nat, s: Slot) {
    match s
    case Direct(i) => i < DIRECT_BLOCKS
    case Single(i) => i < p
    case Double(i, j) => i < p && j < p
    case Triple(i, j, k) => i < p && j < p && k < p
  }

  /** The logical blocks the tree has a slot for. */
  predicate Addressable(p: nat, n: nat) {
    n - DIRECT_BLOCKS < p * p + p * p * p
  }

  /** The logical block a slot belongs to: the inverse of SlotOf. */
  function BlockOf(p: nat, s: Slot): nat {
    match s
    case Direct(i) => i
    case Single(i) => DIRECT_BLOCKS + i
    case Double(i, j) => DIRECT_BLOCKS + p + (i * p + j)
    case Triple(i, j, k) => DIRECT_BLOCKS + p * p + (i * (p * p) + (j * p + k))
  }

  lemma SlotInverse(p: nat, n: nat)
    requires p > 0
    ensures BlockOf(p, SlotOf(p, n)) == n
  {
    var m, q := n - DIRECT_BLOCKS, p * p;
    if m >= q {
      DivMod(m - q, q);
      DivMod((m - q) % q, p);
    } else if m >= p {
      DivMod(m - p, p);
    }
  }

  /** Different logical blocks have different slots. */
  lemma SlotInjective(p: nat, n: nat, m: nat)
    requires p > 0 && SlotOf(p, n) == SlotOf(p, m)
    ensures n == m
  {
    SlotInverse(p, n);
    SlotInverse(p, m);
  }

  /** A logical block has a slot inside the pointer arrays exactly when it is addressable. */
  lemma SlotInRange(p: nat, n: nat)
    requires p > 0
    ensures InRange(p, SlotOf(p, n)) <==> Addressable(p, n)
  {
    var q := p * p;
    assert p * p + p * p * p == q + p * q;
    SlotAtInRange(p, q, n);
  }

  lemma SlotAtInRange(p: nat, q: nat, n: nat)
    requires p > 0 && q > 0 && q == p * p
    ensures InRange(p, SlotAt(p, q, n)) <==> n - DIRECT_BLOCKS < q + p * q
  {
    var m := n - DIRECT_BLOCKS;
    MulAtLeast(p, p);
    MulAtLeast(p, q);
    if m >= q {
      TripleInRange(p, q, m - q);
    } else if m >= p {
      DivBound(m - p, p, p);
    }
  }

  lemma TripleInRange(p: nat, q: nat, x: nat)
    requires p > 0 && q > 0 && q == p * p
    ensures x / q < p <==> x < p * q
    ensures x % q / p < p && x % q % p < p
  {
    DivBound(x, q, p);
    DivBound(x % q, p, p);
  }

  /** The code computes the square of the number of pointers in 32 bits: it does not wrap exactly for block sizes below
      256 KiB. */
  lemma SquareFits(blockSize: nat, p: nat, square: nat)
    requires p == blockSize / 4 && square == p * p
    ensures square < U32_SPAN <==> blockSize < 0x4_0000
  {
    if p < 0x1_0000 {
      MulMonotone(p, 0xFFFF, p, 0xFFFF);
    } else {
      MulMonotone(0x1_0000, p, 0x1_0000, p);
    }
  }

  lemma MulMonotone(a: nat, b: nat, c: nat, d: nat)
    requires a <= b && c <= d
    ensures a * c <= b * d
  {
    assert b * d == a * c + (b - a) * d + a * (d - c);
  }

  /** Every block of a file with 32-bit offsets is addressable, as long as the square does not wrap (SquareFits). */
  lemma OffsetAddressable(blockSize: nat, offset: nat, n: nat)
    requires blockSize >= 1024 && offset < U32_SPAN && n == offset / blockSize
    ensures Addressable(blockSize / 4, n)
  {
    SquareBound(blockSize / 4);
    QuotientBound(offset, blockSize);
  }

  lemma SquareBound(p: nat)
    requires p >= 256
    ensures p * p * p >= 256 * 256 * 256
  {
    assert p * p >= 256 * 256;
    assert p * (p * p) >= 256 * (256 * 256);
  }

  lemma QuotientBound(x: nat, d: nat)
    requires d >= 1024 && x < U32_SPAN
    ensures x / d < 0x40_0000
  {
    DivBound(x, d, 0x40_0000);
  }

  /** The disk block a slot leads to, if the device has all pointer blocks on the way. */
  function Follow(disk: Disk, inode: Inode, s: Slot): Option<nat>
    requires s.Direct? ==> s.i < DIRECT_BLOCKS
  {
    match s
    case Direct(i) => Some(IBlock(inode, i))
    case Single(i) => Pointer(disk, IBlock(inode, 12), i)
    case Double(i, j) => Then(disk, Pointer(disk, IBlock(inode, 13), i), j)
    case Triple(i, j, k) => Then(disk, Then(disk, Pointer(disk, IBlock(inode, 14), i), j), k)
  }

  function Then(disk: Disk, b: Option<nat>, i: nat): Option<nat> {
    match b
    case None => None
    case Some(b) => Pointer(disk, b, i)
  }

  function Just(b: Option<nat>): set<nat> {
    match b
    case None => {}
    case Some(b) => {b}
  }

  /** The pointer blocks read on the way to a slot. */
  function Path(disk: Disk, inode: Inode, s: Slot): set<nat> {
    match s
    case Direct(i) => {}
    case Single(i) => {IBlock(inode, 12)}
    case Double(i, j) => {IBlock(inode, 13)} + Just(Pointer(disk, IBlock(inode, 13), i))
    case Triple(i, j, k) =>
      var a := Pointer(disk, IBlock(inode, 14), i);
      {IBlock(inode, 14)} + Just(a) + Just(Then(disk, a, j))
  }

  /** The disk block of logical block `n`, and the pointer blocks that lead to it. */
  function DataBlock(disk: Disk, p: nat, inode: Inode, n: nat): Option<nat>
    requires p > 0
  {
    Follow(disk, inode, SlotOf(p, n))
  }

  function PathTo(disk: Disk, p: nat, inode: Inode, n: nat): set<nat>
    requires p > 0
  {
    Path(disk, inode, SlotOf(p, n))
  }

  /** Blocks outside a path do not matter for where it leads. */
  lemma PathFrame(disk: Disk, disk': Disk, inode: Inode, inode': Inode, s: Slot)
    requires s.Direct? ==> s.i < DIRECT_BLOCKS
    requires |disk'| == |disk| && forall i: nat | i < 15 :: IBlock(inode', i) == IBlock(inode, i)
    requires forall b: nat | b < |disk| && b in Path(disk, inode, s) :: disk'[b] == disk[b]
    ensures Follow(disk', inode', s) == Follow(disk, inode, s) && Path(disk', inode', s) == Path(disk, inode, s)
  {
    assert IBlock(inode', 12) == IBlock(inode, 12) && IBlock(inode', 13) == IBlock(inode, 13)
      && IBlock(inode', 14) == IBlock(inode, 14);
    match s
    case Direct(_) =>
    case Single(_) =>
    case Double(_, _) =>
      assert IBlock(inode, 13) in Path(disk, inode, s);
    case Triple(_, _, _) =>
      assert IBlock(inode, 14) in Path(disk, inode, s);
  }

  /** The last two steps of ext2_read_inode_block: read pointer block `b`, then the block of its i-th pointer. */
  method ReadThrough(vol: Volume, b: nat, i: nat) returns (ok: bool, data: Block)
    requires vol.Valid() && i < vol.geo.Pointers()
    ensures match Pointer(vol.disk, b, i)
      case None => !ok
      case Some(d) => ok == (d < |vol.disk|) && (ok ==> data == vol.disk[d])
  {
    ok, data := vol.ReadBlock(b);
    if ok {
      ok, data := vol.ReadBlock(Word(data, 4 * i));
    }
  }

  /** ext2_read_inode_block. */
  method ReadInodeBlock(vol: Volume, inode: Inode, n: nat) returns (ok: bool, data: Block)
    requires vol.Valid() && Addressable(vol.geo.Pointers(), n)
    ensures match DataBlock(vol.disk, vol.geo.Pointers(), inode, n)
      case None => !ok
      case Some(b) => ok == (b < |vol.disk|) && (ok ==> data == vol.disk[b])
  {
    data := [];
    if n < DIRECT_BLOCKS {
      ok, data := vol.ReadBlock(IBlock(inode, n));
      return;
    }
    var p := vol.geo.Pointers();
    SlotInRange(p, n);
    var m := n - DIRECT_BLOCKS;
    var buffer: Block;
    if m < p {
      ok, data := ReadThrough(vol, IBlock(inode, 12), m);
    } else if m < p * p {
      m := m - p;
      var indirect, offset := m / p, m % p;
      assert SlotOf(p, n) == Double(indirect, offset);
      ok, buffer := vol.ReadBlock(IBlock(inode, 13));
      if ok {
        ok, data := ReadThrough(vol, Word(buffer, 4 * indirect), offset);
      }
    } else {
      m := m - p * p;
      var double := m / (p * p);
      m := m % (p * p);
      var indirect, offset := m / p, m % p;
      assert SlotOf(p, n) == Triple(double, indirect, offset);
      ok, buffer := vol.ReadBlock(IBlock(inode, 14));
      if ok {
        ok, buffer := vol.ReadBlock(Word(buffer, 4 * double));
        if ok {
          ok, data := ReadThrough(vol, Word(buffer, 4 * indirect), offset);
        }
      }
    }
  }

  /** The last two steps of ext2_write_inode_block: read pointer block `b`, write to the block of its i-th pointer. */
  method WriteThrough(vol: Volume, b: nat, i: nat, data: Block) returns (ok: bool)
    requires vol.Valid() && i < vol.geo.Pointers() && |data| == vol.geo.blockSize
    modifies vol`disk
    ensures vol.Valid()
    ensures match Pointer(old(vol.disk), b, i)
      case None => !ok && vol.disk == old(vol.disk)
      case Some(d) =>
        ok == (d < |old(vol.disk)|) && vol.disk == if ok then old(vol.disk)[d := data] else old(vol.disk)
  {
    var buffer;
    ok, buffer := vol.ReadBlock(b);
    if ok {
      ok := vol.WriteBlock(Word(buffer, 4 * i), data);
    }
  }

  /** ext2_write_inode_block. */
  method WriteInodeBlock(vol: Volume, inode: Inode, n: nat, data: Block) returns (ok: bool)
    requires vol.Valid() && Addressable(vol.geo.Pointers(), n) && |data| == vol.geo.blockSize
    modifies vol`disk
    ensures vol.Valid()
    ensures match DataBlock(old(vol.disk), vol.geo.Pointers(), inode, n)
      case None => !ok && vol.disk == old(vol.disk)
      case Some(b) =>
        ok == (b < |old(vol.disk)|) && vol.disk == if ok then old(vol.disk)[b := data] else old(vol.disk)
  {
    if n < DIRECT_BLOCKS {
      ok := vol.WriteBlock(IBlock(inode, n), data);
      return;
    }
    var p := vol.geo.Pointers();
    SlotInRange(p, n);
    var m := n - DIRECT_BLOCKS;
    var buffer: Block;
    if m < p {
      ok := WriteThrough(vol, IBlock(inode, 12), m, data);
    } else if m < p * p {
      m := m - p;
      var indirect, offset := m / p, m % p;
      assert SlotOf(p, n) == Double(indirect, offset);
      ok, buffer := vol.ReadBlock(IBlock(inode, 13));
      if ok {
        ok := WriteThrough(vol, Word(buffer, 4 * indirect), offset, data);
      }
    } else {
      m := m - p * p;
      var double := m / (p * p);
      m := m % (p * p);
      var indirect, offset := m / p, m % p;
      assert SlotOf(p, n) == Triple(double, indirect, offset);
      ok, buffer := vol.ReadBlock(IBlock(inode, 14));
      if ok {
        ok, buffer := vol.ReadBlock(Word(buffer, 4 * double));
        if ok {
          ok := WriteThrough(vol, Word(buffer, 4 * indirect), offset, data);
        }
      }
    }
  }

  /** The first |blocks| logical blocks are allocated: block n is disk block blocks[n], no disk block serves
      twice, and none of them is one of `paths`, which holds all pointer blocks that lead to them. */
  ghost predicate Allocated(disk: Disk, p: nat, inode: Inode, blocks: seq<nat>, paths: set<nat>)
    requires p > 0
  {
    && (forall n: nat {:trigger DataBlock(disk, p, inode, n)} | n < |blocks| ::
         Addressable(p, n) && DataBlock(disk, p, inode, n) == Some(blocks[n]) && PathTo(disk, p, inode, n) <= paths)
    && (forall n | 0 <= n < |blocks| :: blocks[n] < |disk| && blocks[n] !in paths)
    && (forall n, m | 0 <= n < m < |blocks| :: blocks[n] != blocks[m])
  }

  /** Changing blocks outside `paths`, or fields of the inode other than i_block, keeps the allocation. */
  lemma StaysAllocated(disk: Disk, disk': Disk, p: nat, inode: Inode, inode': Inode, blocks: seq<nat>, paths: set<nat>)
    requires p > 0 && Allocated(disk, p, inode, blocks, paths)
    requires |disk'| == |disk| && forall i: nat | i < 15 :: IBlock(inode', i) == IBlock(inode, i)
    requires forall b: nat | b < |disk| && b in paths :: disk'[b] == disk[b]
    ensures Allocated(disk', p, inode', blocks, paths)
  {
    forall n: nat | n < |blocks|
      ensures Addressable(p, n) && DataBlock(disk', p, inode',
                                             n) == Some(blocks[n]) && PathTo(disk', p, inode', n) <= paths
    {
      assert DataBlock(disk, p, inode, n) == Some(blocks[n]);
      PathFrame(disk, disk', inode, inode', SlotOf(p, n));
    }
  }

  method ReadAllocated(vol: Volume, inode: Inode, n: nat, ghost blocks: seq<nat>, ghost paths: set<nat>)
    returns (ok: bool, data: Block)
    requires vol.Valid() && n < |blocks| && Allocated(vol.disk, vol.geo.Pointers(), inode, blocks, paths)
    ensures ok && data == vol.disk[blocks[n]]
  {
    assert DataBlock(vol.disk, vol.geo.Pointers(), inode, n) == Some(blocks[n]);
    ok, data := ReadInodeBlock(vol, inode, n);
  }

  method WriteAllocated(vol: Volume, inode: Inode, n: nat, data: Block, ghost blocks: seq<nat>, ghost paths: set<nat>)
    returns (ok: bool)
    requires vol.Valid() && n < |blocks| && Allocated(vol.disk, vol.geo.Pointers(), inode, blocks, paths)
    requires |data| == vol.geo.blockSize
    modifies vol`disk
    ensures vol.Valid() && Allocated(vol.disk, vol.geo.Pointers(), inode, blocks, paths)
    ensures ok && vol.disk == old(vol.disk)[blocks[n] := data]
  {
    assert DataBlock(vol.disk, vol.geo.Pointers(), inode, n) == Some(blocks[n]);
    ok := WriteInodeBlock(vol, inode, n, data);
    StaysAllocated(old(vol.disk), vol.disk, vol.geo.Pointers(), inode, inode, blocks, paths);
  }
}
