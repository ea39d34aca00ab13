/** Directory blocks of kernel/src/fs/ext2.c: looking a name up, and removing an entry. */
module Ext2Dir {
  import opened Machine
  import opened Arith
  import opened Bits
  import opened Ext2Disk
  import opened Options
  import opened Ext2Blocks
  import opened Ext2File

  const HEADER: nat := 8

  datatype Entry = Entry(inode: nat, name: seq<byte>)

  /** The fields of struct ext2_dir_entry at `pos`. */
  function RecLen(b: Block, pos: nat): nat
    requires pos + HEADER <= |b|
  {
    b[pos + 4] as int + 0x100 * (b[pos + 5] as int)
  }

  function NameLen(b: Block, pos: nat): nat
    requires pos + HEADER <= |b|
  {
    b[pos + 6]
  }

  function Name(b: Block, pos: nat): seq<byte>
    requires pos + HEADER <= |b| && pos + HEADER + NameLen(b, pos) <= |b|
  {
    b[pos + HEADER..pos + HEADER + NameLen(b, pos)]
  }

  /** The record at `pos` lies in the block and holds its name. */
  predicate Record(b: Block, pos: nat) {
    && pos + HEADER <= |b|
    && HEADER + NameLen(b, pos) <= RecLen(b, pos) && pos + RecLen(b, pos) <= |b|
  }

  /** From `pos` on, the records follow each other without gap up to the end of the block. */
  predicate Tiles(b: Block, pos: nat)
    decreases |b| - pos
  {
    pos == |b| || (Record(b, pos) && Tiles(b, pos + RecLen(b, pos)))
  }

  /** The entry of a record, unless it is deleted. */
  function EntryAt(b: Block, pos: nat): seq<Entry>
    requires Record(b, pos)
  {
    if Word(b, pos) == 0 then [] else [Entry(Word(b, pos), Name(b, pos))]
  }

  /** The live entries from `pos` on. */
  function Live(b: Block, pos: nat): seq<Entry>
    requires Tiles(b, pos)
    decreases |b| - pos
  {
    if pos == |b| then [] else EntryAt(b, pos) + Live(b, pos + RecLen(b, pos))
  }

  /** The inode of the first entry with a name, or 0. */
  function Lookup(entries: seq<Entry>, name: seq<byte>): nat {
    if entries == [] then 0
    else if entries[0].name == name then entries[0].inode
    else Lookup(entries[1..], name)
  }

  predicate Has(entries: seq<Entry>, num: nat) {
    exists k :: 0 <= k < |entries| && entries[k].inode == num
  }

  /** The entries without the first one that has inode `num`. */
  function Without(entries: seq<Entry>, num: nat): seq<Entry> {
    if entries == [] then []
    else if entries[0].inode == num then entries[1..]
    else [entries[0]] + Without(entries[1..], num)
  }

  lemma {:induction false} LookupConcat(a: seq<Entry>, b: seq<Entry>, name: seq<byte>)
    requires !Has(a, 0)
    ensures Lookup(a + b, name) == if Lookup(a, name) != 0 then Lookup(a, name) else Lookup(b, name)
  {
    if a == [] {
      assert a + b == b;
    } else {
      assert (a + b)[1..] == a[1..] + b;
      assert a[0].inode != 0;
      assert forall k | 0 <= k < |a[1..]| :: a[1..][k] == a[k + 1];
      LookupConcat(a[1..], b, name);
    }
  }

  lemma Associative(a: seq<Entry>, b: seq<Entry>, c: seq<Entry>)
    ensures a + (b + c) == a + b + c
  {
  }

  lemma HasHead(a: seq<Entry>, num: nat)
    requires a != []
    ensures Has(a, num) <==> a[0].inode == num || Has(a[1..], num)
  {
    var rest := a[1..];
    if k :| 0 <= k < |a| && a[k].inode == num {
      assert k > 0 ==> rest[k - 1].inode == num;
    }
    if k :| 0 <= k < |rest| && rest[k].inode == num {
      assert a[k + 1].inode == num;
    }
  }

  lemma {:induction false} WithoutConcat(a: seq<Entry>, b: seq<Entry>, num: nat)
    ensures Without(a + b, num) == if Has(a, num) then Without(a, num) + b else a + Without(b, num)
  {
    if a == [] {
      assert a + b == b;
    } else {
      var c := a + b;
      assert c[0] == a[0] && c[1..] == a[1..] + b;
      HasHead(a, num);
      WithoutConcat(a[1..], b, num);
      Associative([a[0]], Without(a[1..], num), b);
      Associative([a[0]], a[1..], Without(b, num));
      assert [a[0]] + a[1..] == a;
    }
  }

  lemma HasConcat(a: seq<Entry>, b: seq<Entry>, num: nat)
    ensures Has(a + b, num) <==> Has(a, num) || Has(b, num)
  {
    var c := a + b;
    assert forall k | 0 <= k < |a| :: c[k] == a[k];
    assert forall k | 0 <= k < |b| :: c[|a| + k] == b[k];
  }

  lemma {:induction false} LiveHasNoZero(b: Block, pos: nat)
    requires Tiles(b, pos)
    ensures !Has(Live(b, pos), 0)
    decreases |b| - pos
  {
    if pos < |b| {
      LiveHasNoZero(b, pos + RecLen(b, pos));
      HasConcat(EntryAt(b, pos), Live(b, pos + RecLen(b, pos)), 0);
    }
  }

  lemma OneRecord(b: Block, pos: nat)
    requires Record(b, pos) && Tiles(b, pos + RecLen(b, pos))
    ensures Tiles(b, pos) && Live(b, pos) == EntryAt(b, pos) + Live(b, pos + RecLen(b, pos))
  {
  }

  /** A record depends only on its own bytes. */
  lemma SameRecord(b: Block, c: Block, pos: nat)
    requires |b| == |c| && Record(b, pos) && forall i | pos <= i < pos + RecLen(b, pos) :: c[i] == b[i]
    ensures Record(c, pos) && RecLen(c, pos) == RecLen(b, pos) && EntryAt(c, pos) == EntryAt(b, pos)
  {
    assert c[pos] == b[pos] && c[pos + 1] == b[pos + 1] && c[pos + 2] == b[pos + 2] && c[pos + 3] == b[pos + 3];
    assert c[pos + 4] == b[pos + 4] && c[pos + 5] == b[pos + 5] && c[pos + 6] == b[pos + 6];
    assert Name(c, pos) == Name(b, pos);
  }

  /** What lies before `pos` does not matter for the records from `pos` on. */
  lemma {:induction false} TailFrame(b: Block, c: Block, pos: nat)
    requires |b| == |c| && Tiles(b, pos) && forall i | pos <= i < |b| :: c[i] == b[i]
    ensures Tiles(c, pos) && Live(c, pos) == Live(b, pos)
    decreases |b| - pos
  {
    if pos < |b| {
      SameRecord(b, c, pos);
      TailFrame(b, c, pos + RecLen(b, pos));
    }
  }

  /** The chain of records from `pos` reaches `at`. */
  predicate Reaches(b: Block, pos: nat, at: nat)
    decreases |b| - pos
  {
    pos == at || (Record(b, pos) && Reaches(b, pos + RecLen(b, pos), at))
  }

  lemma {:induction false} ReachesLater(b: Block, pos: nat, at: nat)
    requires Reaches(b, pos, at)
    ensures pos <= at
    decreases |b| - pos
  {
    if pos != at {
      ReachesLater(b, pos + RecLen(b, pos), at);
    }
  }

  lemma {:induction false} ReachesNext(b: Block, pos: nat, at: nat)
    requires Reaches(b, pos, at) && Record(b, at)
    ensures Reaches(b, pos, at + RecLen(b, at))
    decreases |b| - pos
  {
    if pos != at {
      ReachesNext(b, pos + RecLen(b, pos), at);
    }
  }

  lemma {:induction false} ReachesTiles(b: Block, pos: nat, at: nat)
    requires Tiles(b, pos) && Reaches(b, pos, at)
    ensures Tiles(b, at)
    decreases |b| - pos
  {
    if pos != at && pos != |b| {
      ReachesTiles(b, pos + RecLen(b, pos), at);
    }
  }

  /** The live entries of the records from `pos` up to `at`. */
  function LiveTo(b: Block, pos: nat, at: nat): seq<Entry>
    requires Reaches(b, pos, at)
    decreases |b| - pos
  {
    if pos == at then [] else EntryAt(b, pos) + LiveTo(b, pos + RecLen(b, pos), at)
  }

  lemma {:induction false} LiveToNext(b: Block, pos: nat, at: nat)
    requires Reaches(b, pos, at) && Record(b, at)
    ensures Reaches(b, pos, at + RecLen(b, at))
    ensures LiveTo(b, pos, at + RecLen(b, at)) == LiveTo(b, pos, at) + EntryAt(b, at)
    decreases |b| - pos
  {
    ReachesNext(b, pos, at);
    if pos != at {
      ReachesLater(b, pos + RecLen(b, pos), at);
      LiveToNext(b, pos + RecLen(b, pos), at);
    }
  }

  /** Changing nothing before `at` keeps the records before it, and those from `at` on follow. */
  lemma {:induction false} HeadFrame(b: Block, c: Block, pos: nat, at: nat)
    requires |b| == |c| && Reaches(b, pos, at) && at <= |b|
    requires forall i | 0 <= i < at :: c[i] == b[i]
    requires Tiles(c, at)
    ensures Reaches(c, pos, at) && LiveTo(c, pos, at) == LiveTo(b, pos, at)
    ensures Tiles(c, pos) && Live(c, pos) == LiveTo(b, pos, at) + Live(c, at)
    decreases |b| - pos
  {
    if pos != at {
      ReachesLater(b, pos + RecLen(b, pos), at);
      SameRecord(b, c, pos);
      HeadFrame(b, c, pos + RecLen(b, pos), at);
      Associative(EntryAt(b, pos), LiveTo(b, pos + RecLen(b, pos), at), Live(c, at));
    }
  }

  /** prev->rec_len = len */
  function WithRecLen(b: Block, pos: nat, len: nat): (r: Block)
    requires pos + HEADER <= |b| && len < COUNT_SPAN
    ensures |r| == |b|
  {
    b[pos + 4 := len % 0x100][pos + 5 := len / 0x100]
  }

  /** entry->inode = 0 */
  function WithoutInode(b: Block, pos: nat): (r: Block)
    requires pos + HEADER <= |b|
    ensures |r| == |b|
  {
    b[pos := 0][pos + 1 := 0][pos + 2 := 0][pos + 3 := 0]
  }

  ghost predicate SameOutside(b: Block, c: Block, at: nat, next: nat) {
    |c| == |b| && forall i | 0 <= i < |b| && (i < at || next <= i) :: c[i] == b[i]
  }

  lemma LongerRecord(b: Block, pos: nat, len: nat, c: Block)
    requires Record(b, pos) && RecLen(b, pos) <= len < COUNT_SPAN && pos + len <= |b| && c == WithRecLen(b, pos, len)
    ensures Record(c, pos) && RecLen(c, pos) == len && EntryAt(c, pos) == EntryAt(b, pos)
    ensures SameOutside(b, c, pos, pos + len)
  {
    assert c[pos] == b[pos] && c[pos + 1] == b[pos + 1] && c[pos + 2] == b[pos + 2] && c[pos + 3] == b[pos + 3];
    assert c[pos + 6] == b[pos + 6];
    assert Name(c, pos) == Name(b, pos);
  }

  /** Replacing the bytes between two record boundaries by one record keeps the tiling. */
  lemma Spliced(b: Block, c: Block, at: nat, next: nat, head: seq<Entry>)
    requires Reaches(b, 0, at) && SameOutside(b, c, at, next)
    requires Record(c, at) && next == at + RecLen(c, at) && Tiles(b, next)
    requires head == LiveTo(b, 0, at) + EntryAt(c, at)
    ensures Tiles(c, 0) && Live(c, 0) == head + Live(b, next)
  {
    TailFrame(b, c, next);
    OneRecord(c, at);
    HeadFrame(b, c, 0, at);
    Associative(LiveTo(b, 0, at), EntryAt(c, at), Live(c, next));
  }

  /** Merging the record at `pos` into the one before it drops exactly that record. */
  lemma MergeRecord(b: Block, c: Block, prev: nat, pos: nat, next: nat)
    requires Reaches(b, 0, prev) && Record(b, prev) && pos == prev + RecLen(b, prev) && Tiles(b, next)
    requires Record(c, prev) && next == prev + RecLen(c, prev) && EntryAt(c, prev) == EntryAt(b, prev)
    requires SameOutside(b, c, prev, next)
    ensures Reaches(b, 0, pos) && Tiles(c, 0) && Live(c, 0) == LiveTo(b, 0, pos) + Live(b, next)
  {
    LiveToNext(b, 0, prev);
    Spliced(b, c, prev, next, LiveTo(b, 0, pos));
  }

  /** Zeroing the inode of the first record drops exactly that record. */
  lemma ClearRecord(b: Block)
    requires Tiles(b, 0) && |b| > 0
    ensures var c := WithoutInode(b, 0);
      Tiles(c, 0) && Live(c, 0) == Live(b, RecLen(b, 0))
  {
    var c := WithoutInode(b, 0);
    assert RecLen(c, 0) == RecLen(b, 0) && NameLen(c, 0) == NameLen(b, 0);
    TailFrame(b, c, RecLen(b, 0));
    assert Word(c, 0) == 0;
  }

  lemma LiveSplit(b: Block, pos: nat, next: nat)
    requires Reaches(b, 0, pos) && Record(b, pos) && next == pos + RecLen(b, pos) && Tiles(b, next)
    ensures Tiles(b, 0) && Live(b, 0) == LiveTo(b, 0, pos) + (EntryAt(b, pos) + Live(b, next))
  {
    OneRecord(b, pos);
    HeadFrame(b, b, 0, pos);
  }

  /** The first live entry with inode `num` is the one at `pos`. */
  lemma FirstHit(b: Block, pos: nat, next: nat, num: nat)
    requires Reaches(b, 0, pos) && Record(b, pos) && next == pos + RecLen(b, pos) && Tiles(b, next)
    requires Word(b, pos) == num && num != 0 && !Has(LiveTo(b, 0, pos), num)
    ensures Tiles(b, 0) && Has(Live(b, 0), num)
    ensures Without(Live(b, 0), num) == LiveTo(b, 0, pos) + Live(b, next)
  {
    LiveSplit(b, pos, next);
    FirstOf(LiveTo(b, 0, pos), Entry(num, Name(b, pos)), Live(b, next), num);
  }

  lemma FirstOf(a: seq<Entry>, entry: Entry, rest: seq<Entry>, num: nat)
    requires !Has(a, num) && entry.inode == num
    ensures Has(a + ([entry] + rest), num)
    ensures Without(a + ([entry] + rest), num) == a + rest
  {
    var tail := [entry] + rest;
    assert tail[0] == entry && tail[1..] == rest;
    WithoutConcat(a, tail, num);
    HasConcat(a, tail, num);
  }

  /** The state of the removal loop: the records before `pos` hold no entry with inode `num`, and `prev` is the
      last of them. */
  ghost predicate Searched(b: Block, num: nat, prev: Option<nat>, pos: nat) {
    && Tiles(b, 0) && Reaches(b, 0, pos) && Tiles(b, pos) && !Has(LiveTo(b, 0, pos), num)
    && match prev
       case None => pos == 0
       case Some(p) => Reaches(b, 0, p) && Record(b, p) && pos == p + RecLen(b, p)
  }

  lemma SearchedNext(b: Block, num: nat, prev: Option<nat>, pos: nat)
    requires Searched(b, num, prev, pos) && pos < |b| && Word(b, pos) != num
    ensures Searched(b, num, Some(pos), pos + RecLen(b, pos))
  {
    LiveToNext(b, 0, pos);
    HasConcat(LiveTo(b, 0, pos), EntryAt(b, pos), num);
  }

  lemma SearchedAll(b: Block, num: nat, prev: Option<nat>, pos: nat)
    requires Searched(b, num, prev, pos) && pos == |b|
    ensures !Has(Live(b, 0), num)
  {
    HeadFrame(b, b, 0, pos);
    HasConcat(LiveTo(b, 0, pos), Live(b, pos), num);
  }

  lemma MergedIsRemoved(b: Block, c: Block, num: nat, prev: nat, pos: nat, next: nat)
    requires Searched(b, num, Some(prev), pos) && pos < |b| && Word(b, pos) == num && num != 0
    requires next == pos + RecLen(b, pos)
    requires Record(c, prev) && next == prev + RecLen(c, prev) && EntryAt(c, prev) == EntryAt(b, prev)
    requires SameOutside(b, c, prev, next)
    ensures Tiles(c, 0) && Has(Live(b, 0), num) && Live(c, 0) == Without(Live(b, 0), num)
  {
    FirstHit(b, pos, next, num);
    MergeRecord(b, c, prev, pos, next);
  }

  lemma MergedFits(b: Block, num: nat, prev: nat, pos: nat)
    requires Searched(b, num, Some(prev), pos) && pos < |b| < COUNT_SPAN
    ensures Record(b, prev) && prev + RecLen(b, prev) + RecLen(b, pos) <= |b|
  {
  }

  lemma LongerIsRemoved(b: Block, c: Block, num: nat, prev: nat, pos: nat, len: nat)
    requires Searched(b, num, Some(prev), pos) && pos < |b| < COUNT_SPAN && Word(b, pos) == num && num != 0
    requires len == RecLen(b, prev) + RecLen(b, pos) && c == WithRecLen(b, prev, len % COUNT_SPAN)
    ensures |c| == |b| && Tiles(c, 0) && Has(Live(b, 0), num) && Live(c, 0) == Without(Live(b, 0), num)
  {
    MergedFits(b, num, prev, pos);
    assert len % COUNT_SPAN == len;
    LongerRecord(b, prev, len, c);
    MergedIsRemoved(b, c, num, prev, pos, prev + len);
  }

  lemma ClearedIsRemoved(b: Block, num: nat)
    requires Searched(b, num, None, 0) && 0 < |b| && Word(b, 0) == num && num != 0
    ensures var c := WithoutInode(b, 0);
      Tiles(c, 0) && Has(Live(b, 0), num) && Live(c, 0) == Without(Live(b, 0), num)
  {
    FirstHit(b, 0, RecLen(b, 0), num);
    ClearRecord(b);
    assert LiveTo(b, 0, 0) == [];
  }

  /** Merge the record with its predecessor, or mark it as deleted if it is the first one. */
  method RemoveRecord(block: Block, num: nat, prev: Option<nat>, pos: nat) returns (block': Block)
    requires Searched(block, num, prev, pos) && pos < |block| && Word(block, pos) == num && num != 0
    requires |block| < COUNT_SPAN
    ensures |block'| == |block| && Tiles(block', 0)
    ensures Has(Live(block, 0), num) && Live(block', 0) == Without(Live(block, 0), num)
  {
    if prev.Some? {
      var at := prev.value;
      var len := RecLen(block, at) + RecLen(block, pos);
      block' := WithRecLen(block, at, len % COUNT_SPAN);
      LongerIsRemoved(block, block', num, at, pos, len);
    } else {
      ClearedIsRemoved(block, num);
      block' := WithoutInode(block, pos);
    }
  }

  /** The inner loop of the removal in ext2_delete_file. Record lengths are 16 bits wide. */
  method RemoveInBlock(block: Block, num: nat) returns (hit: bool, block': Block)
    requires Tiles(block, 0) && num != 0 && |block| < COUNT_SPAN
    ensures |block'| == |block| && Tiles(block', 0)
    ensures hit <==> Has(Live(block, 0), num)
    ensures if hit then Live(block', 0) == Without(Live(block, 0), num) else block' == block
  {
    var prev: Option<nat>, pos: nat := None, 0;
    while pos < |block|
      invariant Searched(block, num, prev, pos)
      decreases |block| - pos
    {
      if Word(block, pos) == num {
        block' := RemoveRecord(block, num, prev, pos);
        return true, block';
      }
      SearchedNext(block, num, prev, pos);
      var len := RecLen(block, pos);
      prev := Some(pos);
      pos := pos + len;
      if pos >= |block| || len == 0 {
        break;
      }
    }
    SearchedAll(block, num, prev, pos);
    return false, block;
  }

  /** Looking at one record. */
  lemma LookupStep(b: Block, pos: nat, next: nat, name: seq<byte>)
    requires Record(b, pos) && next == pos + RecLen(b, pos) && Tiles(b, next)
    ensures Tiles(b, pos)
    ensures Lookup(Live(b, pos), name)
      == if Word(b, pos) != 0 && Name(b, pos) == name then Word(b, pos) else Lookup(Live(b, next), name)
  {
    OneRecord(b, pos);
    LookupConcat(EntryAt(b, pos), Live(b, next), name);
  }

  /** The inner loop of ext2_find_file. */
  method FindInBlock(block: Block, name: seq<byte>) returns (num: nat)
    requires Tiles(block, 0)
    ensures num == Lookup(Live(block, 0), name)
  {
    var pos: nat := 0;
    while pos < |block|
      invariant Tiles(block, pos) && Lookup(Live(block, pos), name) == Lookup(Live(block, 0), name)
      decreases |block| - pos
    {
      var len := RecLen(block, pos);
      LookupStep(block, pos, pos + len, name);
      if Word(block, pos) != 0 && |name| == NameLen(block, pos) && name == Name(block, pos) {
        return Word(block, pos);
      }
      pos := pos + len;
      if pos >= |block| || len == 0 {
        break;
      }
    }
    return 0;
  }

  /** inode->i_mode & EXT2_S_IFDIR */
  predicate IsDirectory(inode: Inode) {
    Bit(inode[0] as int + 0x100 * (inode[1] as int), 14)
  }

  predicate TiledBlocks(disk: Disk, blocks: seq<nat>) {
    forall n | 0 <= n < |blocks| :: blocks[n] < |disk| && Tiles(disk[blocks[n]], 0)
  }

  /** The live entries of a directory from logical block `n` on. */
  function LiveFrom(disk: Disk, blocks: seq<nat>, n: nat): seq<Entry>
    requires TiledBlocks(disk, blocks) && n <= |blocks|
    decreases |blocks| - n
  {
    if n == |blocks| then [] else Live(disk[blocks[n]], 0) + LiveFrom(disk, blocks, n + 1)
  }

  /** Inode `dir` is a file of exactly the blocks `blocks`, each tiled by records. */
  ghost predicate Directory(geo: Geometry, groups: seq<GroupDesc>, disk: Disk, dir: nat, blocks: seq<nat>,
                            paths: set<nat>)
    requires geo.Valid()
  {
    && Ready(geo, groups, disk, dir, blocks, paths) && TiledBlocks(disk, blocks)
    && ISize(InodeAt(geo, groups, disk, dir)) == |blocks| * geo.blockSize
  }

  /** ext2_find_file. */
  method FindFile(vol: Volume, dir: nat, name: seq<byte>, ghost blocks: seq<nat>,
                  ghost paths: set<nat>) returns (num: nat)
    requires vol.Valid() && Directory(vol.geo, vol.groups, vol.disk, dir, blocks, paths)
    ensures num == if IsDirectory(InodeAt(vol.geo, vol.groups, vol.disk, dir))
                   then Lookup(LiveFrom(vol.disk, blocks, 0), name) else 0
  {
    var ok, inode := GetInode(vol, dir);
    if !IsDirectory(inode) {
      return 0;
    }
    var n := 0;
    ProductBelow(n, |blocks|, vol.geo.blockSize);
    while n * vol.geo.blockSize < ISize(inode)
      invariant n <= |blocks| && (n * vol.geo.blockSize < ISize(inode) <==> n < |blocks|)
      invariant Lookup(LiveFrom(vol.disk, blocks, n), name) == Lookup(LiveFrom(vol.disk, blocks, 0), name)
      decreases |blocks| - n
    {
      var buffer;
      ok, buffer := ReadAllocated(vol, inode, n, blocks, paths);
      if ok {
        num := FindInBlock(buffer, name);
        LiveHasNoZero(vol.disk[blocks[n]], 0);
        LookupConcat(Live(vol.disk[blocks[n]], 0), LiveFrom(vol.disk, blocks, n + 1), name);
        if num != 0 {
          return num;
        }
      }
      n := n + 1;
      ProductBelow(n, |blocks|, vol.geo.blockSize);
    }
    return 0;
  }

  ghost predicate NoneBefore(disk: Disk, blocks: seq<nat>, n: nat, num: nat)
    requires TiledBlocks(disk, blocks) && n <= |blocks|
  {
    forall k | 0 <= k < n :: !Has(Live(disk[blocks[k]], 0), num)
  }

  /** Only the entries of logical block `n` changed. */
  lemma {:induction false} OtherBlocksLive(disk: Disk, disk': Disk, blocks: seq<nat>, n: nat)
    requires n <= |blocks| && TiledBlocks(disk, blocks) && |disk'| == |disk|
    requires forall k | n <= k < |blocks| :: disk'[blocks[k]] == disk[blocks[k]]
    requires TiledBlocks(disk', blocks)
    ensures LiveFrom(disk', blocks, n) == LiveFrom(disk, blocks, n)
    decreases |blocks| - n
  {
    if n < |blocks| {
      OtherBlocksLive(disk, disk', blocks, n + 1);
    }
  }

  lemma {:induction false} OneBlockChanged(disk: Disk, disk': Disk, blocks: seq<nat>, n: nat, num: nat, i: nat)
    requires i <= n < |blocks| && TiledBlocks(disk, blocks) && TiledBlocks(disk', blocks) && |disk'| == |disk|
    requires forall k | 0 <= k < |blocks| && k != n :: disk'[blocks[k]] == disk[blocks[k]]
    requires NoneBefore(disk, blocks, n, num) && Has(Live(disk[blocks[n]], 0), num)
    requires Live(disk'[blocks[n]], 0) == Without(Live(disk[blocks[n]], 0), num)
    ensures LiveFrom(disk', blocks, i) == Without(LiveFrom(disk, blocks, i), num) && Has(LiveFrom(disk, blocks, i), num)
    decreases n - i
  {
    var a, rest := Live(disk[blocks[i]], 0), LiveFrom(disk, blocks, i + 1);
    if i == n {
      OtherBlocksLive(disk, disk', blocks, n + 1);
      HitWithout(a, Live(disk'[blocks[n]], 0), rest, num);
    } else {
      OneBlockChanged(disk, disk', blocks, n, num, i + 1);
      MissWithout(a, rest, LiveFrom(disk', blocks, i + 1), num);
    }
  }

  lemma HitWithout(a: seq<Entry>, a': seq<Entry>, rest: seq<Entry>, num: nat)
    requires Has(a, num) && a' == Without(a, num)
    ensures Has(a + rest, num) && a' + rest == Without(a + rest, num)
  {
    WithoutConcat(a, rest, num);
    HasConcat(a, rest, num);
  }

  lemma MissWithout(a: seq<Entry>, rest: seq<Entry>, rest': seq<Entry>, num: nat)
    requires !Has(a, num) && Has(rest, num) && rest' == Without(rest, num)
    ensures Has(a + rest, num) && a + rest' == Without(a + rest, num)
  {
    WithoutConcat(a, rest, num);
    HasConcat(a, rest, num);
  }

  lemma {:induction false} NoneAtAll(disk: Disk, blocks: seq<nat>, num: nat, i: nat)
    requires i <= |blocks| && TiledBlocks(disk, blocks) && NoneBefore(disk, blocks, |blocks|, num)
    ensures !Has(LiveFrom(disk, blocks, i), num)
    decreases |blocks| - i
  {
    if i < |blocks| {
      NoneAtAll(disk, blocks, num, i + 1);
      HasConcat(Live(disk[blocks[i]], 0), LiveFrom(disk, blocks, i + 1), num);
    }
  }

  /** What the removal did: the directory has its old entries but the first one with inode `num`, and no block
      outside the directory changed. */
  ghost predicate Removed(geo: Geometry, groups: seq<GroupDesc>, disk0: Disk, disk: Disk, dir: nat, num: nat,
                          blocks: seq<nat>, paths: set<nat>)
    requires geo.Valid() && Directory(geo, groups, disk0, dir, blocks, paths)
  {
    && Directory(geo, groups, disk, dir, blocks, paths) && |disk| == |disk0|
    && InodeAt(geo, groups, disk, dir) == InodeAt(geo, groups, disk0, dir)
    && LiveFrom(disk, blocks, 0) == Without(LiveFrom(disk0, blocks, 0), num)
    && forall b: nat | b < |disk| && b !in blocks :: disk[b] == disk0[b]
  }

  lemma EntryRemoved(geo: Geometry, groups: seq<GroupDesc>, disk0: Disk, disk: Disk, dir: nat, num: nat,
                     blocks: seq<nat>, paths: set<nat>, n: nat)
    requires geo.Valid() && Directory(geo, groups, disk0, dir, blocks, paths) && n < |blocks|
    requires BlocksSized(disk, geo.blockSize)
    requires NoneBefore(disk0, blocks, n, num) && Has(Live(disk0[blocks[n]], 0), num)
    requires |disk| == |disk0| && disk == disk0[blocks[n] := disk[blocks[n]]] && Tiles(disk[blocks[n]], 0)
    requires Live(disk[blocks[n]], 0) == Without(Live(disk0[blocks[n]], 0), num)
    ensures Removed(geo, groups, disk0, disk, dir, num, blocks, paths) && Has(LiveFrom(disk0, blocks, 0), num)
  {
    DataKeepsInodes(geo, groups, disk0, disk, dir, blocks, paths);
    OneBlockChanged(disk0, disk, blocks, n, num, 0);
  }

  /** The part of ext2_delete_file that removes the entry of inode `num` from its directory. */
  method RemoveEntry(vol: Volume, dir: nat, num: nat, ghost blocks: seq<nat>,
                     ghost paths: set<nat>) returns (found: bool)
    requires vol.Valid() && Directory(vol.geo, vol.groups, vol.disk, dir, blocks, paths)
    requires num != 0 && vol.geo.blockSize < COUNT_SPAN
    modifies vol`disk
    ensures vol.Valid()
    ensures found <==> Has(LiveFrom(old(vol.disk), blocks, 0), num)
    ensures if found then Removed(vol.geo, vol.groups, old(vol.disk), vol.disk, dir, num, blocks, paths)
            else vol.disk == old(vol.disk)
  {
    ghost var disk0 := vol.disk;
    var ok, inode := GetInode(vol, dir);
    var n := 0;
    DivUnique(ISize(inode), vol.geo.blockSize, |blocks|, 0);
    var count := ISize(inode) / vol.geo.blockSize;
    while n < count
      invariant n <= count == |blocks| && vol.disk == disk0
      invariant NoneBefore(disk0, blocks, n, num)
    {
      var buffer;
      ok, buffer := ReadAllocated(vol, inode, n, blocks, paths);
      if ok {
        var hit;
        hit, buffer := RemoveInBlock(buffer, num);
        if hit {
          found := WriteAllocated(vol, inode, n, buffer, blocks, paths);
          EntryRemoved(vol.geo, vol.groups, disk0, vol.disk, dir, num, blocks, paths, n);
          return;
        }
      }
      n := n + 1;
    }
    NoneAtAll(disk0, blocks, num, 0);
    return false;
  }

  predicate OnlyAt(entries: seq<Entry>, name: seq<byte>, num: nat)
  {
    && (exists k :: 0 <= k < |entries| && entries[k] == Entry(num, name))
    && (forall k | 0 <= k < |entries| :: entries[k].inode == num <==> entries[k].name == name)
    && (forall k, m | 0 <= k < m < |entries| :: entries[k].name == name ==> entries[m].name != name)
  }

  /** If name and inode occur once in the directory, the name is gone after the removal. */
  lemma {:induction false} NameGone(entries: seq<Entry>, name: seq<byte>, num: nat)
    requires OnlyAt(entries, name, num)
    ensures Lookup(entries, name) == num && Lookup(Without(entries, num), name) == 0
  {
    var k :| 0 <= k < |entries| && entries[k] == Entry(num, name);
    var rest := entries[1..];
    if k == 0 {
      NotFound(rest, name);
    } else {
      assert rest[k - 1] == entries[k];
      NameGone(rest, name, num);
      var left := [entries[0]] + Without(rest, num);
      assert left[0] == entries[0] && left[1..] == Without(rest, num);
    }
  }

  lemma {:induction false} NotFound(entries: seq<Entry>, name: seq<byte>)
    requires forall k | 0 <= k < |entries| :: entries[k].name != name
    ensures Lookup(entries, name) == 0
  {
    if entries != [] {
      NotFound(entries[1..], name);
    }
  }

  /** Entry `k` is the only one with its name, and the first one of its inode. */
  predicate SoleLinkAt(entries: seq<Entry>, name: seq<byte>, k: nat) {
    && k < |entries| && entries[k].name == name
    && (forall j | 0 <= j < |entries| && j != k :: entries[j].name != name)
    && (forall j | 0 <= j < k :: entries[j].inode != entries[k].inode)
  }

  ghost predicate SoleLink(entries: seq<Entry>, name: seq<byte>) {
    exists k: nat :: SoleLinkAt(entries, name, k)
  }

  /** The entries but the one at `m`, which is the first with its inode. */
  lemma {:induction false} WithoutIs(entries: seq<Entry>, m: nat)
    requires m < |entries| && forall j | 0 <= j < m :: entries[j].inode != entries[m].inode
    ensures Without(entries, entries[m].inode) == entries[..m] + entries[m + 1..]
  {
    if m > 0 {
      WithoutIs(entries[1..], m - 1);
      assert entries[..m] == [entries[0]] + entries[1..][..m - 1];
    }
  }

  lemma {:induction false} FirstWith(entries: seq<Entry>, num: nat) returns (m: nat)
    requires Has(entries, num)
    ensures m < |entries| && entries[m].inode == num && forall j | 0 <= j < m :: entries[j].inode != num
  {
    m := 0;
    while entries[m].inode != num
      invariant m < |entries| && forall j | 0 <= j < m :: entries[j].inode != num
      decreases |entries| - m
    {
      var k :| 0 <= k < |entries| && entries[k].inode == num;
      assert m < k;
      m := m + 1;
    }
  }

  lemma {:induction false} LookupZero(entries: seq<Entry>, name: seq<byte>)
    requires !Has(entries, 0)
    ensures Lookup(entries, name) == 0 <==> forall k | 0 <= k < |entries| :: entries[k].name != name
  {
    if entries != [] {
      HasHead(entries, 0);
      LookupZero(entries[1..], name);
      assert forall k | 1 <= k < |entries| :: entries[k] == entries[1..][k - 1];
    }
  }

  lemma {:induction false} LookupAt(entries: seq<Entry>, name: seq<byte>, k: nat)
    requires SoleLinkAt(entries, name, k)
    ensures Lookup(entries, name) == entries[k].inode
  {
    if k > 0 {
      LookupAt(entries[1..], name, k - 1);
    }
  }

  lemma NoneElsewhere(entries: seq<Entry>, m: nat, name: seq<byte>)
    requires m < |entries|
    ensures (forall j | 0 <= j < |entries| && j != m :: entries[j].name != name)
      <==> forall e | e in entries[..m] + entries[m + 1..] :: e.name != name
    ensures Has(entries[..m] + entries[m + 1..], 0) ==> Has(entries, 0)
  {
    var left := entries[..m] + entries[m + 1..];
    forall j | 0 <= j < |entries| && j != m ensures entries[j] == left[if j < m then j else j - 1] {
    }
  }

  /** After the removal of the inode a name led to, the name leads nowhere exactly if it was the only entry with that
      name and the first one with that inode: with hard links another entry may have gone in its place. */
  lemma GoneExactly(entries: seq<Entry>, name: seq<byte>)
    requires Lookup(entries, name) != 0 && !Has(entries, 0)
    ensures Lookup(Without(entries, Lookup(entries, name)), name) == 0 <==> SoleLink(entries, name)
  {
    var num := Lookup(entries, name);
    FoundIsThere(entries, name);
    var m := FirstWith(entries, num);
    WithoutIs(entries, m);
    var left := entries[..m] + entries[m + 1..];
    LookupZero(left, name);
    LookupZero(entries, name);
    NoneElsewhere(entries, m, name);
    if k: nat :| SoleLinkAt(entries, name, k) {
      LookupAt(entries, name, k);
      assert k == m;
    } else if Lookup(left, name) == 0 {
      assert SoleLinkAt(entries, name, m);
    }
  }

  /** A directory with a hard link: deleting the second name of inode 5 removes the first one, and the second still
      leads to the inode. */
  lemma HardLinkStays(first: seq<byte>, second: seq<byte>)
    requires first != second
    ensures var entries := [Entry(5, first), Entry(5, second)];
      && Lookup(entries, second) == 5 && Without(entries, 5) == [Entry(5, second)]
      && Lookup(Without(entries, 5), second) == 5 && !SoleLink(entries, second)
  {
    var entries := [Entry(5, first), Entry(5, second)];
    assert entries[1..] == [Entry(5, second)] && entries[0].name == first;
    assert Without(entries, 5) == entries[1..];
    forall k: nat ensures !SoleLinkAt(entries, second, k) {
      assert k == 1 ==> entries[0].inode == entries[k].inode;
    }
  }

  lemma {:induction false} FoundIsThere(entries: seq<Entry>, name: seq<byte>)
    requires Lookup(entries, name) != 0
    ensures Has(entries, Lookup(entries, name))
  {
    HasHead(entries, Lookup(entries, name));
    if entries[0].name != name {
      FoundIsThere(entries[1..], name);
    }
  }

  lemma {:induction false} NoZeroFrom(disk: Disk, blocks: seq<nat>, n: nat)
    requires TiledBlocks(disk, blocks) && n <= |blocks|
    ensures !Has(LiveFrom(disk, blocks, n), 0)
    decreases |blocks| - n
  {
    if n < |blocks| {
      NoZeroFrom(disk, blocks, n + 1);
      LiveHasNoZero(disk[blocks[n]], 0);
      HasConcat(Live(disk[blocks[n]], 0), LiveFrom(disk, blocks, n + 1), 0);
    }
  }

  /** Every other name still leads where it led: only a name of the removed inode can change. */
  lemma {:induction false} OtherNamesKept(entries: seq<Entry>, name: seq<byte>, num: nat)
    requires num != 0 && Lookup(entries, name) != num
    ensures Lookup(Without(entries, num), name) == Lookup(entries, name)
  {
    if entries != [] && entries[0].inode != num {
      var left := [entries[0]] + Without(entries[1..], num);
      assert left[0] == entries[0] && left[1..] == Without(entries[1..], num);
      if entries[0].name != name {
        OtherNamesKept(entries[1..], name, num);
      }
    }
  }
}
