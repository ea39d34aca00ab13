/** The block list of kernel/src/mm/heap.c as a sequence of blocks that tile the heap, and what splitting, merging
    and appending do to it and to the linked headers in memory. */
module HeapBlocks {
  import opened Machine

  const HEADER: nat := 28                   // sizeof(struct heap_block), packed
  const MAGIC: nat := 0x1BADB002
  const NULL: nat := 0

  /** struct heap_block; the flags BLOCK_FREE and BLOCK_LAST are the two booleans. */
  datatype Header = Header(magic: nat, size: nat, free: bool, last: bool, next: nat, prev: nat)

  type Headers = map<nat, Header>

  /** A block of the heap; `size` includes the header. */
  datatype Blk = Blk(addr: nat, size: nat, free: bool)

  function EndOf(b: Blk): nat {
    b.addr + b.size
  }

  /** Block i + 1 begins where block i ends. */
  predicate Joined(order: seq<Blk>, i: nat)
    requires i < |order|
  {
    i + 1 < |order| ==> order[i + 1].addr == EndOf(order[i])
  }

  /** The blocks follow each other without gap or overlap, and each holds at least its header. */
  predicate Tiled(order: seq<Blk>) {
    && (forall i | 0 <= i < |order| :: order[i].size >= HEADER && order[i].addr > NULL)
    && (forall i: nat {:trigger Joined(order, i)} | i < |order| :: Joined(order, i))
  }

  /** Blocks in different places do not overlap. */
  lemma {:induction false} Ordered(order: seq<Blk>, i: nat, j: nat)
    requires Tiled(order) && i < j < |order|
    ensures EndOf(order[i]) <= order[j].addr
  {
    assert Joined(order, j - 1);
    if i < j - 1 {
      Ordered(order, i, j - 1);
    }
  }

  lemma Apart(order: seq<Blk>, i: nat, j: nat)
    requires Tiled(order) && i < |order| && j < |order| && i != j
    ensures EndOf(order[i]) <= order[j].addr || EndOf(order[j]) <= order[i].addr
    ensures order[i].addr != order[j].addr
  {
    if i < j {
      Ordered(order, i, j);
    } else {
      Ordered(order, j, i);
    }
  }

  /** What the header of block `i` must hold: next and prev are mutual inverses, and exactly the final block
      carries BLOCK_LAST. */
  function HeaderOf(order: seq<Blk>, i: nat): Header
    requires i < |order|
  {
    Header(MAGIC, order[i].size, order[i].free, i == |order| - 1,
           if i == |order| - 1 then NULL else order[i + 1].addr, if i == 0 then NULL else order[i - 1].addr)
  }

  predicate HeaderAt(headers: Headers, order: seq<Blk>, i: nat)
    requires i < |order|
  {
    order[i].addr in headers && headers[order[i].addr] == HeaderOf(order, i)
  }

  predicate Represents(headers: Headers, order: seq<Blk>) {
    forall i: nat {:trigger HeaderAt(headers, order, i)} | i < |order| :: HeaderAt(headers, order, i)
  }

  /** The two parts of a block cut after `size` bytes of payload; the rest is free. */
  function Front(b: Blk, size: nat): Blk {
    Blk(b.addr, size + HEADER, b.free)
  }

  function Rest(b: Blk, size: nat): Blk
    requires size + HEADER <= b.size
  {
    Blk(b.addr + size + HEADER, b.size - size - HEADER, true)
  }

  /** Block `i` cut after `size` bytes of payload. */
  function Split(order: seq<Blk>, i: nat, size: nat): (r: seq<Blk>)
    requires i < |order| && size + HEADER <= order[i].size
  {
    order[..i] + [Front(order[i], size), Rest(order[i], size)] + order[i + 1..]
  }

  /** Blocks `i` and `i + 1` made one, which keeps the flag of the first. */
  function Merged(order: seq<Blk>, i: nat): (r: seq<Blk>)
    requires i + 1 < |order|
    ensures |r| == |order| - 1
  {
    order[..i] + [Both(order[i], order[i + 1])] + order[i + 2..]
  }

  function Both(b: Blk, c: Blk): Blk {
    Blk(b.addr, b.size + c.size, b.free)
  }

  function Marked(order: seq<Blk>, i: nat, free: bool): (r: seq<Blk>)
    requires i < |order|
    ensures |r| == |order|
  {
    order[i := order[i].(free := free)]
  }

  /** How `r` arises from `order` by cutting block `i`, element by element. */
  ghost predicate Cut(order: seq<Blk>, r: seq<Blk>, i: nat, size: nat)
    requires i < |order| && size + HEADER <= order[i].size
  {
    && |r| == |order| + 1
    && (forall k | 0 <= k < i :: r[k] == order[k])
    && r[i] == Front(order[i], size) && r[i + 1] == Rest(order[i], size)
    && (forall k | i + 2 <= k < |r| :: r[k] == order[k - 1])
  }

  lemma SplitIsCut(order: seq<Blk>, i: nat, size: nat)
    requires i < |order| && size + HEADER <= order[i].size
    ensures Cut(order, Split(order, i, size), i, size)
  {
  }

  lemma CutTiled(order: seq<Blk>, r: seq<Blk>, i: nat, size: nat)
    requires Tiled(order) && i < |order| && size + HEADER + HEADER <= order[i].size && Cut(order, r, i, size)
    ensures Tiled(r)
  {
    forall k: nat | k < |r| ensures Joined(r, k) {
      if k <= i {
        assert Joined(order, k);
      } else {
        assert Joined(order, k - 1);
      }
    }
  }

  /** The headers after split_block: those of the cut block, of the rest, and of the block after it changed. */
  ghost predicate CutHeaders(headers: Headers, headers': Headers, a: nat, size: nat)
    requires a in headers && size + HEADER <= headers[a].size
  {
    var h, rest := headers[a], a + size + HEADER;
    && a in headers' && headers'[a] == h.(next := rest, size := size + HEADER, last := false)
    && rest in headers' && headers'[rest] == Header(MAGIC, h.size - size - HEADER, true, h.last, h.next, a)
    && (h.next in headers && h.next != NULL && h.next != rest && h.next != a ==>
          h.next in headers' && headers'[h.next] == headers[h.next].(prev := rest))
    && (forall x | x in headers && x != a && x != rest && x != h.next :: x in headers' && headers'[x] == headers[x])
  }

  lemma CutRepresents(headers: Headers, headers': Headers, order: seq<Blk>, r: seq<Blk>, i: nat, size: nat, k: nat)
    requires Tiled(order) && Represents(headers, order) && i < |order| && size + HEADER + HEADER <= order[i].size
    requires Cut(order, r, i, size) && k < |r|
    requires HeaderAt(headers, order, i) && CutHeaders(headers, headers', order[i].addr, size)
    ensures HeaderAt(headers', r, k)
  {
    assert Joined(order, i);
    if k < i {
      assert HeaderAt(headers, order, k);
      Ordered(order, k, i);
      if i + 1 < |order| {
        Ordered(order, k, i + 1);
      }
    } else if k > i + 1 {
      assert HeaderAt(headers, order, k - 1);
      Ordered(order, i, k - 1);
      if k > i + 2 {
        Ordered(order, i + 1, k - 1);
      }
    }
  }

  /** How `r` arises from `order` by joining blocks `i` and `i + 1`. */
  ghost predicate Glued(order: seq<Blk>, r: seq<Blk>, i: nat)
    requires i + 1 < |order|
  {
    && |r| == |order| - 1
    && (forall k | 0 <= k < i :: r[k] == order[k])
    && r[i] == Both(order[i], order[i + 1])
    && (forall k | i < k < |r| :: r[k] == order[k + 1])
  }

  lemma MergedIsGlued(order: seq<Blk>, i: nat)
    requires i + 1 < |order|
    ensures Glued(order, Merged(order, i), i)
  {
  }

  lemma GluedTiled(order: seq<Blk>, r: seq<Blk>, i: nat)
    requires Tiled(order) && i + 1 < |order| && Glued(order, r, i)
    ensures Tiled(r)
  {
    forall k: nat | k < |r| ensures Joined(r, k) {
      assert Joined(order, i);
      if k < i {
        assert Joined(order, k);
      } else {
        assert Joined(order, k + 1);
      }
    }
  }

  /** The headers after one turn of merge_free_blocks on the block at `a` and the block at `b` after it. */
  ghost predicate GluedHeaders(headers: Headers, headers': Headers, a: nat, b: nat)
    requires a in headers && b in headers
  {
    var h, n := headers[a], headers[b];
    && a in headers' && headers'[a] == h.(size := h.size + n.size, last := h.last || n.last, next := n.next)
    && (n.next in headers && n.next != NULL && n.next != a ==>
          n.next in headers' && headers'[n.next] == headers[n.next].(prev := a))
    && (forall x | x in headers && x != a && x != n.next :: x in headers' && headers'[x] == headers[x])
  }

  lemma GluedRepresents(headers: Headers, headers': Headers, order: seq<Blk>, r: seq<Blk>, i: nat, k: nat)
    requires Tiled(order) && Represents(headers, order) && i + 1 < |order| && Glued(order, r, i) && k < |r|
    requires HeaderAt(headers, order, i) && HeaderAt(headers, order, i + 1)
    requires GluedHeaders(headers, headers', order[i].addr, order[i + 1].addr)
    ensures HeaderAt(headers', r, k)
  {
    assert Joined(order, i) && Joined(order, i + 1);
    if k < i {
      assert HeaderAt(headers, order, k);
      Ordered(order, k, i);
      if i + 2 < |order| {
        Ordered(order, k, i + 2);
      }
    } else if k > i {
      assert HeaderAt(headers, order, k + 1);
      Ordered(order, i, k + 1);
      if k > i + 1 {
        Ordered(order, i + 2, k + 1);
      }
    }
  }

  /** Marking a block free or used. */
  lemma MarkedRepresents(headers: Headers, order: seq<Blk>, i: nat, free: bool)
    requires Tiled(order) && Represents(headers, order) && i < |order|
    ensures HeaderAt(headers, order, i)
    ensures var a := order[i].addr;
      Tiled(Marked(order, i, free)) && Represents(headers[a := headers[a].(free := free)], Marked(order, i, free))
  {
    var a, r := order[i].addr, Marked(order, i, free);
    assert HeaderAt(headers, order, i);
    var headers' := headers[a := headers[a].(free := free)];
    forall k: nat | k < |r| ensures Joined(r, k) && HeaderAt(headers', r, k) {
      assert Joined(order, k) && HeaderAt(headers, order, k);
      if k < i {
        Ordered(order, k, i);
      } else if k > i {
        Ordered(order, i, k);
      }
    }
  }

  /** A new last block behind the heap, as expand_heap links it. */
  function Extended(order: seq<Blk>, size: nat): seq<Blk>
    requires order != []
  {
    order + [Blk(EndOf(order[|order| - 1]), size, true)]
  }

  /** The headers after expand_heap linked a block at `rest` behind the one at `last`. */
  function ExtendMap(headers: Headers, last: nat, rest: nat, size: nat): Headers
    requires last in headers
  {
    headers[rest := Header(MAGIC, size, true, true, NULL, last)][last := headers[last].(last := false, next := rest)]
  }

  lemma ExtendedRepresents(headers: Headers, order: seq<Blk>, size: nat)
    requires Tiled(order) && Represents(headers, order) && order != [] && size >= HEADER
    ensures HeaderAt(headers, order, |order| - 1)
    ensures var last, rest := order[|order| - 1].addr, EndOf(order[|order| - 1]);
      Tiled(Extended(order, size)) && Represents(ExtendMap(headers, last, rest, size), Extended(order, size))
  {
    var last, rest, r := order[|order| - 1].addr, EndOf(order[|order| - 1]), Extended(order, size);
    assert HeaderAt(headers, order, |order| - 1);
    var headers' := ExtendMap(headers, last, rest, size);
    forall k: nat | k < |r| ensures Joined(r, k) && HeaderAt(headers', r, k) {
      if k < |order| {
        assert Joined(order, k) && HeaderAt(headers, order, k);
        if k < |order| - 1 {
          Ordered(order, k, |order| - 1);
        }
      }
    }
  }

  /** struct heap_stats; differences of statistics are also values of this type. */
  datatype Stats = Stats(totalSize: int, usedSize: int, freeSize: int, totalBlocks: int, freeBlocks: int)

  function Plus(s: Stats, t: Stats): Stats {
    Stats(s.totalSize + t.totalSize, s.usedSize + t.usedSize, s.freeSize + t.freeSize,
          s.totalBlocks + t.totalBlocks, s.freeBlocks + t.freeBlocks)
  }

  function One(b: Blk): Stats {
    if b.free then Stats(b.size, 0, b.size, 1, 1) else Stats(b.size, b.size, 0, 1, 0)
  }

  /** What the statistics of these blocks must be. */
  function StatsOf(order: seq<Blk>): Stats {
    if order == [] then Stats(0, 0, 0, 0, 0) else Plus(One(order[0]), StatsOf(order[1..]))
  }

  lemma PlusAssociates(s: Stats, t: Stats, u: Stats)
    ensures Plus(Plus(s, t), u) == Plus(s, Plus(t, u))
  {
  }

  lemma {:induction false} StatsConcat(a: seq<Blk>, b: seq<Blk>)
    ensures StatsOf(a + b) == Plus(StatsOf(a), StatsOf(b))
  {
    if a == [] {
      assert a + b == b;
    } else {
      var c := a + b;
      assert c[0] == a[0] && c[1..] == a[1..] + b;
      StatsConcat(a[1..], b);
      PlusAssociates(One(a[0]), StatsOf(a[1..]), StatsOf(b));
    }
  }

  lemma StatsOfThree(a: seq<Blk>, mid: seq<Blk>, c: seq<Blk>)
    ensures StatsOf(a + mid + c) == Plus(Plus(StatsOf(a), StatsOf(mid)), StatsOf(c))
  {
    StatsConcat(a + mid, c);
    StatsConcat(a, mid);
  }

  /** Replacing a part of the list changes the statistics by the difference of the parts. */
  lemma StatsReplaced(order: seq<Blk>, order': seq<Blk>, a: seq<Blk>, mid: seq<Blk>, mid': seq<Blk>, c: seq<Blk>,
                      change: Stats)
    requires order == a + mid + c && order' == a + mid' + c
    requires StatsOf(mid') == Plus(StatsOf(mid), change)
    ensures StatsOf(order') == Plus(StatsOf(order), change)
  {
    StatsOfThree(a, mid, c);
    StatsOfThree(a, mid', c);
    PlusReorders(StatsOf(a), StatsOf(mid), change, StatsOf(c));
  }

  lemma PlusReorders(s: Stats, t: Stats, u: Stats, v: Stats)
    ensures Plus(Plus(s, Plus(t, u)), v) == Plus(Plus(Plus(s, t), v), u)
  {
  }

  lemma StatsOfOne(b: Blk)
    ensures StatsOf([b]) == One(b)
  {
    assert [b][1..] == [];
  }

  lemma StatsOfTwo(b: Blk, c: Blk)
    ensures StatsOf([b, c]) == Plus(One(b), One(c))
  {
    StatsOfOne(c);
    assert [b, c][1..] == [c];
  }

  function SplitChange(free: bool, rest: int): Stats {
    if free then Stats(0, 0, 0, 1, 1) else Stats(0, -rest, rest, 1, 1)
  }

  lemma CutStats(b: Blk, first: Blk, second: Blk)
    requires first.size + second.size == b.size && first.free == b.free && second.free
    ensures StatsOf([first, second]) == Plus(StatsOf([b]), SplitChange(b.free, second.size))
  {
    StatsOfOne(b);
    StatsOfTwo(first, second);
  }

  lemma SplitStats(order: seq<Blk>, i: nat, size: nat)
    requires i < |order| && size + HEADER <= order[i].size
    ensures StatsOf(Split(order, i, size))
      == Plus(StatsOf(order), SplitChange(order[i].free, Rest(order[i], size).size))
  {
    var b := order[i];
    CutStats(b, Front(b, size), Rest(b, size));
    StatsReplaced(order, Split(order, i, size), order[..i], [b], [Front(b, size), Rest(b, size)], order[i + 1..],
                  SplitChange(b.free, Rest(b, size).size));
  }

  function MergeChange(free: bool, size: int): Stats {
    if free then Stats(0, 0, 0, -1, -1) else Stats(0, size, -size, -1, -1)
  }

  lemma GlueStats(b: Blk, c: Blk)
    requires c.free
    ensures StatsOf([Both(b, c)]) == Plus(StatsOf([b, c]), MergeChange(b.free, c.size))
  {
    StatsOfTwo(b, c);
    StatsOfOne(Both(b, c));
  }

  lemma MergedStats(order: seq<Blk>, i: nat)
    requires i + 1 < |order| && order[i + 1].free
    ensures StatsOf(Merged(order, i)) == Plus(StatsOf(order), MergeChange(order[i].free, order[i + 1].size))
  {
    var b, c := order[i], order[i + 1];
    GlueStats(b, c);
    StatsReplaced(order, Merged(order, i), order[..i], [b, c], [Both(b, c)], order[i + 2..],
                  MergeChange(b.free, c.size));
  }

  function MarkChange(free: bool, size: int): Stats {
    if free then Stats(0, -size, size, 0, 1) else Stats(0, size, -size, 0, -1)
  }

  lemma MarkedStats(order: seq<Blk>, i: nat, free: bool)
    requires i < |order| && order[i].free != free
    ensures StatsOf(Marked(order, i, free)) == Plus(StatsOf(order), MarkChange(free, order[i].size))
  {
    var b := order[i];
    var b' := b.(free := free);
    StatsOfOne(b);
    StatsOfOne(b');
    StatsReplaced(order, Marked(order, i, free), order[..i], [b], [b'], order[i + 1..], MarkChange(free, b.size));
  }

  lemma ExtendedStats(order: seq<Blk>, size: nat)
    requires order != []
    ensures StatsOf(Extended(order, size)) == Plus(StatsOf(order), Stats(size, 0, size, 1, 1))
  {
    var b := Blk(EndOf(order[|order| - 1]), size, true);
    StatsOfOne(b);
    StatsConcat(order, [b]);
  }

  /** The heap is as large as the sum of its blocks. */
  lemma {:induction false} Extent(order: seq<Blk>, n: nat)
    requires Tiled(order) && 0 < n <= |order|
    ensures StatsOf(order[..n]).totalSize == EndOf(order[n - 1]) - order[0].addr
    ensures EndOf(order[n - 1]) <= EndOf(order[|order| - 1])
  {
    if n < |order| {
      Ordered(order, n - 1, |order| - 1);
    }
    StatsOfOne(order[n - 1]);
    StatsConcat(order[..n - 1], [order[n - 1]]);
    assert order[..n - 1] + [order[n - 1]] == order[..n];
    if n > 1 {
      Extent(order, n - 1);
      assert Joined(order, n - 2);
    }
  }

  const SIZE_SPAN: nat := 0x1_0000_0000               // sizes are 32 bits wide

  function Wrapped(s: Stats): Stats {
    Stats(s.totalSize % WORD_SPAN, s.usedSize % WORD_SPAN, s.freeSize % WORD_SPAN,
          s.totalBlocks % WORD_SPAN, s.freeBlocks % WORD_SPAN)
  }

  lemma {:induction false} StatsBounds(order: seq<Blk>)
    requires forall i | 0 <= i < |order| :: order[i].size >= HEADER
    ensures var s := StatsOf(order);
      && 0 <= s.usedSize <= s.totalSize && 0 <= s.freeSize <= s.totalSize
      && 0 <= s.freeBlocks <= s.totalBlocks <= s.totalSize
  {
    if order != [] {
      StatsBounds(order[1..]);
    }
  }

  /** The statistics of a heap below 4 GiB never wrap. */
  lemma StatsDoNotWrap(order: seq<Blk>)
    requires (forall i | 0 <= i < |order| :: order[i].size >= HEADER) && StatsOf(order).totalSize < WORD_SPAN
    ensures Wrapped(StatsOf(order)) == StatsOf(order)
  {
    StatsBounds(order);
  }

  /** merge_free_blocks: block `i` swallows the free blocks behind it. */
  function MergeRun(order: seq<Blk>, i: nat): (r: seq<Blk>)
    requires i < |order|
    ensures i < |r| <= |order|
    decreases |order|
  {
    if i + 1 < |order| && order[i + 1].free then MergeRun(Merged(order, i), i) else order
  }

  /** Nothing before block `i` changes, block `i` keeps address and flag, and the block behind it is used. */
  lemma {:induction false} MergeRunShape(order: seq<Blk>, i: nat)
    requires i < |order|
    ensures var r := MergeRun(order, i);
      && r[..i] == order[..i] && r[i].addr == order[i].addr && r[i].free == order[i].free && r[i].size >= order[i].size
      && (i + 1 < |r| ==> !r[i + 1].free)
      && r[i + 1..] == order[|order| - |r| + i + 1..]
      && forall k | i < k <= |order| - |r| + i :: order[k].free
    decreases |order|
  {
    if i + 1 < |order| && order[i + 1].free {
      var m := Merged(order, i);
      MergeRunShape(m, i);
      MergedIsGlued(order, i);
      var r := MergeRun(order, i);
      assert m[|m| - |r| + i + 1..] == order[|order| - |r| + i + 1..];
      assert m[..i] == order[..i];
      forall k | i < k <= |order| - |r| + i ensures order[k].free {
        if k > i + 1 {
          assert m[k - 1] == order[k];
        }
      }
    }
  }

  /** heap_alloc on block `i`: split it if the rest is large enough, and mark it used. */
  function Taken(order: seq<Blk>, i: nat, size: nat): (r: seq<Blk>)
    requires i < |order| && size + HEADER <= order[i].size
  {
    Marked(MaybeSplit(order, i, size), i, false)
  }

  /** split_block */
  function MaybeSplit(order: seq<Blk>, i: nat, size: nat): (r: seq<Blk>)
    requires i < |order| && size + HEADER <= order[i].size
    ensures |r| >= |order|
  {
    if order[i].size - size - HEADER < HEADER then order else Split(order, i, size)
  }

  /** heap_free on block `i`: mark it free and merge it with the free blocks around it. */
  function Released(order: seq<Blk>, i: nat): (r: seq<Blk>)
    requires i < |order|
  {
    MergedAround(Marked(order, i, true), i)
  }

  function MergedAround(order: seq<Blk>, i: nat): (r: seq<Blk>)
    requires i < |order|
  {
    MergedBefore(MergeRun(order, i), i)
  }

  /** The block before block `i` swallows it, if both are free. */
  function MergedBefore(order: seq<Blk>, i: nat): (r: seq<Blk>)
    requires i < |order|
  {
    if i > 0 && order[i - 1].free then MergeRun(order, i - 1) else order
  }

  /** No two neighbours are both free. */
  predicate Coalesced(order: seq<Blk>) {
    forall k: nat {:trigger NotBothFree(order, k)} | k + 1 < |order| :: NotBothFree(order, k)
  }

  predicate NotBothFree(order: seq<Blk>, k: nat)
    requires k + 1 < |order|
  {
    !order[k].free || !order[k + 1].free
  }

  lemma TakenCoalesced(order: seq<Blk>, i: nat, size: nat)
    requires i < |order| && size + HEADER <= order[i].size
    requires forall k: nat {:trigger NotBothFree(order, k)} | k + 1 < |order| && k + 1 != i :: NotBothFree(order, k)
    requires order[i].free
    ensures Coalesced(Taken(order, i, size))
  {
    var r := Taken(order, i, size);
    SplitIsCut(order, i, size);
    forall k: nat | k + 1 < |r| ensures NotBothFree(r, k) {
      if k + 1 < i {
        assert NotBothFree(order, k);
      } else if k > i {
        if |r| == |order| {
          assert NotBothFree(order, k);
        } else {
          assert NotBothFree(order, k - 1);
        }
      }
    }
  }

  lemma ReleasedCoalesced(order: seq<Blk>, i: nat)
    requires i < |order| && Coalesced(order) && !order[i].free
    ensures Coalesced(Released(order, i))
  {
    var marked := Marked(order, i, true);
    var merged := MergeRun(marked, i);
    MergeRunShape(marked, i);
    var shift := |order| - |merged|;
    forall k: nat | k + 1 < |merged| && k + 1 != i ensures NotBothFree(merged, k) {
      if k + 1 < i {
        assert NotBothFree(order, k);
        assert merged[..i][k] == marked[..i][k] && merged[..i][k + 1] == marked[..i][k + 1];
      } else if k > i {
        assert NotBothFree(order, k + shift);
        assert merged[i + 1..][k - i - 1] == merged[k] && merged[i + 1..][k - i] == merged[k + 1];
      }
    }
    if i > 0 {
      assert merged[..i][i - 1] == marked[..i][i - 1];
      if merged[i - 1].free {
        PrevMerged(merged, i);
      }
    }
  }

  lemma PrevMerged(merged: seq<Blk>, i: nat)
    requires 0 < i < |merged| && merged[i].free && merged[i - 1].free
    requires forall k: nat {:trigger NotBothFree(merged, k)} | k + 1 < |merged| && k + 1 != i :: NotBothFree(merged, k)
    ensures Coalesced(MergeRun(merged, i - 1))
  {
    var m := Merged(merged, i - 1);
    MergedIsGlued(merged, i - 1);
    if i < |m| {
      assert NotBothFree(merged, i) && m[i] == merged[i + 1];
    }
    assert MergeRun(merged, i - 1) == m;
    forall k: nat | k + 1 < |m| ensures NotBothFree(m, k) {
      if k + 1 < i {
        assert NotBothFree(merged, k);
      } else {
        assert NotBothFree(merged, k + 1);
      }
    }
  }
}
