/** The kernel heap of kernel/src/mm/heap.c: a doubly linked list of blocks with headers in memory. */
module Heap {
  import opened Machine
  import opened HeapBlocks
  import opened Options

  /** The bytes whose values are known. Writing a header makes the bytes it covers unknown. */
  type Memory = map<nat, byte>

  function Byte(mem: Memory, p: nat): Option<byte> {
    if p in mem then Some(mem[p]) else None
  }

  /** The memory after a header was written at `a`. */
  function Covered(mem: Memory, a: nat): Memory {
    map p | p in mem && !(a <= p < a + HEADER) :: mem[p]
  }

  ghost predicate Kept(mem0: Memory, mem: Memory, lo: nat, hi: nat) {
    forall p: nat {:trigger Byte(mem, p)} | lo <= p < hi :: Byte(mem, p) == Byte(mem0, p)
  }

  ghost predicate PayloadKept(mem0: Memory, mem: Memory, b: Blk) {
    Kept(mem0, mem, b.addr + HEADER, EndOf(b))
  }

  /** The payloads of all blocks but `except` are unchanged. */
  ghost predicate PayloadsKept(order: seq<Blk>, mem0: Memory, mem: Memory, except: int) {
    forall k | 0 <= k < |order| && k != except :: PayloadKept(mem0, mem, order[k])
  }

  /** A header placed inside the payload of block `i`, after its first `size` bytes. */
  lemma InnerCells(mem: Memory, order: seq<Blk>, i: nat, size: nat)
    requires Tiled(order) && i < |order| && size + HEADER + HEADER <= order[i].size
    ensures var mem' := Covered(mem, order[i].addr + size + HEADER);
      PayloadsKept(order, mem, mem', i) && Kept(mem, mem', order[i].addr + HEADER, order[i].addr + HEADER + size)
  {
    forall k | 0 <= k < |order| && k != i
      ensures PayloadKept(mem, Covered(mem, order[i].addr + size + HEADER), order[k])
    {
      if k < i {
        Ordered(order, k, i);
      } else {
        Ordered(order, i, k);
      }
    }
  }

  /** (size + 7) & ~7 on 64-bit words. */
  function AlignUp(size: nat): nat {
    (size + 7) % WORD_SPAN / 8 * 8
  }

  /** The block has room for `size` bytes. */
  predicate Fits(b: Blk, size: nat) {
    b.free && b.size >= size + HEADER
  }

  predicate NoneFits(order: seq<Blk>, n: nat, size: nat)
    requires n <= |order|
  {
    forall k | 0 <= k < n :: !Fits(order[k], size)
  }

  /** What find_free_block tests, in 64 bits. */
  predicate Passes(b: Blk, size: nat) {
    b.free && b.size >= (size + HEADER) % WORD_SPAN
  }

  predicate NonePasses(order: seq<Blk>, n: nat, size: nat)
    requires n <= |order|
  {
    forall k | 0 <= k < n :: !Passes(order[k], size)
  }

  /** The size of the block expand_heap appends, on 64-bit words. */
  function Growth(size: nat): nat {
    (size + HEADER + PAGE_SIZE - 1) % WORD_SPAN / PAGE_SIZE * PAGE_SIZE
  }

  /** Neither of the two sums for an aligned size wraps. */
  predicate SumsFit(aligned: nat) {
    aligned + HEADER + PAGE_SIZE - 1 < WORD_SPAN
  }

  /** The requests for which none of the size computations of heap_alloc wraps. */
  predicate Servable(size: nat) {
    size <= WORD_SPAN - 4128
  }

  lemma ServableMeans(size: nat)
    requires size < WORD_SPAN
    ensures Servable(size) <==> AlignUp(size) >= size && SumsFit(AlignUp(size))
  {
  }

  /** While the sums fit, the test is for room, and the heap grows by enough. */
  lemma SumsAreExact(order: seq<Blk>, aligned: nat)
    requires SumsFit(aligned)
    ensures forall k | 0 <= k < |order| :: Passes(order[k], aligned) <==> Fits(order[k], aligned)
    ensures Growth(aligned) >= aligned + HEADER
  {
  }

  /** heap_realloc to `size` bytes finds the room it needs in the free blocks behind block `i`. */
  predicate GrowsInPlace(order: seq<Blk>, i: nat, size: nat)
    requires i < |order|
  {
    && order[i].size < size + HEADER
    && i + 1 < |order| && order[i + 1].free && order[i].size + order[i + 1].size >= size + HEADER
  }

  /** heap_realloc to `size` bytes cuts block `i`. */
  predicate ShrinksInPlace(order: seq<Blk>, i: nat, size: nat)
    requires i < |order|
  {
    size + HEADER + HEADER <= order[i].size
  }

  predicate StaysInPlace(order: seq<Blk>, i: nat, size: nat)
    requires i < |order|
  {
    size + HEADER <= order[i].size || GrowsInPlace(order, i, size)
  }

  /** The list after heap_realloc resized block `i` in place. */
  function Resized(order: seq<Blk>, i: nat, size: nat): seq<Blk>
    requires i < |order|
  {
    var run := if size + HEADER <= order[i].size then order else MergeRun(order, i);
    if size + HEADER <= run[i].size then MaybeSplit(run, i, size) else run
  }

  /** No used block but block `i` is at the address of `b`. */
  ghost predicate NotAnother(order: seq<Blk>, b: Blk, i: int) {
    forall k | 0 <= k < |order| && k != i && !order[k].free :: order[k].addr != b.addr
  }

  class Heap {
    var headers: Headers
    var mem: Memory
    var start: nat
    var stats: Stats
    ghost var order: seq<Blk>

    ghost predicate Valid()
      reads this
    {
      && order != [] && order[0].addr == start < SIZE_SPAN && Tiled(order) && Represents(headers, order)
      && StatsOf(order).totalSize < SIZE_SPAN
    }

    /** The statistics are right and free blocks are coalesced: kept by heap_alloc and heap_free. */
    ghost predicate Consistent()
      reads this
    {
      Valid() && stats == StatsOf(order) && Coalesced(order)
    }

    /** heap_init, with the page it got, which lies below 4 GiB. */
    constructor (page: nat)
      requires NULL < page < SIZE_SPAN
      ensures Consistent() && order == [Blk(page, PAGE_SIZE, true)]
    {
      headers := map[page := Header(MAGIC, PAGE_SIZE, true, true, NULL, NULL)];
      mem := map[];
      start := page;
      stats := Stats(PAGE_SIZE, 0, PAGE_SIZE, 1, 1);
      order := [Blk(page, PAGE_SIZE, true)];
      new;
      StatsOfOne(order[0]);
    }

    /** find_free_block: the first block that passes the 64-bit test. */
    method FindFreeBlock(size: nat) returns (r: nat, ghost i: nat)
      requires Valid()
      ensures i <= |order| && NonePasses(order, i, size)
      ensures r == NULL <==> NonePasses(order, |order|, size)
      ensures r != NULL ==> i < |order| && r == order[i].addr && Passes(order[i], size)
      ensures r == NULL ==> i == |order|
    {
      r := start;
      i := 0;
      while r != NULL
        invariant i < |order| && r == order[i].addr && NonePasses(order, i, size)
        decreases |order| - i
      {
        assert HeaderAt(headers, order, i);
        if headers[r].free && headers[r].size >= (size + HEADER) % WORD_SPAN {
          return;
        }
        if headers[r].last {
          break;
        }
        r := headers[r].next;
        i := i + 1;
      }
      return NULL, |order|;
    }

    /** Block `i`, at address `a`, has room for `size` bytes. */
    ghost predicate Roomy(a: nat, size: nat, i: nat)
      reads this
    {
      Valid() && i < |order| && a == order[i].addr && size + HEADER <= order[i].size
    }

    /** There is a header at `a`, and its link leads to a header. */
    predicate Headed(a: nat)
      reads this
    {
      a in headers && headers[a].size < SIZE_SPAN && (headers[a].next != NULL ==> headers[a].next in headers)
    }

    /** split_block, on block `i` at address `a`. Nothing is promised if the block has no room for `size` bytes. */
    method SplitBlock(a: nat, size: nat, ghost i: nat)
      requires Headed(a)
      modifies this
      ensures a in headers && headers[a].size < SIZE_SPAN
      ensures old(Roomy(a, size, i)) ==> Valid() && order == MaybeSplit(old(order), i, size)
      ensures old(Roomy(a, size, i)) ==>
        stats == if |order| == |old(order)| then old(stats) else Wrapped(Plus(old(stats), Stats(0, 0, 0, 1, 1)))
      ensures old(Roomy(a, size, i)) ==>
        PayloadsKept(old(order), old(mem), mem, i) && Kept(old(mem), mem, a + HEADER, a + HEADER + size)
    {
      if Roomy(a, size, i) {
        assert HeaderAt(headers, order, i);
      }
      var remaining := (headers[a].size - size - HEADER) % WORD_SPAN;
      if remaining >= HEADER {
        CutBlock(a, size, remaining, i);
      }
    }

    /** The part of split_block that sets up the new block. */
    method CutBlock(a: nat, size: nat, remaining: nat, ghost i: nat)
      requires Headed(a)
      modifies this
      ensures a in headers && headers[a].size < SIZE_SPAN
      ensures old(Exactly(a, size, remaining, i)) ==>
        Valid() && order == Split(old(order), i, size) && |order| == |old(order)| + 1
      ensures stats == Wrapped(Plus(old(stats), Stats(0, 0, 0, 1, 1)))
      ensures old(Exactly(a, size, remaining, i)) ==>
        PayloadsKept(old(order), old(mem), mem, i) && Kept(old(mem), mem, a + HEADER, a + HEADER + size)
    {
      ghost var headers0 := headers;
      var rest, front, kept := (a + size + HEADER) % WORD_SPAN, (size + HEADER) % SIZE_SPAN, remaining % SIZE_SPAN;
      if Exactly(a, size, remaining, i) {
        PlaceFits(order, i, size);
        InnerCells(mem, order, i, size);
        CutKeeps(headers, order, i, size, a, rest, front, kept);
        order := Split(order, i, size);
      }
      var h := headers[a];
      headers := headers[rest := Header(MAGIC, kept, true, h.last, h.next, a)];
      if h.next != NULL {
        headers := headers[h.next := headers[h.next].(prev := rest)];
      }
      headers := headers[a := h.(next := rest, size := front, last := false)];
      mem := Covered(mem, rest);
      stats := Wrapped(Plus(stats, Stats(0, 0, 0, 1, 1)));
      assert headers == CutMap(headers0, a, rest, front, kept);
    }

    ghost predicate Exactly(a: nat, size: nat, remaining: nat, i: nat)
      reads this
    {
      && Valid() && i < |order| && a == order[i].addr
      && remaining >= HEADER && size + HEADER + remaining == order[i].size
    }

    /** One turn of merge_free_blocks: block `i` at address `a` swallows the block behind it. */
    method MergeNext(a: nat, ghost i: nat)
      requires Valid() && i + 1 < |order| && a == order[i].addr && order[i + 1].free
      modifies this`headers, this`stats, this`order
      ensures Valid() && order == Merged(old(order), i)
      ensures stats == Wrapped(Plus(old(stats), Stats(0, 0, 0, -1, -1)))
    {
      NextHeader(headers, order, i);
      NextHeader(headers, order, i + 1);
      ghost var headers0 := headers;
      var h := headers[a];
      var n := headers[h.next];
      PairFits(order, i);
      headers := headers[a := h.(size := (h.size + n.size) % SIZE_SPAN, last := h.last || n.last, next := n.next)];
      if n.next != NULL {
        headers := headers[n.next := headers[n.next].(prev := a)];
      }
      stats := Wrapped(Plus(stats, Stats(0, 0, 0, -1, -1)));
      GluedKeeps(headers0, headers, order, i);
      order := Merged(order, i);
    }

    /** merge_free_blocks, on block `i` at address `a`. */
    method MergeFreeBlocks(a: nat, ghost i: nat)
      requires Valid() && i < |order| && a == order[i].addr
      modifies this`headers, this`stats, this`order
      ensures Valid() && order == MergeRun(old(order), i)
      ensures stats == MergedCount(old(stats), |old(order)| - |order|)
    {
      ghost var order0, stats0 := order, stats;
      NextHeader(headers, order, i);
      while headers[a].next != NULL && headers[headers[a].next].free
        invariant Valid() && i < |order| <= |order0| && a == order[i].addr && MergeRun(order, i) == MergeRun(order0, i)
        invariant stats == MergedCount(stats0, |order0| - |order|)
        invariant a in headers && (headers[a].next != NULL ==> headers[a].next in headers)
        invariant headers[a].next != NULL && headers[headers[a].next].free <==> i + 1 < |order| && order[i + 1].free
        decreases |order|
      {
        MergeNext(a, i);
        NextHeader(headers, order, i);
      }
    }

    /** The walk to the last block in expand_heap. */
    method LastBlock() returns (last: nat)
      requires Valid()
      ensures last == order[|order| - 1].addr
    {
      last := start;
      ghost var i := 0;
      assert HeaderAt(headers, order, i);
      while !headers[last].last
        invariant i < |order| && last == order[i].addr && HeaderAt(headers, order, i)
        decreases |order| - i
      {
        NextHeader(headers, order, i);
        last := headers[last].next;
        i := i + 1;
      }
    }

    /** The part of expand_heap that sets up and links the new block, `size` bytes behind the last one. Nothing is
        promised of the list if the block cannot hold its own header. */
    method Append(last: nat, size: nat) returns (rest: nat)
      requires Valid() && last == order[|order| - 1].addr && size < SIZE_SPAN
      requires EndOf(order[|order| - 1]) - start + size < SIZE_SPAN
      modifies this
      ensures rest != NULL && Headed(rest)
      ensures size >= HEADER ==> Valid() && order == Extended(old(order), size) && rest == order[|old(order)|].addr
      ensures stats == Wrapped(Plus(old(stats), Stats(size, 0, size, 1, 1)))
      ensures size >= HEADER ==> PayloadsKept(old(order), old(mem), mem, -1)
    {
      assert HeaderAt(headers, order, |order| - 1);
      ghost var headers0 := headers;
      if size >= HEADER {
        ExtendKeeps(headers, order, size);
        BeyondEnd(mem, order);
        order := Extended(order, size);
      }
      var h := headers[last];
      rest := last + h.size;
      headers := headers[rest := Header(MAGIC, size % SIZE_SPAN, true, true, NULL, last)];
      headers := headers[last := h.(last := false, next := rest)];
      assert headers == ExtendMap(headers0, last, rest, size);
      mem := Covered(mem, rest);
      stats := Wrapped(Plus(stats, Stats(size, 0, size, 1, 1)));
    }

    /** expand_heap. Getting and mapping the pages may fail (when it does is HeapGrowth.ExpandHeap); as each page of the
        heap holds one of the 2^20 frames, it fails when the heap would reach 4 GiB. */
    method ExpandHeap(size: nat) returns (r: nat)
      requires Valid()
      modifies this
      ensures r == NULL ==> Valid() && order == old(order) && stats == old(stats) && mem == old(mem)
      ensures r != NULL ==> Headed(r)
      ensures Growth(size) >= HEADER ==> Valid() && PayloadsKept(old(order), old(mem), mem, -1)
      ensures r != NULL && Growth(size) >= HEADER ==>
        order == Extended(old(order), Growth(size)) && r == order[|old(order)|].addr
      ensures r != NULL ==> stats == Wrapped(Plus(old(stats), Stats(Growth(size), 0, Growth(size), 1, 1)))
    {
      var last := LastBlock();
      assert HeaderAt(headers, order, |order| - 1);
      Extent(order, 1);
      var granted: bool := *;
      if !granted || last + headers[last].size - start + Growth(size) >= SIZE_SPAN {
        return NULL;
      }
      r := Append(last, Growth(size));
    }

    /** The end of heap_alloc on block `i` at address `a`: split it, mark it used, and count it. */
    method TakeBlock(a: nat, size: nat, ghost i: nat)
      requires Headed(a)
      modifies this
      ensures a in headers && headers[a].size < SIZE_SPAN
      ensures old(Takes(a, size, i)) ==> Valid() && order == Taken(old(order), i, size)
      ensures old(Takes(a, size, i)) && old(stats) == StatsOf(old(order)) ==> stats == StatsOf(order)
      ensures old(Takes(a, size, i)) ==> PayloadsKept(old(order), old(mem), mem, i)
    {
      ghost var order0, stats0, takes := order, stats, Takes(a, size, i);
      SplitBlock(a, size, i);
      if takes {
        MaybeSplitAt(order0, i, size);
        MarkedRepresents(headers, order, i, false);
        MarkKeeps(order, i, false);
        if stats0 == StatsOf(order0) {
          SplitCount(order0, i, size, stats);
          MarkCount(order, i, false, stats);
        }
        order := Marked(order, i, false);
      }
      headers := headers[a := headers[a].(free := false)];
      stats := Wrapped(Plus(stats, MarkChange(false, headers[a].size)));
    }

    ghost predicate Takes(a: nat, size: nat, i: nat)
      reads this
    {
      Valid() && i < |order| && a == order[i].addr && Fits(order[i], size)
    }

    /** heap_alloc. As long as the sums for the aligned size fit in 64 bits, it takes the first block with room and
        grows the heap only when there is none. The block it returns holds the request exactly for the servable
        sizes; for the others it returns one that does not, whenever a free block passes the wrapped test. */
    method Alloc(size: nat) returns (ptr: nat, ghost i: nat)
      requires Valid() && size < WORD_SPAN
      modifies this
      ensures SumsFit(AlignUp(size)) ==> Valid() && Allocated(old(order), old(mem), order, mem, size, ptr, i)
      ensures SumsFit(AlignUp(size)) && old(stats) == StatsOf(old(order)) ==> stats == StatsOf(order)
      ensures SumsFit(AlignUp(size)) && Coalesced(old(order)) ==> Coalesced(order)
      ensures ptr == NULL ==> Valid() && order == old(order) && stats == old(stats) && mem == old(mem)
      ensures ptr != NULL ==>
        ptr >= HEADER && ptr - HEADER in headers
        && (headers[ptr - HEADER].size >= size + HEADER <==> Servable(size))
      ensures size != 0 && !NonePasses(old(order), |old(order)|, AlignUp(size)) ==> ptr != NULL
    {
      i := 0;
      if size == 0 {
        return NULL, i;
      }
      ServableMeans(size);
      var block;
      block, i := AllocAligned(AlignUp(size));
      ptr := if block == NULL then NULL else block + HEADER;
    }

    /** heap_alloc after the alignment. */
    method AllocAligned(aligned: nat) returns (block: nat, ghost i: nat)
      requires Valid()
      modifies this
      ensures SumsFit(aligned) ==> Valid() && AlignedTaken(old(order), old(mem), order, mem, aligned, block, i)
      ensures SumsFit(aligned) && old(stats) == StatsOf(old(order)) ==> stats == StatsOf(order)
      ensures SumsFit(aligned) && Coalesced(old(order)) ==> Coalesced(order)
      ensures block == NULL ==> Valid() && order == old(order) && stats == old(stats) && mem == old(mem)
      ensures block != NULL ==> block in headers && headers[block].size < SIZE_SPAN
      ensures block != NULL && SumsFit(aligned) ==> headers[block].size >= aligned + HEADER
      ensures !NonePasses(old(order), |old(order)|, aligned) ==> block != NULL
    {
      ghost var order0, mem0 := order, mem;
      block, i := ObtainBlock(aligned);
      if block != NULL {
        ghost var base, mem1 := order, mem;
        TakeBlock(block, aligned, i);
        if SumsFit(aligned) {
          KeptTwice(order0, base, mem0, mem1, mem, i);
          MaybeSplitAt(base, i, aligned);
          assert HeaderAt(headers, order, i);
          if Coalesced(order0) {
            OnlyTheTaken(order0, base, i, aligned);
          }
        }
      }
    }

    /** The search of heap_alloc, and the growth of the heap if it finds nothing. */
    method ObtainBlock(aligned: nat) returns (block: nat, ghost i: nat)
      requires Valid()
      modifies this
      ensures i <= |old(order)| && NonePasses(old(order), i, aligned)
      ensures block == NULL ==> Valid() && order == old(order) && stats == old(stats) && mem == old(mem)
      ensures block == NULL ==> i == |order|
      ensures block != NULL ==> Headed(block)
      ensures block != NULL && SumsFit(aligned) ==>
        Takes(block, aligned, i) && order == BaseOf(old(order), i, aligned)
        && PayloadsKept(old(order), old(mem), mem, -1)
      ensures SumsFit(aligned) ==> NoneFits(old(order), i, aligned)
      ensures SumsFit(aligned) && old(stats) == StatsOf(old(order)) ==> stats == StatsOf(order)
      ensures !NonePasses(old(order), |old(order)|, aligned) ==> block != NULL
    {
      ghost var order0 := order;
      if SumsFit(aligned) {
        SumsAreExact(order, aligned);
      }
      block, i := FindFreeBlock(aligned);
      if block != NULL {
        NextHeader(headers, order, i);
        SizeInSpan(order, i);
      } else {
        block := ExpandHeap(aligned);
        if block != NULL && SumsFit(aligned) {
          ExtendedStats(order0, Growth(aligned));
          StatsDoNotWrap(order);
        }
      }
    }

    /** A pointer heap_alloc returned for block `i`, which is still in use. */
    ghost predicate Live(ptr: nat, i: nat)
      reads this
    {
      i < |order| && !order[i].free && ptr == order[i].addr + HEADER
    }

    /** The beginning of heap_free: mark block `i` at address `a` free and count it. */
    method MarkFree(a: nat, ghost i: nat)
      requires Valid() && i < |order| && a == order[i].addr && !order[i].free
      modifies this`headers, this`stats, this`order
      ensures Valid() && order == Marked(old(order), i, true)
      ensures old(stats) == StatsOf(old(order)) ==> stats == StatsOf(order)
    {
      MarkedRepresents(headers, order, i, true);
      MarkKeeps(order, i, true);
      if stats == StatsOf(order) {
        MarkCount(order, i, true, stats);
      }
      headers := headers[a := headers[a].(free := true)];
      order := Marked(order, i, true);
      stats := Wrapped(Plus(stats, MarkChange(true, headers[a].size)));
    }

    /** The merges of heap_free, around the free block `i` at address `a`. */
    method MergeAround(a: nat, ghost i: nat)
      requires Valid() && i < |order| && a == order[i].addr && order[i].free
      modifies this`headers, this`stats, this`order
      ensures Valid() && order == MergedAround(old(order), i)
      ensures old(stats) == StatsOf(old(order)) ==> stats == StatsOf(order)
    {
      ghost var order1, stats1 := order, stats;
      MergeFreeBlocks(a, i);
      MergeRunShape(order1, i);
      if stats1 == StatsOf(order1) {
        MergeRunCount(order1, i);
      }
      MergeBefore(a, i);
    }

    /** heap_free, of a live pointer or NULL. */
    method Free(ptr: nat, ghost i: nat)
      requires Valid() && (ptr != NULL ==> Live(ptr, i))
      modifies this`headers, this`stats, this`order
      ensures Valid()
      ensures order == if ptr == NULL then old(order) else Released(old(order), i)
      ensures ptr == NULL ==> headers == old(headers) && stats == old(stats)
      ensures old(stats) == StatsOf(old(order)) ==> stats == StatsOf(order)
      ensures Coalesced(old(order)) ==> Coalesced(order)
    {
      if ptr == NULL {
        return;
      }
      var a := ptr - HEADER;
      assert HeaderAt(headers, order, i);
      if headers[a].magic != MAGIC {
        return;
      }
      if Coalesced(order) {
        ReleasedCoalesced(order, i);
      }
      MarkFree(a, i);
      MergeAround(a, i);
    }

    /** The second merge of heap_free: if the block before block `i` is free, it swallows block `i`. */
    method MergeBefore(a: nat, ghost i: nat)
      requires Valid() && i < |order| && a == order[i].addr
      modifies this`headers, this`stats, this`order
      ensures Valid()
      ensures order == MergedBefore(old(order), i)
      ensures old(stats) == StatsOf(old(order)) ==> stats == StatsOf(order)
    {
      assert HeaderAt(headers, order, i);
      var prev := headers[a].prev;
      if i > 0 {
        assert HeaderAt(headers, order, i - 1);
      }
      if prev != NULL && headers[prev].free {
        if stats == StatsOf(order) {
          MergeRunCount(order, i - 1);
        }
        MergeFreeBlocks(prev, i - 1);
      }
    }

    /** heap_check: true exactly when the statistics are right. */
    method Check() returns (ok: bool)
      requires Valid()
      ensures ok <==> stats == StatsOf(order)
    {
      var current := start;
      ghost var i: nat := 0;
      var sums := Stats(0, 0, 0, 0, 0);
      while current != NULL
        invariant i <= |order| && sums == StatsOf(order[..i])
        invariant if current == NULL then i == |order| else i < |order| && current == order[i].addr
        decreases |order| - i
      {
        NextHeader(headers, order, i);
        var h := headers[current];
        if h.magic != MAGIC {
          return false;
        }
        if h.next != NULL && headers[h.next].prev != current {
          return false;
        }
        if i > 0 {
          assert HeaderAt(headers, order, i - 1);
        }
        if h.prev != NULL && headers[h.prev].next != current {
          return false;
        }
        CountNext(order, i);
        sums := Plus(sums, if h.free then Stats(h.size, 0, h.size, 1, 1) else Stats(h.size, h.size, 0, 1, 0));
        i := i + 1;
        if h.last {
          break;
        }
        current := h.next;
      }
      assert order[..i] == order;
      return sums == stats;
    }

    /** The branch of heap_realloc that shrinks block `i`, or leaves it alone. */
    method ShrinkInPlace(a: nat, size: nat, ghost i: nat)
      requires Valid() && i < |order| && a == order[i].addr && !order[i].free && size + HEADER <= order[i].size
      modifies this
      ensures Valid() && order == Resized(old(order), i, size)
      ensures ResizedInPlace(old(order), old(mem), order, mem, i, size) && NotAnother(old(order), order[i], i)
      ensures old(stats) == StatsOf(old(order)) ==> (stats == StatsOf(order) <==> !ShrinksInPlace(old(order), i, size))
      ensures Coalesced(old(order)) ==>
        (Coalesced(order) <==> !(ShrinksInPlace(old(order), i, size) && i + 1 < |old(order)| && old(order)[i + 1].free))
    {
      ghost var order0, stats0 := order, stats;
      NextHeader(headers, order, i);
      SizeInSpan(order, i);
      SplitBlock(a, size, i);
      SplitPlaces(order0, i, size);
      SplitNeighbours(order0, i, size);
      SamePlace(order0, order[i], i);
      if stats0 == StatsOf(order0) && |order| != |order0| {
        SplitStats(order0, i, size);
        StatsDoNotWrap(order0);
        UsedUnchanged(stats0, 0, |order0|, |order|);
      }
    }

    /** The branch of heap_realloc that takes in the free blocks behind block `i` and gives back what is left. */
    method GrowInPlace(a: nat, size: nat, ghost i: nat)
      requires Valid() && i + 1 < |order| && a == order[i].addr && !order[i].free && order[i + 1].free
      requires GrowsInPlace(order, i, size)
      modifies this
      ensures Valid() && order == Resized(old(order), i, size)
      ensures ResizedInPlace(old(order), old(mem), order, mem, i, size) && NotAnother(old(order), order[i], i)
      ensures old(stats) == StatsOf(old(order)) ==> stats != StatsOf(order)
      ensures Coalesced(old(order)) ==> Coalesced(order)
    {
      ghost var order0, mem0, stats0 := order, mem, stats;
      ghost var run := MergeThenSplit(a, size, i);
      RunThenSplit(order0, mem0, mem, i, size);
      GrownNeighbours(order0, i, size);
      SamePlace(order0, order[i], i);
      if stats0 == StatsOf(order0) {
        StatsBounds(order0);
        UsedGrows(order0, i, size);
      }
    }

    method MergeThenSplit(a: nat, size: nat, ghost i: nat) returns (ghost run: seq<Blk>)
      requires Valid() && i < |order| && a == order[i].addr && GrowsInPlace(order, i, size)
      modifies this
      ensures run == MergeRun(old(order), i) && run[i].size >= size + HEADER
      ensures Valid() && order == MaybeSplit(run, i, size)
      ensures 0 <= old(stats).usedSize < WORD_SPAN ==> stats.usedSize == old(stats).usedSize
      ensures PayloadsKept(run, old(mem), mem, i) && Kept(old(mem), mem, a + HEADER, a + HEADER + size)
    {
      ghost var order0, stats0 := order, stats;
      MergeFreeBlocks(a, i);
      RunIsLonger(order0, i);
      MergeRunShape(order0, i);
      NextHeader(headers, order, i);
      SizeInSpan(order, i);
      run := order;
      SplitBlock(a, size, i);
      if 0 <= stats0.usedSize < WORD_SPAN {
        UsedUnchanged(stats0, |order0| - |run|, |run|, |order|);
      }
    }

    /** memcpy of `n` bytes between regions that do not overlap. */
    method Copy(from: nat, to: nat, n: nat)
      requires to + n <= from || from + n <= to
      modifies this`mem
      ensures CopyOf(old(mem), mem, from, to, n)
    {
      ghost var mem0 := mem;
      for k := 0 to n
        invariant CopyOf(mem0, mem, from, to, k)
      {
        CopyNext(mem0, mem, from, to, k);
        mem := WithByte(mem, to + k, Byte(mem, from + k));
      }
    }

    /** The last branch of heap_realloc: allocate, copy, free. */
    method Move(ptr: nat, oldSize: nat, size: nat, ghost i: nat) returns (r: nat, ghost j: nat)
      requires Valid() && Live(ptr, i) && oldSize == order[i].size - HEADER && oldSize < size && Servable(size)
      modifies this
      ensures Valid()
      ensures r == NULL ==> order == old(order) && stats == old(stats) && mem == old(mem)
      ensures r != NULL ==> Live(r, j) && order[j].size >= size + HEADER && r != ptr
      ensures r != NULL ==> SameBytes(old(mem), ptr, mem, r, oldSize)
      ensures r != NULL ==> OthersSurvive(old(order), old(mem), order, mem, i) && NotAnother(old(order), order[j], i)
      ensures old(stats) == StatsOf(old(order)) ==> stats == StatsOf(order)
      ensures Coalesced(old(order)) ==> Coalesced(order)
    {
      ghost var order0, mem0 := order, mem;
      ghost var at;
      r, j, at := AllocApart(size, i);
      if r == NULL {
        return;
      }
      ghost var order1, mem1 := order, mem;
      Apart(order1, at, j);
      Copy(ptr, r, oldSize);
      Free(ptr, at);
      CopyKeeps(mem0, mem1, mem, ptr, r, oldSize);
      MovedOthers(order0, order1, mem0, mem1, mem, i, at, j, ptr, r, oldSize);
      j := ReleasedPlace(order1, at, j);
    }

    /** heap_alloc while block `i` is in use: it is now block `at`, and the new block is block `j`. */
    method AllocApart(size: nat, ghost i: nat) returns (r: nat, ghost j: nat, ghost at: nat)
      requires Valid() && i < |order| && !order[i].free && Servable(size)
      modifies this
      ensures Valid()
      ensures r == NULL ==> order == old(order) && stats == old(stats) && mem == old(mem)
      ensures r != NULL ==> Live(r, j) && order[j].size >= size + HEADER
      ensures r != NULL ==> at < |order| && at != j && order[at] == old(order)[i]
      ensures r != NULL ==> OthersSurvive(old(order), old(mem), order, mem, -1) && NotAnother(old(order), order[j], -1)
      ensures old(stats) == StatsOf(old(order)) ==> stats == StatsOf(order)
      ensures Coalesced(old(order)) ==> Coalesced(order)
    {
      ghost var order0, mem0 := order, mem;
      at := i;
      r, j := Alloc(size);
      if r != NULL {
        ServableMeans(size);
        ghost var aligned := AlignUp(size);
        at := TakenFrom(order0, order, mem0, mem, j, aligned, i);
      }
    }

    /** heap_realloc. Whatever branch it takes, the first min(old size, new size) bytes of the payload and all other
        live payloads are kept. Right statistics stay right unless the block is resized in place, and coalescing
        stays unless the part that is cut off meets a free block. */
    method Realloc(ptr: nat, size: nat, ghost i: nat) returns (r: nat, ghost j: nat)
      requires Valid() && (ptr != NULL ==> Live(ptr, i)) && Servable(size)
      modifies this
      ensures Valid()
      ensures size == 0 ==> r == NULL && mem == old(mem)
      ensures size == 0 ==> order == if ptr == NULL then old(order) else Released(old(order), i)
      ensures r == NULL && size != 0 ==> order == old(order) && stats == old(stats) && mem == old(mem)
      ensures r != NULL ==> Live(r, j) && order[j].size >= size + HEADER
      ensures r != NULL ==> OthersSurvive(old(order), old(mem), order, mem, if ptr == NULL then -1 else i)
      ensures r != NULL ==> NotAnother(old(order), order[j], if ptr == NULL then -1 else i)
      ensures r != NULL && ptr != NULL ==>
        SameBytes(old(mem), ptr, mem, r,
                  if size <= old(order)[i].size - HEADER then size else old(order)[i].size - HEADER)
      ensures ptr != NULL && size != 0 && StaysInPlace(old(order), i, size) ==>
        r == ptr && order == Resized(old(order), i, size)
      ensures r != NULL && ptr != NULL && !StaysInPlace(old(order), i, size) ==> r != ptr
      ensures old(stats) == StatsOf(old(order)) ==>
        (stats == StatsOf(order)
         <==> ptr == NULL || size == 0
              || (!ShrinksInPlace(old(order), i, size) && !GrowsInPlace(old(order), i, size)))
      ensures Coalesced(old(order)) ==>
        (Coalesced(order)
         <==> ptr == NULL || size == 0
              || !(ShrinksInPlace(old(order), i, size) && i + 1 < |old(order)| && old(order)[i + 1].free))
    {
      j := i;
      if ptr == NULL {
        r, j := AllocFresh(size);
        return;
      }
      if size == 0 {
        Free(ptr, i);
        return NULL, j;
      }
      var a := ptr - HEADER;
      NextHeader(headers, order, i);
      var h := headers[a];
      if h.magic != MAGIC {
        return NULL, j;
      }
      var oldSize := h.size - HEADER;
      if size <= oldSize {
        ShrinkInPlace(a, size, i);
        return ptr, j;
      }
      if h.next != NULL && headers[h.next].free && h.size + headers[h.next].size >= size + HEADER {
        GrowInPlace(a, size, i);
        return ptr, j;
      }
      r, j := Move(ptr, oldSize, size, i);
    }

    /** heap_alloc, in terms of the blocks that were live before. */
    method AllocFresh(size: nat) returns (r: nat, ghost j: nat)
      requires Valid() && Servable(size)
      modifies this
      ensures Valid()
      ensures r == NULL ==> order == old(order) && stats == old(stats) && mem == old(mem)
      ensures r != NULL ==> size != 0 && Live(r, j) && order[j].size >= size + HEADER
      ensures r != NULL ==> OthersSurvive(old(order), old(mem), order, mem, -1) && NotAnother(old(order), order[j], -1)
      ensures old(stats) == StatsOf(old(order)) ==> stats == StatsOf(order)
      ensures Coalesced(old(order)) ==> Coalesced(order)
    {
      ghost var order0, mem0 := order, mem;
      r, j := Alloc(size);
      if r != NULL {
        ServableMeans(size);
        TakenOthers(order0, order, mem0, mem, j, AlignUp(size));
      }
    }
  }

  /** A request to the heap; `k` counts the allocations that are live. */
  datatype Request = AllocRequest(size: nat) | FreeRequest(k: nat) | ReallocRequest(k: nat, size: nat)
    | StoreRequest(k: nat, offset: nat, value: byte)

  /** What a caller holds: a pointer, the size it asked for, and the bytes it stored. */
  datatype Holding = Holding(ptr: nat, size: nat, bytes: map<nat, byte>)

  /** Block `i` is in use at the pointer, has the room asked for, and still has every byte that was stored. */
  ghost predicate HeldAt(order: seq<Blk>, mem: Memory, h: Holding, i: nat) {
    && i < |order| && !order[i].free && h.ptr == order[i].addr + HEADER && order[i].size >= h.size + HEADER
    && forall p | p in h.bytes :: p < h.size && Byte(mem, h.ptr + p) == Some(h.bytes[p])
  }

  ghost predicate IsHeld(order: seq<Blk>, mem: Memory, h: Holding) {
    exists i: nat :: HeldAt(order, mem, h, i)
  }

  /** All holdings are in different blocks in use. */
  ghost predicate AllHeld(order: seq<Blk>, mem: Memory, live: seq<Holding>) {
    && (forall k | 0 <= k < |live| :: IsHeld(order, mem, live[k]))
    && forall k, m | 0 <= k < m < |live| :: live[k].ptr != live[m].ptr
  }

  predicate NoResizing(requests: seq<Request>) {
    forall n | 0 <= n < |requests| :: !requests[n].ReallocRequest?
  }

  predicate Served(request: Request) {
    match request
    case AllocRequest(size) => Servable(size)
    case ReallocRequest(_, size) => Servable(size)
    case _ => true
  }

  /** After every run from heap_init of heap_alloc, heap_free and heap_realloc on live pointers, and of stores into
      live payloads, every live pointer has a block of its own with every byte that was stored. As long as there is
      no heap_realloc, no two neighbours are both free, and heap_check is true. */
  method Serve(page: nat, requests: seq<Request>) returns (heap: Heap, live: seq<Holding>, ok: bool)
    requires NULL < page < SIZE_SPAN && forall n | 0 <= n < |requests| :: Served(requests[n])
    ensures fresh(heap) && heap.Valid() && AllHeld(heap.order, heap.mem, live)
    ensures NoResizing(requests) ==> heap.Consistent() && ok
  {
    heap := new Heap(page);
    live := [];
    for n := 0 to |requests|
      invariant fresh(heap) && heap.Valid() && AllHeld(heap.order, heap.mem, live)
      invariant NoResizing(requests[..n]) ==> heap.Consistent()
    {
      assert requests[n] == requests[..n + 1][n];
      assert NoResizing(requests[..n + 1]) ==> NoResizing(requests[..n]);
      live := ServeOne(heap, requests[n], live);
    }
    assert requests[..|requests|] == requests;
    ok := heap.Check();
  }

  method ServeOne(heap: Heap, request: Request, live: seq<Holding>) returns (live': seq<Holding>)
    requires heap.Valid() && AllHeld(heap.order, heap.mem, live) && Served(request)
    modifies heap
    ensures heap.Valid() && AllHeld(heap.order, heap.mem, live')
    ensures old(heap.Consistent()) && !request.ReallocRequest? ==> heap.Consistent()
  {
    match request {
      case AllocRequest(size) => live' := ServeAlloc(heap, size, live);
      case FreeRequest(k) =>
        live' := live;
        if k < |live| {
          live' := ServeFree(heap, k, live);
        }
      case ReallocRequest(k, size) =>
        live' := live;
        if k < |live| {
          live' := ServeRealloc(heap, k, size, live);
        }
      case StoreRequest(k, offset, value) =>
        live' := live;
        if k < |live| && offset < live[k].size {
          live' := ServeStore(heap, k, offset, value, live);
        }
    }
  }

  method ServeAlloc(heap: Heap, size: nat, live: seq<Holding>) returns (live': seq<Holding>)
    requires heap.Valid() && AllHeld(heap.order, heap.mem, live) && Servable(size)
    modifies heap
    ensures heap.Valid() && AllHeld(heap.order, heap.mem, live')
    ensures old(heap.Consistent()) ==> heap.Consistent()
  {
    ghost var order0, mem0 := heap.order, heap.mem;
    var r, j := heap.AllocFresh(size);
    if r == NULL {
      return live;
    }
    live' := live + [Holding(r, size, map[])];
    OthersHeld(order0, mem0, heap.order, heap.mem, live, -1);
    NewHolding(order0, mem0, heap.order[j], live);
    assert HeldAt(heap.order, heap.mem, live'[|live|], j);
  }

  method ServeFree(heap: Heap, k: nat, live: seq<Holding>) returns (live': seq<Holding>)
    requires heap.Valid() && AllHeld(heap.order, heap.mem, live) && k < |live|
    modifies heap
    ensures heap.Valid() && AllHeld(heap.order, heap.mem, live')
    ensures old(heap.Consistent()) ==> heap.Consistent()
  {
    ghost var order0, mem0 := heap.order, heap.mem;
    assert IsHeld(heap.order, heap.mem, live[k]);
    ghost var i: nat :| HeldAt(heap.order, heap.mem, live[k], i);
    heap.Free(live[k].ptr, i);
    ReleasedOthers(order0, mem0, i);
    OthersHeld(order0, mem0, heap.order, heap.mem, live, i);
    HeldWithout(heap.order, heap.mem, live, k);
    live' := live[..k] + live[k + 1..];
  }

  method ServeRealloc(heap: Heap, k: nat, size: nat, live: seq<Holding>) returns (live': seq<Holding>)
    requires heap.Valid() && AllHeld(heap.order, heap.mem, live) && k < |live| && Servable(size)
    modifies heap
    ensures heap.Valid() && AllHeld(heap.order, heap.mem, live')
  {
    ghost var order0, mem0 := heap.order, heap.mem;
    assert IsHeld(heap.order, heap.mem, live[k]);
    ghost var i: nat :| HeldAt(heap.order, heap.mem, live[k], i);
    var h := live[k];
    var r, j := heap.Realloc(h.ptr, size, i);
    if size == 0 {
      ReleasedOthers(order0, mem0, i);
      OthersHeld(order0, mem0, heap.order, heap.mem, live, i);
      HeldWithout(heap.order, heap.mem, live, k);
      return live[..k] + live[k + 1..];
    }
    if r == NULL {
      return live;
    }
    var h' := Holding(r, size, map p | p in h.bytes && p < size :: h.bytes[p]);
    OthersHeld(order0, mem0, heap.order, heap.mem, live, i);
    BytesFollow(order0, mem0, heap.order, heap.mem, h, h', i, j);
    OthersElsewhere(order0, mem0, heap.order[j], live, k, i);
    live' := live[k := h'];
  }

  /** A caller stores a byte into a payload of its own. */
  method ServeStore(heap: Heap, k: nat, offset: nat, value: byte, live: seq<Holding>) returns (live': seq<Holding>)
    requires heap.Valid() && AllHeld(heap.order, heap.mem, live) && k < |live| && offset < live[k].size
    modifies heap`mem
    ensures heap.Valid() && AllHeld(heap.order, heap.mem, live')
  {
    ghost var mem0 := heap.mem;
    var h := live[k];
    heap.mem := heap.mem[h.ptr + offset := value];
    live' := live[k := h.(bytes := h.bytes[offset := value])];
    forall m | 0 <= m < |live'| ensures IsHeld(heap.order, heap.mem, live'[m]) {
      StoredHeld(heap.order, mem0, live, k, offset, value, m);
    }
  }

  lemma StoredHeld(order: seq<Blk>, mem: Memory, live: seq<Holding>, k: nat, offset: nat, value: byte, m: nat)
    requires Tiled(order) && AllHeld(order, mem, live) && k < |live| && offset < live[k].size && m < |live|
    ensures IsHeld(order, mem[live[k].ptr + offset := value],
                   live[k := live[k].(bytes := live[k].bytes[offset := value])][m])
  {
    var mem' := mem[live[k].ptr + offset := value];
    var h := live[k := live[k].(bytes := live[k].bytes[offset := value])][m];
    assert IsHeld(order, mem, live[k]) && IsHeld(order, mem, live[m]);
    var i: nat :| HeldAt(order, mem, live[k], i);
    var i': nat :| HeldAt(order, mem, live[m], i');
    if m != k {
      Apart(order, i, i');
    }
    forall p | p in h.bytes ensures p < h.size && Byte(mem', h.ptr + p) == Some(h.bytes[p]) {
      if m != k || p != offset {
        assert Byte(mem, live[m].ptr + p) == Some(live[m].bytes[p]);
      }
    }
    assert HeldAt(order, mem', h, i');
  }

  /** Whoever does not hold block `i` still holds what it held. */
  lemma OthersHeld(order0: seq<Blk>, mem0: Memory, order: seq<Blk>, mem: Memory, live: seq<Holding>, i: int)
    requires AllHeld(order0, mem0, live) && OthersSurvive(order0, mem0, order, mem, i)
    ensures forall k | 0 <= k < |live| && !(0 <= i < |order0| && live[k].ptr == order0[i].addr + HEADER) ::
      IsHeld(order, mem, live[k])
  {
    forall k | 0 <= k < |live| && !(0 <= i < |order0| && live[k].ptr == order0[i].addr + HEADER)
      ensures IsHeld(order, mem, live[k])
    {
      assert IsHeld(order0, mem0, live[k]);
      var n: nat :| HeldAt(order0, mem0, live[k], n);
      assert order0[n] in order && PayloadKept(mem0, mem, order0[n]);
      var n': nat :| n' < |order| && order[n'] == order0[n];
      forall p | p in live[k].bytes ensures Byte(mem, live[k].ptr + p) == Some(live[k].bytes[p]) {
        assert Byte(mem0, live[k].ptr + p) == Some(live[k].bytes[p]);
      }
      assert HeldAt(order, mem, live[k], n');
    }
  }

  lemma NewHolding(order0: seq<Blk>, mem0: Memory, b: Blk, live: seq<Holding>)
    requires AllHeld(order0, mem0, live) && NotAnother(order0, b, -1)
    ensures forall k | 0 <= k < |live| :: live[k].ptr != b.addr + HEADER
  {
    forall k | 0 <= k < |live| ensures live[k].ptr != b.addr + HEADER {
      assert IsHeld(order0, mem0, live[k]);
      var n: nat :| HeldAt(order0, mem0, live[k], n);
    }
  }

  lemma OthersElsewhere(order0: seq<Blk>, mem0: Memory, b: Blk, live: seq<Holding>, k: nat, i: nat)
    requires AllHeld(order0, mem0, live) && k < |live| && HeldAt(order0, mem0, live[k], i) && NotAnother(order0, b, i)
    ensures forall m | 0 <= m < |live| && m != k :: live[m].ptr != b.addr + HEADER
  {
    forall m | 0 <= m < |live| && m != k ensures live[m].ptr != b.addr + HEADER {
      assert IsHeld(order0, mem0, live[m]);
      var n: nat :| HeldAt(order0, mem0, live[m], n);
      assert n != i;
    }
  }

  lemma BytesFollow(order0: seq<Blk>, mem0: Memory, order: seq<Blk>, mem: Memory, h: Holding, h': Holding,
                    i: nat, j: nat)
    requires HeldAt(order0, mem0, h, i) && h'.bytes == map p | p in h.bytes && p < h'.size :: h.bytes[p]
    requires j < |order| && !order[j].free && h'.ptr == order[j].addr + HEADER && order[j].size >= h'.size + HEADER
    requires order0[i].size >= HEADER
    requires SameBytes(mem0, h.ptr, mem, h'.ptr,
                       if h'.size <= order0[i].size - HEADER then h'.size else order0[i].size - HEADER)
    ensures IsHeld(order, mem, h')
  {
    forall p | p in h'.bytes ensures p < h'.size && Byte(mem, h'.ptr + p) == Some(h'.bytes[p]) {
      assert Byte(mem0, h.ptr + p) == Some(h.bytes[p]);
      assert Byte(mem, h'.ptr + p) == Byte(mem0, h'.ptr + p - h'.ptr + h.ptr);
    }
    assert HeldAt(order, mem, h', j);
  }

  lemma HeldWithout(order: seq<Blk>, mem: Memory, live: seq<Holding>, k: nat)
    requires k < |live| && forall m | 0 <= m < |live| && m != k :: IsHeld(order, mem, live[m])
    requires forall m, n | 0 <= m < n < |live| :: live[m].ptr != live[n].ptr
    ensures AllHeld(order, mem, live[..k] + live[k + 1..])
  {
    var rest := live[..k] + live[k + 1..];
    assert forall m | 0 <= m < |rest| :: rest[m] == live[if m < k then m else m + 1];
  }

  lemma ReleasedOthers(order: seq<Blk>, mem: Memory, i: nat)
    requires i < |order|
    ensures OthersSurvive(order, mem, Released(order, i), mem, i)
  {
    forall k | 0 <= k < |order| && k != i && !order[k].free
      ensures order[k] in Released(order, i) && PayloadKept(mem, mem, order[k])
    {
      var at := ReleasedPlace(order, i, k);
    }
  }

  /** Shrinking is not counted: on a new heap, heap_realloc of a block of 968 bytes to 100 bytes leaves two free
      neighbours and makes heap_check false. */
  method ShrinkIsNotCounted(page: nat) returns (heap: Heap, ok: bool)
    requires NULL < page < SIZE_SPAN
    ensures fresh(heap) && heap.Valid()
    ensures heap.order == [Blk(page, 128, false), Blk(page + 128, 868, true), Blk(page + 996, 3100, true)]
    ensures !ok && !Coalesced(heap.order)
  {
    heap := new Heap(page);
    ghost var order0 := heap.order;
    assert AlignUp(968) == 968 && Servable(968) && SumsFit(968) && !Servable(WORD_SPAN);
    assert Fits(order0[0], 968) && Passes(order0[0], 968);
    var ptr, i := heap.Alloc(968);
    assert heap.order == [Blk(page, 996, false), Blk(page + 996, 3100, true)];
    ghost var order1 := heap.order;
    assert ShrinksInPlace(order1, 0, 100) && Resized(order1, 0, 100) == Split(order1, 0, 100);
    var r, j := heap.Realloc(ptr, 100, 0);
    ok := heap.Check();
  }

  /** A request of 2^64 - 1 bytes is served, with a block that has no payload. */
  method WrappedRequest(page: nat) returns (heap: Heap, ptr: nat)
    requires NULL < page < SIZE_SPAN
    ensures fresh(heap) && heap.Valid() && ptr == page + HEADER
    ensures heap.order == [Blk(page, HEADER, false), Blk(page + HEADER, PAGE_SIZE - HEADER, true)]
  {
    heap := new Heap(page);
    ghost var order0 := heap.order;
    assert AlignUp(WORD_SPAN - 1) == 0 && SumsFit(0);
    assert Fits(order0[0], 0) && Passes(order0[0], 0);
    ghost var i;
    ptr, i := heap.Alloc(WORD_SPAN - 1);
  }

  function WithByte(mem: Memory, p: nat, b: Option<byte>): Memory {
    match b
    case Some(v) => mem[p := v]
    case None => map q | q in mem && q != p :: mem[q]
  }

  /** What heap_alloc did for an aligned size whose sums fit: nothing if no block had room and the heap did not grow,
      and otherwise it took the first block with room of the old list, or of the grown one if there was none. */
  ghost predicate AlignedTaken(order0: seq<Blk>, mem0: Memory, order: seq<Blk>, mem: Memory, aligned: nat,
                               block: nat, i: nat)
  {
    && order0 != [] && i <= |order0| && NoneFits(order0, i, aligned)
    && if block == NULL then i == |order0| && order == order0 && mem == mem0
       else
         && Fits(BaseOf(order0, i, aligned)[i], aligned)
         && order == Taken(BaseOf(order0, i, aligned), i, aligned) && block == order[i].addr
         && PayloadsKept(order0, mem0, mem, i)
  }

  ghost predicate Allocated(order0: seq<Blk>, mem0: Memory, order: seq<Blk>, mem: Memory, size: nat, ptr: nat, i: nat) {
    if size == 0 then ptr == NULL && order == order0 && mem == mem0
    else
      (ptr == NULL || ptr > HEADER)
      && AlignedTaken(order0, mem0, order, mem, AlignUp(size), if ptr == NULL then NULL else ptr - HEADER, i)
  }

  /** Addresses and sizes of the blocks of a heap below 4 GiB. */
  lemma SizeInSpan(order: seq<Blk>, i: nat)
    requires Tiled(order) && i < |order| && StatsOf(order).totalSize < SIZE_SPAN
    ensures order[i].size < SIZE_SPAN && EndOf(order[i]) <= order[0].addr + StatsOf(order).totalSize
  {
    assert order[..|order|] == order;
    Extent(order, |order|);
    Extent(order, i + 1);
    if i > 0 {
      Ordered(order, 0, i);
    }
  }

  lemma PlaceFits(order: seq<Blk>, i: nat, size: nat)
    requires Tiled(order) && i < |order| && order[0].addr < SIZE_SPAN && StatsOf(order).totalSize < SIZE_SPAN
    requires size + HEADER + HEADER <= order[i].size
    ensures (order[i].addr + size + HEADER) % WORD_SPAN == order[i].addr + size + HEADER
    ensures (size + HEADER) % SIZE_SPAN == size + HEADER
    ensures (order[i].size - size - HEADER) % SIZE_SPAN == order[i].size - size - HEADER
  {
    SizeInSpan(order, i);
  }

  /** The headers after the writes of split_block. */
  function CutMap(headers: Headers, a: nat, rest: nat, front: nat, remaining: nat): Headers
    requires a in headers && (headers[a].next != NULL ==> headers[a].next in headers)
  {
    var h := headers[a];
    var headers1 := headers[rest := Header(MAGIC, remaining, true, h.last, h.next, a)];
    var headers2 := if h.next == NULL then headers1 else headers1[h.next := headers1[h.next].(prev := rest)];
    headers2[a := h.(next := rest, size := front, last := false)]
  }

  lemma CutMapIsCut(headers: Headers, order: seq<Blk>, i: nat, size: nat)
    requires Tiled(order) && Represents(headers, order) && i < |order| && size + HEADER + HEADER <= order[i].size
    ensures HeaderAt(headers, order, i)
    ensures headers[order[i].addr].next != NULL ==> headers[order[i].addr].next in headers
    ensures var a := order[i].addr;
      CutHeaders(headers, CutMap(headers, a, a + size + HEADER, size + HEADER, order[i].size - size - HEADER), a, size)
  {
    NextHeader(headers, order, i);
  }

  lemma CutKeeps(headers: Headers, order: seq<Blk>, i: nat, size: nat, a: nat, rest: nat, front: nat, remaining: nat)
    requires Tiled(order) && Represents(headers, order) && i < |order| && a == order[i].addr
    requires front == size + HEADER && rest == a + front && remaining == order[i].size - front && remaining >= HEADER
    ensures a in headers && (headers[a].next != NULL ==> headers[a].next in headers)
    ensures var r := Split(order, i, size);
      && r != [] && |r| == |order| + 1 && r[0].addr == order[0].addr && Tiled(r)
      && Represents(CutMap(headers, a, rest, front, remaining), r)
      && StatsOf(r).totalSize == StatsOf(order).totalSize
  {
    CutMapIsCut(headers, order, i, size);
    SplitKeeps(headers, CutMap(headers, a, rest, front, remaining), order, i, size);
    SplitIsCut(order, i, size);
  }

  /** The header of block `i` and that of the block after it. */
  lemma NextHeader(headers: Headers, order: seq<Blk>, i: nat)
    requires Tiled(order) && Represents(headers, order) && i < |order|
    ensures HeaderAt(headers, order, i)
    ensures var next := headers[order[i].addr].next;
      if next == NULL then i == |order| - 1
      else i + 1 < |order| && next == order[i + 1].addr == EndOf(order[i]) && HeaderAt(headers, order, i + 1)
  {
    assert HeaderAt(headers, order, i) && Joined(order, i);
    if i + 1 < |order| {
      assert HeaderAt(headers, order, i + 1);
    }
  }

  lemma SplitKeeps(headers: Headers, headers': Headers, order: seq<Blk>, i: nat, size: nat)
    requires Tiled(order) && Represents(headers, order) && i < |order| && size + HEADER + HEADER <= order[i].size
    requires HeaderAt(headers, order, i) && CutHeaders(headers, headers', order[i].addr, size)
    ensures var r := Split(order, i, size);
      && r != [] && r[0].addr == order[0].addr && Tiled(r) && Represents(headers', r)
      && StatsOf(r).totalSize == StatsOf(order).totalSize
  {
    var r := Split(order, i, size);
    SplitIsCut(order, i, size);
    CutTiled(order, r, i, size);
    SplitStats(order, i, size);
    forall k: nat | k < |r| ensures HeaderAt(headers', r, k) {
      CutRepresents(headers, headers', order, r, i, size, k);
    }
  }

  function MergedCount(s: Stats, n: nat): Stats
  {
    if n == 0 then s else Wrapped(Plus(MergedCount(s, n - 1), Stats(0, 0, 0, -1, -1)))
  }

  /** The sizes of neighbours add up without 32-bit overflow. */
  lemma PairFits(order: seq<Blk>, i: nat)
    requires Tiled(order) && i + 1 < |order| && StatsOf(order).totalSize < SIZE_SPAN
    ensures order[i].size + order[i + 1].size < SIZE_SPAN
  {
    assert order[..|order|] == order;
    Extent(order, |order|);
    Extent(order, i + 2);
    assert Joined(order, i);
    if i > 0 {
      Ordered(order, 0, i);
    }
  }

  lemma GluedKeeps(headers: Headers, headers': Headers, order: seq<Blk>, i: nat)
    requires Tiled(order) && Represents(headers, order) && i + 1 < |order| && order[i + 1].free
    requires HeaderAt(headers, order, i) && HeaderAt(headers, order, i + 1)
    requires GluedHeaders(headers, headers', order[i].addr, order[i + 1].addr)
    ensures var r := Merged(order, i);
      && r != [] && r[0].addr == order[0].addr && Tiled(r) && Represents(headers', r)
      && StatsOf(r).totalSize == StatsOf(order).totalSize
  {
    var r := Merged(order, i);
    MergedIsGlued(order, i);
    GluedTiled(order, r, i);
    MergedStats(order, i);
    forall k: nat | k < |r| ensures HeaderAt(headers', r, k) {
      GluedRepresents(headers, headers', order, r, i, k);
    }
  }

  lemma ExtendKeeps(headers: Headers, order: seq<Blk>, size: nat)
    requires Tiled(order) && Represents(headers, order) && order != [] && size >= HEADER
    requires EndOf(order[|order| - 1]) - order[0].addr + size < SIZE_SPAN
    ensures HeaderAt(headers, order, |order| - 1)
    ensures var r, last, rest := Extended(order, size), order[|order| - 1].addr, EndOf(order[|order| - 1]);
      && r[0].addr == order[0].addr && Tiled(r) && Represents(ExtendMap(headers, last, rest, size), r)
      && StatsOf(r).totalSize < SIZE_SPAN
  {
    ExtendedRepresents(headers, order, size);
    ExtendedStats(order, size);
    assert order[..|order|] == order;
    Extent(order, |order|);
    Extent(order, 1);
  }

  lemma BeyondEnd(mem: Memory, order: seq<Blk>)
    requires Tiled(order) && order != []
    ensures PayloadsKept(order, mem, Covered(mem, EndOf(order[|order| - 1])), -1)
  {
    forall k | 0 <= k < |order| ensures PayloadKept(mem, Covered(mem, EndOf(order[|order| - 1])), order[k]) {
      Extent(order, k + 1);
    }
  }

  lemma MaybeSplitAt(order: seq<Blk>, i: nat, size: nat)
    requires i < |order| && size + HEADER <= order[i].size
    ensures var r := MaybeSplit(order, i, size);
      r[i].addr == order[i].addr && r[i].free == order[i].free && r[i].size >= size + HEADER
  {
    SplitIsCut(order, i, size);
  }

  lemma MarkKeeps(order: seq<Blk>, i: nat, free: bool)
    requires i < |order| && order[i].free != free
    ensures StatsOf(Marked(order, i, free)).totalSize == StatsOf(order).totalSize
    ensures Marked(order, i, free)[0].addr == order[0].addr
  {
    MarkedStats(order, i, free);
  }

  /** Splitting a free block keeps the statistics right. */
  lemma SplitCount(order: seq<Blk>, i: nat, size: nat, stats: Stats)
    requires Tiled(order) && StatsOf(order).totalSize < SIZE_SPAN && i < |order| && order[i].free
    requires size + HEADER <= order[i].size
    requires var r := MaybeSplit(order, i, size);
      stats == if |r| == |order| then StatsOf(order) else Wrapped(Plus(StatsOf(order), Stats(0, 0, 0, 1, 1)))
    ensures stats == StatsOf(MaybeSplit(order, i, size))
  {
    var r := MaybeSplit(order, i, size);
    if |r| != |order| {
      SplitStats(order, i, size);
      SplitIsCut(order, i, size);
      CutTiled(order, r, i, size);
      StatsDoNotWrap(r);
    }
  }

  lemma MarkCount(order: seq<Blk>, i: nat, free: bool, stats: Stats)
    requires Tiled(order) && StatsOf(order).totalSize < SIZE_SPAN && i < |order| && order[i].free != free
    requires stats == StatsOf(order)
    ensures Wrapped(Plus(stats, MarkChange(free, order[i].size))) == StatsOf(Marked(order, i, free))
  {
    var r := Marked(order, i, free);
    MarkedStats(order, i, free);
    assert forall k | 0 <= k < |r| :: r[k].size == order[k].size;
    StatsDoNotWrap(r);
  }

  /** Before heap_alloc takes block `i`, only it and the block before it may both be free. */
  lemma OnlyTheTaken(order: seq<Blk>, base: seq<Blk>, i: nat, size: nat)
    requires Coalesced(order) && order != [] && i <= |order|
    requires base == if i < |order| then order else Extended(order, Growth(size))
    requires Fits(base[i], size)
    ensures Coalesced(Taken(base, i, size))
  {
    forall k: nat | k + 1 < |base| && k + 1 != i ensures NotBothFree(base, k) {
      assert NotBothFree(order, k);
    }
    TakenCoalesced(base, i, size);
  }

  lemma KeptTwice(order: seq<Blk>, base: seq<Blk>, mem0: Memory, mem1: Memory, mem: Memory, i: nat)
    requires |order| <= |base| && forall k | 0 <= k < |order| :: base[k] == order[k]
    requires PayloadsKept(order, mem0, mem1, -1) && PayloadsKept(base, mem1, mem, i)
    ensures PayloadsKept(order, mem0, mem, i)
  {
    forall k | 0 <= k < |order| && k != i ensures PayloadKept(mem0, mem, order[k]) {
      assert PayloadKept(mem0, mem1, order[k]) && PayloadKept(mem1, mem, base[k]);
      forall p: nat | order[k].addr + HEADER <= p < EndOf(order[k]) ensures Byte(mem, p) == Byte(mem0, p) {
        assert Byte(mem1, p) == Byte(mem0, p);
      }
    }
  }

  lemma CountNext(order: seq<Blk>, i: nat)
    requires i < |order|
    ensures StatsOf(order[..i + 1]) == Plus(StatsOf(order[..i]), One(order[i]))
  {
    StatsOfOne(order[i]);
    StatsConcat(order[..i], [order[i]]);
    assert order[..i] + [order[i]] == order[..i + 1];
  }

  /** Merging behind a free block keeps the statistics right. */
  lemma {:induction false} MergeRunCount(order: seq<Blk>, i: nat)
    requires Tiled(order) && StatsOf(order).totalSize < SIZE_SPAN && i < |order| && order[i].free
    ensures var r := MergeRun(order, i);
      && Tiled(r) && StatsOf(r).totalSize < SIZE_SPAN
      && StatsOf(r) == MergedCount(StatsOf(order), |order| - |r|)
    decreases |order|
  {
    if i + 1 < |order| && order[i + 1].free {
      var m := Merged(order, i);
      MergeOneCount(order, i, m);
      MergeRunCount(m, i);
      MergedCountShift(StatsOf(order), |m| - |MergeRun(m, i)|);
    }
  }

  lemma MergeOneCount(order: seq<Blk>, i: nat, m: seq<Blk>)
    requires Tiled(order) && StatsOf(order).totalSize < SIZE_SPAN && i + 1 < |order|
    requires order[i].free && order[i + 1].free && m == Merged(order, i)
    ensures Tiled(m) && StatsOf(m).totalSize < SIZE_SPAN && |m| == |order| - 1 && m[i].free
    ensures StatsOf(m) == MergedCount(StatsOf(order), 1)
  {
    MergedIsGlued(order, i);
    GluedTiled(order, m, i);
    MergedStats(order, i);
    StatsDoNotWrap(m);
  }

  lemma {:induction false} MergedCountShift(s: Stats, n: nat)
    ensures MergedCount(MergedCount(s, 1), n) == MergedCount(s, n + 1)
  {
    if n > 0 {
      MergedCountShift(s, n - 1);
    }
  }

  /** All used blocks but block `i` are still there with their payloads. */
  ghost predicate OthersSurvive(order0: seq<Blk>, mem0: Memory, order: seq<Blk>, mem: Memory, i: int) {
    forall k | 0 <= k < |order0| && k != i && !order0[k].free ::
      order0[k] in order && PayloadKept(mem0, mem, order0[k])
  }

  /** Block `i` is at its place with room for `size` bytes, of which those it had before are unchanged. */
  ghost predicate ResizedInPlace(order0: seq<Blk>, mem0: Memory, order: seq<Blk>, mem: Memory, i: nat, size: nat)
    requires i < |order0|
  {
    && i < |order| && order[i].addr == order0[i].addr && !order[i].free && order[i].size >= size + HEADER
    && Kept(mem0, mem, order0[i].addr + HEADER, order0[i].addr + HEADER + size)
    && OthersSurvive(order0, mem0, order, mem, i)
  }

  lemma SplitPlace(order: seq<Blk>, i: nat, size: nat, k: nat) returns (at: nat)
    requires i < |order| && size + HEADER <= order[i].size && k < |order| && k != i
    ensures at < |MaybeSplit(order, i, size)| && MaybeSplit(order, i, size)[at] == order[k] && at != i
  {
    if order[i].size - size - HEADER < HEADER {
      at := k;
    } else {
      SplitIsCut(order, i, size);
      at := if k < i then k else k + 1;
    }
  }

  lemma SplitPlaces(order: seq<Blk>, i: nat, size: nat)
    requires i < |order| && size + HEADER <= order[i].size
    ensures var r := MaybeSplit(order, i, size);
      && r[i].addr == order[i].addr && r[i].free == order[i].free && size + HEADER <= r[i].size <= order[i].size
      && (r[i].size < order[i].size <==> |r| != |order|)
      && forall k | 0 <= k < |order| && k != i :: order[k] in r
  {
    SplitIsCut(order, i, size);
    forall k | 0 <= k < |order| && k != i ensures order[k] in MaybeSplit(order, i, size) {
      var at := SplitPlace(order, i, size, k);
    }
  }

  /** A used block behind or before a run of merged blocks survives. */
  lemma RunPlace(order: seq<Blk>, i: nat, k: nat) returns (at: nat)
    requires i < |order| && k < |order| && k != i && !order[k].free
    ensures at < |MergeRun(order, i)| && MergeRun(order, i)[at] == order[k] && at != i
  {
    var r := MergeRun(order, i);
    MergeRunShape(order, i);
    var shift := |order| - |r|;
    if k < i {
      at := k;
      assert r[..i][k] == order[..i][k];
    } else {
      assert k > shift + i;
      at := k - shift;
      assert r[i + 1..][at - i - 1] == order[shift + i + 1..][at - i - 1];
    }
  }

  lemma RunIsLonger(order: seq<Blk>, i: nat)
    requires i + 1 < |order| && order[i + 1].free
    ensures MergeRun(order, i)[i].size >= order[i].size + order[i + 1].size
  {
    MergeRunShape(Merged(order, i), i);
  }

  lemma RunThenSplit(order: seq<Blk>, mem0: Memory, mem: Memory, i: nat, size: nat)
    requires i < |order| && MergeRun(order, i)[i].size >= size + HEADER
    requires PayloadsKept(MergeRun(order, i), mem0, mem, i)
    ensures OthersSurvive(order, mem0, MaybeSplit(MergeRun(order, i), i, size), mem, i)
    ensures var r := MaybeSplit(MergeRun(order, i), i, size);
      r[i].addr == order[i].addr && r[i].free == order[i].free && r[i].size >= size + HEADER
  {
    var run := MergeRun(order, i);
    MergeRunShape(order, i);
    MaybeSplitAt(run, i, size);
    forall k | 0 <= k < |order| && k != i && !order[k].free
      ensures order[k] in MaybeSplit(run, i, size) && PayloadKept(mem0, mem, order[k])
    {
      var at := RunPlace(order, i, k);
      var at' := SplitPlace(run, i, size, at);
      assert PayloadKept(mem0, mem, run[at]);
    }
  }

  /** Cutting a used block leaves two free neighbours exactly when the block behind it is free. */
  lemma SplitNeighbours(order: seq<Blk>, i: nat, size: nat)
    requires i < |order| && !order[i].free && size + HEADER <= order[i].size
    ensures Coalesced(order) ==>
      (Coalesced(MaybeSplit(order, i, size))
       <==> !(ShrinksInPlace(order, i, size) && i + 1 < |order| && order[i + 1].free))
  {
    if Coalesced(order) {
      CutNeighbours(order, i, size);
    }
  }

  lemma CutNeighbours(order: seq<Blk>, i: nat, size: nat)
    requires i < |order| && !order[i].free && size + HEADER <= order[i].size && Coalesced(order)
    ensures Coalesced(MaybeSplit(order, i, size))
      <==> !(ShrinksInPlace(order, i, size) && i + 1 < |order| && order[i + 1].free)
  {
    var r := MaybeSplit(order, i, size);
    SplitIsCut(order, i, size);
    if ShrinksInPlace(order, i, size) && i + 1 < |order| && order[i + 1].free {
      assert !NotBothFree(r, i + 1);
    } else if |r| != |order| {
      forall k: nat | k + 1 < |r| ensures NotBothFree(r, k) {
        if k + 1 < i {
          assert NotBothFree(order, k);
        } else if k > i + 1 {
          assert NotBothFree(order, k - 1);
        }
      }
    }
  }

  lemma MergedNeighbours(order: seq<Blk>, i: nat)
    requires i + 1 < |order| && !order[i].free && order[i + 1].free && Coalesced(order)
    ensures MergeRun(order, i) == Merged(order, i) && Coalesced(Merged(order, i))
    ensures i + 1 < |Merged(order, i)| ==> !Merged(order, i)[i + 1].free
  {
    var r := Merged(order, i);
    MergedIsGlued(order, i);
    if i + 2 < |order| {
      assert NotBothFree(order, i + 1);
    }
    forall k: nat | k + 1 < |r| ensures NotBothFree(r, k) {
      if k + 1 < i {
        assert NotBothFree(order, k);
      } else if k > i {
        assert NotBothFree(order, k + 1);
      }
    }
  }

  /** Growing in place takes in all free blocks behind, so that what is given back has no free neighbour. */
  lemma GrownNeighbours(order: seq<Blk>, i: nat, size: nat)
    requires i + 1 < |order| && !order[i].free && order[i + 1].free && MergeRun(order, i)[i].size >= size + HEADER
    ensures Coalesced(order) ==> Coalesced(MaybeSplit(MergeRun(order, i), i, size))
  {
    if Coalesced(order) {
      MergedNeighbours(order, i);
      MergeRunShape(order, i);
      SplitNeighbours(MergeRun(order, i), i, size);
    }
  }

  lemma SamePlace(order: seq<Blk>, b: Blk, i: nat)
    requires Tiled(order) && i < |order| && b.addr == order[i].addr
    ensures NotAnother(order, b, i)
  {
    forall k | 0 <= k < |order| && k != i && !order[k].free ensures order[k].addr != b.addr {
      Apart(order, i, k);
    }
  }

  lemma InWord(x: int)
    requires 0 <= x < WORD_SPAN
    ensures (x + 0) % WORD_SPAN == x
  {
  }

  /** Counting blocks does not change the byte counters. */
  lemma {:induction false} MergedCountUsed(s: Stats, n: nat)
    requires 0 <= s.usedSize < WORD_SPAN
    ensures MergedCount(s, n).usedSize == s.usedSize
  {
    if n > 0 {
      var t := MergedCount(s, n - 1);
      MergedCountUsed(s, n - 1);
      InWord(t.usedSize);
    }
  }

  /** The counters after split_block, which counts the block it may have added. */
  function SplitCounted(stats: Stats, before: nat, after: nat): Stats {
    if after == before then stats else Wrapped(Plus(stats, Stats(0, 0, 0, 1, 1)))
  }

  lemma UsedUnchanged(stats: Stats, n: nat, before: nat, after: nat)
    requires 0 <= stats.usedSize < WORD_SPAN
    ensures SplitCounted(MergedCount(stats, n), before, after).usedSize == stats.usedSize
  {
    MergedCountUsed(stats, n);
    InWord(stats.usedSize);
  }

  /** What a used block gains from a run of merges is missing in the used bytes. */
  lemma {:induction false} UsedOfRun(order: seq<Blk>, i: nat)
    requires i < |order| && !order[i].free
    ensures StatsOf(MergeRun(order, i)).usedSize == StatsOf(order).usedSize + MergeRun(order, i)[i].size - order[i].size
    decreases |order|
  {
    if i + 1 < |order| && order[i + 1].free {
      MergedStats(order, i);
      UsedOfRun(Merged(order, i), i);
    }
  }

  lemma UsedOfSplit(order: seq<Blk>, i: nat, size: nat)
    requires i < |order| && !order[i].free && size + HEADER <= order[i].size
    ensures StatsOf(MaybeSplit(order, i, size)).usedSize
      == StatsOf(order).usedSize + MaybeSplit(order, i, size)[i].size - order[i].size
  {
    SplitStats(order, i, size);
    SplitIsCut(order, i, size);
  }

  lemma UsedGrows(order: seq<Blk>, i: nat, size: nat)
    requires i < |order| && !order[i].free && GrowsInPlace(order, i, size)
    requires MergeRun(order, i)[i].size >= size + HEADER
    ensures StatsOf(Resized(order, i, size)).usedSize > StatsOf(order).usedSize
  {
    var run := MergeRun(order, i);
    MergeRunShape(order, i);
    UsedOfRun(order, i);
    UsedOfSplit(run, i, size);
    SplitPlaces(run, i, size);
  }

  /** `n` bytes at `to` are those that were at `from`, and all others are as before. */
  ghost predicate CopyOf(mem0: Memory, mem: Memory, from: nat, to: nat, n: nat) {
    forall p: nat {:trigger Byte(mem, p)} ::
      Byte(mem, p) == if to <= p < to + n then Byte(mem0, p - to + from) else Byte(mem0, p)
  }

  lemma CopyNext(mem0: Memory, mem: Memory, from: nat, to: nat, k: nat)
    requires CopyOf(mem0, mem, from, to, k) && (to + k < from || from + k < to || from >= to + k)
    requires from + k < to || to + k <= from
    ensures CopyOf(mem0, WithByte(mem, to + k, Byte(mem, from + k)), from, to, k + 1)
  {
    var mem' := WithByte(mem, to + k, Byte(mem, from + k));
    assert Byte(mem, from + k) == Byte(mem0, from + k);
    forall p: nat
      ensures Byte(mem', p) == if to <= p < to + (k + 1) then Byte(mem0, p - to + from) else Byte(mem0, p)
    {
      assert Byte(mem, p) == if to <= p < to + k then Byte(mem0, p - to + from) else Byte(mem0, p);
      assert p != to + k ==> Byte(mem', p) == Byte(mem, p);
    }
  }

  /** The `n` bytes at `r` in `mem` are those that were at `ptr` in `mem0`. */
  ghost predicate SameBytes(mem0: Memory, ptr: nat, mem: Memory, r: nat, n: nat) {
    forall p: nat {:trigger Byte(mem, p)} | r <= p < r + n :: Byte(mem, p) == Byte(mem0, p - r + ptr)
  }

  lemma CopyKeeps(mem0: Memory, mem1: Memory, mem: Memory, ptr: nat, r: nat, n: nat)
    requires Kept(mem0, mem1, ptr, ptr + n) && CopyOf(mem1, mem, ptr, r, n)
    ensures SameBytes(mem0, ptr, mem, r, n)
  {
    forall p: nat | r <= p < r + n ensures Byte(mem, p) == Byte(mem0, p - r + ptr) {
      assert Byte(mem1, p - r + ptr) == Byte(mem0, p - r + ptr);
    }
  }

  lemma TakenPlace(order: seq<Blk>, i: nat, size: nat, k: nat) returns (at: nat)
    requires i < |order| && size + HEADER <= order[i].size && k < |order| && k != i
    ensures at < |Taken(order, i, size)| && Taken(order, i, size)[at] == order[k] && at != i
  {
    at := SplitPlace(order, i, size, k);
  }

  lemma ReleasedPlace(order: seq<Blk>, i: nat, k: nat) returns (at: nat)
    requires i < |order| && k < |order| && k != i && !order[k].free
    ensures at < |Released(order, i)| && Released(order, i)[at] == order[k]
  {
    var marked := Marked(order, i, true);
    var merged := MergeRun(marked, i);
    at := RunPlace(marked, i, k);
    if i > 0 && merged[i - 1].free {
      at := RunPlace(merged, i - 1, at);
    }
  }

  /** The list from which heap_alloc took block `j`. */
  function BaseOf(order: seq<Blk>, j: nat, size: nat): seq<Blk>
    requires order != []
  {
    if j < |order| then order else Extended(order, Growth(size))
  }

  lemma TakenOthers(order0: seq<Blk>, order: seq<Blk>, mem0: Memory, mem: Memory, j: nat, size: nat)
    requires order0 != [] && j <= |order0| && Fits(BaseOf(order0, j, size)[j], size)
    requires order == Taken(BaseOf(order0, j, size), j, size) && Tiled(order)
    requires PayloadsKept(order0, mem0, mem, j)
    ensures OthersSurvive(order0, mem0, order, mem, -1)
    ensures j < |order| && !order[j].free && order[j].size >= size + HEADER
    ensures NotAnother(order0, order[j], -1)
  {
    var base := BaseOf(order0, j, size);
    MaybeSplitAt(base, j, size);
    forall k | 0 <= k < |order0| && !order0[k].free
      ensures order0[k] in order && PayloadKept(mem0, mem, order0[k]) && order0[k].addr != order[j].addr
    {
      assert base[k] == order0[k];
      var at := TakenPlace(base, j, size, k);
      Apart(order, at, j);
    }
  }

  lemma TakenFrom(order0: seq<Blk>, order: seq<Blk>, mem0: Memory, mem: Memory, j: nat, size: nat,
                  i: nat) returns (at: nat)
    requires order0 != [] && j <= |order0| && Fits(BaseOf(order0, j, size)[j], size)
    requires order == Taken(BaseOf(order0, j, size), j, size) && Tiled(order)
    requires PayloadsKept(order0, mem0, mem, j) && i < |order0| && !order0[i].free
    ensures OthersSurvive(order0, mem0, order, mem, -1)
    ensures j < |order| && !order[j].free && order[j].size >= size + HEADER
    ensures NotAnother(order0, order[j], -1)
    ensures at < |order| && at != j && order[at] == order0[i]
  {
    TakenOthers(order0, order, mem0, mem, j, size);
    assert BaseOf(order0, j, size)[i] == order0[i];
    at := TakenPlace(BaseOf(order0, j, size), j, size, i);
  }

  lemma MovedOthers(order0: seq<Blk>, order1: seq<Blk>, mem0: Memory, mem1: Memory, mem: Memory,
                    i: nat, at: nat, j: nat, ptr: nat, r: nat, n: nat)
    requires Tiled(order0) && Tiled(order1) && i < |order0| && at < |order1| && j < |order1| && at != j
    requires order1[at] == order0[i] && !order0[i].free && r == order1[j].addr + HEADER && n + HEADER <= order1[j].size
    requires OthersSurvive(order0, mem0, order1, mem1, -1) && CopyOf(mem1, mem, ptr, r, n)
    requires NotAnother(order0, order1[j], -1)
    ensures OthersSurvive(order0, mem0, Released(order1, at), mem, i)
  {
    forall k | 0 <= k < |order0| && k != i && !order0[k].free
      ensures order0[k] in Released(order1, at) && PayloadKept(mem0, mem, order0[k])
    {
      assert order0[k] in order1;
      var k1: nat :| k1 < |order1| && order1[k1] == order0[k];
      Apart(order0, i, k);
      var k2 := ReleasedPlace(order1, at, k1);
      Apart(order1, j, k1);
      forall p: nat | order0[k].addr + HEADER <= p < EndOf(order0[k]) ensures Byte(mem, p) == Byte(mem0, p) {
        assert Byte(mem1, p) == Byte(mem0, p);
      }
    }
  }
}
