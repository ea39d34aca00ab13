/** heap_init and expand_heap of kernel/src/mm/heap.c over the frame allocator and the page tables: which pages the heap
    gets, which frames it loses, and when it cannot grow. */
module HeapGrowth {
  import opened Machine
  import opened Options
  import opened Pmm
  import opened Vmm
  import opened UserPages
  import Blocks = HeapBlocks
  import Heap

  const FLAGS: nat := 3                         // PTE_PRESENT | PTE_WRITABLE

  function StartOf(order: seq<Blocks.Blk>): nat
    requires order != []
  {
    order[0].addr
  }

  function LastOf(order: seq<Blocks.Blk>): nat
    requires order != []
  {
    order[|order| - 1].addr
  }

  function EndOf(order: seq<Blocks.Blk>): nat
    requires order != []
  {
    Blocks.EndOf(order[|order| - 1])
  }

  /** The heap is made of whole pages, which have frames of their own that are neither free nor page tables. */
  ghost predicate Backed(order: seq<Blocks.Blk>, m: map<nat, nat>, tree: map<nat, Node>, free: set<nat>)
    requires order != []
  {
    && StartOf(order) % PAGE_SIZE == 0 && EndOf(order) % PAGE_SIZE == 0
    && StartOf(order) / PAGE_SIZE <= EndOf(order) / PAGE_SIZE
    && Owns(m, tree, free, StartOf(order) / PAGE_SIZE, EndOf(order) / PAGE_SIZE)
  }

  lemma {:induction false} FramesInMemory(m: map<nat, nat>, lo: nat, hi: nat)
    requires lo <= hi
    ensures forall f | f in FramesOf(m, lo, hi) :: 0 < f < TOTAL_PAGES
    decreases hi - lo
  {
    if lo < hi {
      FramesInMemory(m, lo + 1, hi);
    }
  }

  /** As there are 2^20 frames, a range of pages with frames of their own is smaller than 4 GiB. */
  lemma OwnedFits(m: map<nat, nat>, tree: map<nat, Node>, free: set<nat>, lo: nat, hi: nat)
    requires lo <= hi && Owns(m, tree, free, lo, hi)
    ensures hi - lo < TOTAL_PAGES
  {
    FramesInMemory(m, lo, hi);
    SubsetSize(FramesOf(m, lo, hi), PagesBelow(TOTAL_PAGES) - {0});
  }

  lemma OneLess(free: set<nat>, f: nat)
    requires f in free && f >= BITS_PER_ENTRY
    ensures |Available(free - {f})| == |Available(free)| - 1
  {
    assert Available(free - {f}) == Available(free) - {f};
  }

  /** What a growth over the pages [lo, hi) needs: a frame for each, a frame for each missing table, and the page that
      expand_heap takes first and never uses. */
  ghost predicate CanGrow(free: set<nat>, ram: Ram, root: nat, lo: nat, hi: nat)
    requires lo <= hi
  {
    |Available(free)| >= 1 + (hi - lo) + |Missing(ram, root, lo, hi)|
  }

  /** What a growth over these pages does to translations, tables and free frames; page `lost` is the one not used. */
  ghost predicate HeapGrown(m0: map<nat, nat>, tree0: map<nat, Node>, free0: set<nat>,
                            m: map<nat, nat>, tree: map<nat, Node>, free: set<nat>, lo: nat, hi: nat, lost: nat)
    requires lo <= hi
  {
    && LowestFree(free0, lost) && Grown(m0, tree0, free0 - {lost}, m, tree, free, lo, hi)
  }

  /** That page is nobody's: it is not free, holds no table and backs no page of the heap. */
  lemma LostPage(m0: map<nat, nat>, tree0: map<nat, Node>, free0: set<nat>,
                 m: map<nat, nat>, tree: map<nat, Node>, free: set<nat>, start: nat, lo: nat, hi: nat, lost: nat)
    requires start <= lo <= hi <= start + VPN_COUNT && InUse(tree0, free0)
    requires Owns(m0, tree0, free0, start, lo) && HeapGrown(m0, tree0, free0, m, tree, free, lo, hi, lost)
    ensures lost !in free && lost !in tree && lost !in FramesOf(m, start, hi)
    ensures |free| == |free0| - 1 - (hi - lo) - |tree.Keys - tree0.Keys|
  {
    FramesSame(m0, m, start, lo, hi);
    FramesSplit(m, start, lo, hi);
    FourParts(free0, free, FramesOf(m, lo, hi), tree0.Keys, tree.Keys, lost);
  }

  lemma FourParts(free0: set<nat>, free: set<nat>, frames: set<nat>, tables0: set<nat>, tables: set<nat>, lost: nat)
    requires lost in free0 && free0 !! tables0 && frames <= free0 - {lost} && frames !! tables
    requires tables0 <= tables <= tables0 + (free0 - {lost}) && free == free0 - {lost} - tables - frames
    ensures |free| == |free0| - 1 - |frames| - |tables - tables0| && lost !in tables
  {
    var made := tables - tables0;
    assert free0 == free + frames + made + {lost};
    assert |free + frames| == |free| + |frames|;
    assert |free + frames + made| == |free| + |frames| + |made|;
  }

  lemma GrownOwns(m0: map<nat, nat>, tree0: map<nat, Node>, free0: set<nat>,
                  m: map<nat, nat>, tree: map<nat, Node>, free: set<nat>, start: nat, lo: nat, hi: nat, lost: nat)
    requires start <= lo <= hi <= lo + TOTAL_PAGES && Owns(m0, tree0, free0, start, lo)
    requires HeapGrown(m0, tree0, free0, m, tree, free, lo, hi, lost)
    ensures Owns(m, tree, free, start, hi) && hi - start < TOTAL_PAGES
  {
    OwnedFits(m0, tree0, free0, start, lo);
    GrowOwns(m0, tree0, free0 - {lost}, m, tree, free, start, lo, hi);
    OwnedFits(m, tree, free, start, hi);
  }

  /** A failed growth takes nothing from the heap. */
  lemma FailedOwns(m0: map<nat, nat>, tree0: map<nat, Node>, free0: set<nat>,
                   m: map<nat, nat>, tree: map<nat, Node>, free: set<nat>, start: nat, lo: nat, v: nat, lost: nat)
    requires start <= lo <= v <= lo + TOTAL_PAGES && Owns(m0, tree0, free0, start, lo)
    requires GrowOutcome(false, m0, tree0, free0 - {lost}, m, tree, free, lo, v)
    ensures Owns(m, tree, free, start, lo)
  {
    OwnedFits(m0, tree0, free0, start, lo);
    FailureOwns(m0, tree0, free0 - {lost}, m, tree, free, start, lo, v);
  }

  /** The frames that expand_heap takes to grow over the pages [lo, hi). */
  method TakePages(vm: AddressSpace, lo: nat, hi: nat, ghost start: nat) returns (ok: bool, ghost lost: nat)
    requires vm.Valid() && start <= lo <= hi && Owns(vm.mapping, vm.tree, vm.pmm.free, start, lo)
    modifies vm`ram, vm`tree, vm`mapping, vm.pmm`freePages, vm.pmm`free, vm.pmm.bitmap
    ensures vm.Valid()
    ensures ok ==> Owns(vm.mapping, vm.tree, vm.pmm.free, start, hi)
    ensures !ok ==> Owns(vm.mapping, vm.tree, vm.pmm.free, start, lo)
    ensures ok <==> CanGrow(old(vm.pmm.free), old(vm.ram), vm.pml4, lo, hi)
    ensures ok ==> hi - start < TOTAL_PAGES
    ensures ok ==>
      HeapGrown(old(vm.mapping), old(vm.tree), old(vm.pmm.free), vm.mapping, vm.tree, vm.pmm.free, lo, hi, lost)
    ensures !ok ==> Exhausted(vm.pmm.free) && (Pages(lo, hi) !! old(vm.mapping).Keys ==> vm.mapping == old(vm.mapping))
    ensures vm.pmm.free == old(vm.pmm.free) <==> Exhausted(old(vm.pmm.free))
  {
    ghost var m0, tree0, free0 := vm.mapping, vm.tree, vm.pmm.free;
    var mem := vm.pmm.AllocPage();
    lost := mem / PAGE_SIZE;
    if mem == NULL {
      NoneAvailable(free0);
      return false, lost;
    }
    OneLess(free0, lost);
    ghost var v;
    ok, v := GrowPages(vm, lo, hi, FLAGS);
    if ok {
      GrownOwns(m0, tree0, free0, vm.mapping, vm.tree, vm.pmm.free, start, lo, hi, lost);
    } else {
      FailedOwns(m0, tree0, free0, vm.mapping, vm.tree, vm.pmm.free, start, lo, v, lost);
      PagesGrow(lo, v, hi);
    }
  }

  /** The page that heap_init takes, mapped to itself if the tables can be made. */
  method MapFirst(vm: AddressSpace) returns (ok: bool, mem: nat, ghost page: nat)
    requires vm.Valid()
    modifies vm`ram, vm`tree, vm`mapping, vm.pmm`freePages, vm.pmm`free, vm.pmm.bitmap
    ensures vm.Valid()
    ensures mem == NULL <==> Exhausted(old(vm.pmm.free))
    ensures mem == NULL ==> !ok && vm.pmm.free == old(vm.pmm.free) && vm.mapping == old(vm.mapping)
    ensures mem != NULL ==> LowestFree(old(vm.pmm.free), page) && page < TOTAL_PAGES
    ensures mem != NULL ==> mem == page * PAGE_SIZE && mem / PAGE_SIZE == page
    ensures mem != NULL ==> Taken(old(vm.tree), old(vm.pmm.free) - {page}, vm.tree, vm.pmm.free)
    ensures mem != NULL ==>
      (ok <==> |Available(old(vm.pmm.free))| >= 1 + |MissingFor(old(vm.ram), vm.pml4, PageNumbered(page))|)
    ensures vm.mapping == if ok then old(vm.mapping)[page := page] else old(vm.mapping)
  {
    ghost var tree0, free0 := vm.tree, vm.pmm.free;
    mem := vm.pmm.AllocPage();
    page := mem / PAGE_SIZE;
    if mem == NULL {
      return false, mem, page;
    }
    OwnAddress(mem, page);
    ghost var missing := MissingFor(vm.ram, vm.pml4, PageNumbered(page));
    ghost var made;
    ok, made := vm.MapPage(mem, mem, FLAGS);
    FramesTaken(tree0, free0, vm.tree, vm.pmm.free, page, |made|);
    MadeEnough(ok, made, missing, vm.pmm.free);
  }

  /** heap_init. It succeeds exactly if there is a frame for the first page and one for each table missing for it. On
      failure the page is given back, but not the tables. */
  method InitHeap(vm: AddressSpace) returns (heap: Heap.Heap?, ghost page: nat)
    requires vm.Valid()
    modifies vm`ram, vm`tree, vm`mapping, vm.pmm`freePages, vm.pmm`free, vm.pmm.bitmap
    ensures vm.Valid()
    ensures Exhausted(old(vm.pmm.free)) ==> heap == null
    ensures !Exhausted(old(vm.pmm.free)) ==>
      LowestFree(old(vm.pmm.free), page)
      && (heap != null <==>
          |Available(old(vm.pmm.free))| >= 1 + |MissingFor(old(vm.ram), vm.pml4, PageNumbered(page))|)
    ensures heap != null ==>
      fresh(heap) && heap.Consistent() && heap.order == [Blocks.Blk(page * PAGE_SIZE, PAGE_SIZE, true)]
      && vm.mapping == old(vm.mapping)[page := page] && Backed(heap.order, vm.mapping, vm.tree, vm.pmm.free)
    ensures heap == null ==> vm.mapping == old(vm.mapping) && vm.pmm.free == old(vm.pmm.free) - vm.tree.Keys
  {
    var ok, mem;
    ok, mem, page := MapFirst(vm);
    heap := null;
    if ok {
      FirstPage(vm.mapping, vm.tree, vm.pmm.free, page);
      heap := new Heap.Heap(mem);
    } else if mem != NULL {
      GivenBack(old(vm.tree), old(vm.pmm.free), vm.tree, vm.pmm.free, page);
      vm.pmm.FreePage(mem);
    }
  }

  lemma GivenBack(tree0: map<nat, Node>, free0: set<nat>, tree: map<nat, Node>, free: set<nat>, page: nat)
    requires InUse(tree0, free0) && InUse(tree, free) && page in free0 && page < TOTAL_PAGES
    requires Taken(tree0, free0 - {page}, tree, free)
    ensures InUse(tree, free + {page}) && free + {page} == free0 - tree.Keys
  {
  }

  lemma OwnAddress(addr: nat, page: nat)
    requires addr % PAGE_SIZE == 0 && page == addr / PAGE_SIZE < TOTAL_PAGES
    ensures addr == page * PAGE_SIZE && Vpn(addr) == page
  {
  }

  lemma MadeEnough(ok: bool, made: set<Place>, missing: set<Place>, free: set<nat>)
    requires made <= missing && (ok <==> made == missing) && (!ok ==> Exhausted(free))
    ensures ok <==> |Available(free)| + |made| >= |missing|
  {
    if !ok {
      NoneAvailable(free);
      SmallerSizes(made, missing, missing);
    }
  }

  lemma FirstPage(m: map<nat, nat>, tree: map<nat, Node>, free: set<nat>, page: nat)
    requires 0 < page < TOTAL_PAGES && Get(m, page) == Some(page) && page !in tree && page !in free
    ensures Backed([Blocks.Blk(page * PAGE_SIZE, PAGE_SIZE, true)], m, tree, free)
  {
    assert FramesOf(m, page + 1, page + 1) == {};
    assert FramesOf(m, page, page + 1) == {page};
  }

  /** The page behind the heap, to which it grows. */
  function NextPage(order: seq<Blocks.Blk>): nat
    requires order != []
  {
    EndOf(order) / PAGE_SIZE
  }

  /** The statistics with one more free block. */
  function Grew(stats: Blocks.Stats, growth: nat): Blocks.Stats {
    Blocks.Wrapped(Blocks.Plus(stats, Blocks.Stats(growth, 0, growth, 1, 1)))
  }

  /** After `n` pages were taken the heap may grow over them, and stays below 4 GiB. */
  lemma Enlarging(order: seq<Blocks.Blk>, n: nat, start: nat, lo: nat, hi: nat,
                  m: map<nat, nat>, tree: map<nat, Node>, free: set<nat>)
    requires order != [] && StartOf(order) % PAGE_SIZE == 0 && EndOf(order) % PAGE_SIZE == 0
    requires start == StartOf(order) / PAGE_SIZE <= lo == NextPage(order) && hi == lo + n
    requires Owns(m, tree, free, start, hi) && hi - start < TOTAL_PAGES
    ensures EndOf(order) - StartOf(order) + n * PAGE_SIZE < Blocks.SIZE_SPAN
    ensures Backed(Blocks.Extended(order, n * PAGE_SIZE), m, tree, free)
  {
    WholePages(StartOf(order), EndOf(order), n);
    assert StartOf(Blocks.Extended(order, n * PAGE_SIZE)) == StartOf(order);
    assert EndOf(Blocks.Extended(order, n * PAGE_SIZE)) == EndOf(order) + n * PAGE_SIZE;
  }

  lemma WholePages(start: nat, end: nat, n: nat)
    requires start % PAGE_SIZE == 0 && end % PAGE_SIZE == 0
    ensures (end + n * PAGE_SIZE) % PAGE_SIZE == 0 && (end + n * PAGE_SIZE) / PAGE_SIZE == end / PAGE_SIZE + n
    ensures end / PAGE_SIZE + n - start / PAGE_SIZE < TOTAL_PAGES ==> end - start + n * PAGE_SIZE < Blocks.SIZE_SPAN
  {
  }

  /** The last block, and the page behind it. */
  method FindEnd(heap: Heap.Heap) returns (last: nat, page: nat)
    requires heap.Valid()
    ensures last == LastOf(heap.order) && page == NextPage(heap.order)
  {
    last := heap.LastBlock();
    assert Blocks.HeaderAt(heap.headers, heap.order, |heap.order| - 1);
    page := (last + heap.headers[last].size) / PAGE_SIZE;
  }

  /** What expand_heap does to the heap when it has got `n` pages: as Heap.ExpandHeap says. */
  twostate predicate Enlarged(heap: Heap.Heap, n: nat, r: nat)
    requires old(heap.order) != []
    reads heap
  {
    && r != NULL && heap.Headed(r) && heap.stats == Grew(old(heap.stats), n * PAGE_SIZE)
    && (n > 0 ==>
         heap.Valid() && heap.order == Blocks.Extended(old(heap.order), n * PAGE_SIZE)
         && r == heap.order[|old(heap.order)|].addr && Heap.PayloadsKept(old(heap.order), old(heap.mem), heap.mem, -1))
  }

  /** The end of expand_heap: set up the new block behind the last one. */
  method Enlarge(heap: Heap.Heap, last: nat, n: nat) returns (r: nat)
    requires heap.Valid() && last == LastOf(heap.order)
    requires EndOf(heap.order) - StartOf(heap.order) + n * PAGE_SIZE < Blocks.SIZE_SPAN
    modifies heap
    ensures Enlarged(heap, n, r)
  {
    Blocks.Extent(heap.order, 1);
    r := heap.Append(last, n * PAGE_SIZE);
  }

  /** The pages_needed of expand_heap. */
  function PagesNeeded(size: nat): (n: nat)
    ensures Heap.Growth(size) == n * PAGE_SIZE
  {
    Heap.Growth(size) / PAGE_SIZE
  }

  /** expand_heap, which grows the heap over the `n` pages [lo, hi) behind it. It succeeds exactly if there are frames
      for the pages, for the page tables they need, and for one page more, which is lost. On failure every frame that
      could be handed out is lost. */
  method ExpandHeap(heap: Heap.Heap, vm: AddressSpace, size: nat)
    returns (r: nat, n: nat, lo: nat, hi: nat, ghost lost: nat)
    requires heap.Valid() && vm.Valid() && Backed(heap.order, vm.mapping, vm.tree, vm.pmm.free)
    modifies heap, vm`ram, vm`tree, vm`mapping, vm.pmm`freePages, vm.pmm`free, vm.pmm.bitmap
    ensures vm.Valid() && n == PagesNeeded(size) && lo == NextPage(old(heap.order)) && hi == lo + n
    ensures r == NULL ==>
      heap.Valid() && heap.order == old(heap.order) && heap.stats == old(heap.stats) && heap.mem == old(heap.mem)
    ensures r != NULL ==> Enlarged(heap, n, r)
    ensures r == NULL || n > 0 ==> Backed(heap.order, vm.mapping, vm.tree, vm.pmm.free)
    ensures r != NULL <==> CanGrow(old(vm.pmm.free), old(vm.ram), vm.pml4, lo, hi)
    ensures r != NULL ==>
      HeapGrown(old(vm.mapping), old(vm.tree), old(vm.pmm.free), vm.mapping, vm.tree, vm.pmm.free, lo, hi, lost)
    ensures r == NULL ==> Exhausted(vm.pmm.free)
    ensures vm.pmm.free == old(vm.pmm.free) <==> Exhausted(old(vm.pmm.free))
  {
    ghost var order0, start := heap.order, StartOf(heap.order) / PAGE_SIZE;
    n := PagesNeeded(size);
    var last;
    last, lo := FindEnd(heap);
    hi := lo + n;
    var ok;
    ok, lost := TakePages(vm, lo, hi, start);
    r := NULL;
    if ok {
      Enlarging(order0, n, start, lo, hi, vm.mapping, vm.tree, vm.pmm.free);
      r := Enlarge(heap, last, n);
    }
  }
}
