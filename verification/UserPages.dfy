/** Mapping a run of virtual pages to newly allocated frames, as sys_brk (kernel/src/core/syscalls.c)
    and the ELF loader (kernel/src/core/elf.c) do page by page. */
module UserPages {
  import opened Machine
  import opened Arith
  import opened Pmm
  import opened Vmm

  /** The virtual page number of the address v * PAGE_SIZE. */
  function PageOf(v: nat): nat {
    v % VPN_COUNT
  }

  lemma PageOfAddress(v: nat)
    ensures Vpn(v * PAGE_SIZE) == PageOf(v) && v * PAGE_SIZE % PAGE_SIZE == 0
  {
  }

  /** The virtual pages of the addresses v * PAGE_SIZE with lo <= v < hi. */
  ghost function Pages(lo: nat, hi: nat): set<nat>
    requires lo <= hi
    decreases hi - lo
  {
    if lo == hi then {} else Pages(lo, hi - 1) + {PageOf(hi - 1)}
  }

  lemma {:induction false} PagesFromBelow(lo: nat, hi: nat)
    requires lo < hi
    ensures Pages(lo, hi) == {PageOf(lo)} + Pages(lo + 1, hi)
    decreases hi - lo
  {
    if lo + 1 < hi {
      PagesFromBelow(lo, hi - 1);
    }
  }

  /** Fewer than 2^36 consecutive pages are distinct. */
  lemma {:induction false} FreshPage(lo: nat, hi: nat, v: nat)
    requires lo <= hi <= v < lo + VPN_COUNT
    ensures PageOf(v) !in Pages(lo, hi)
    decreases hi - lo
  {
    if lo < hi {
      FreshPage(lo, hi - 1, v);
      DistinctPages(hi - 1, v);
    }
  }

  lemma DistinctPages(v: nat, w: nat)
    requires v < w < v + VPN_COUNT
    ensures PageOf(v) != PageOf(w)
  {
    ModDiffers(v, w, VPN_COUNT);
  }

  ghost predicate SameOutside(m0: map<nat, nat>, m: map<nat, nat>, pages: set<nat>) {
    forall p: nat | p !in pages :: Get(m, p) == Get(m0, p)
  }

  ghost function FrameOfPage(m: map<nat, nat>, p: nat): set<nat> {
    if p in m && 0 < m[p] < TOTAL_PAGES then {m[p]} else {}
  }

  /** The frames that unmapping the pages [lo, hi) gives back. */
  ghost function FramesOf(m: map<nat, nat>, lo: nat, hi: nat): set<nat>
    requires lo <= hi
    decreases hi - lo
  {
    if lo == hi then {} else FramesOf(m, lo + 1, hi) + FrameOfPage(m, PageOf(lo))
  }

  lemma {:induction false} FramesOfPages(m: map<nat, nat>, lo: nat, hi: nat, p: nat)
    requires lo <= hi && p in Pages(lo, hi)
    ensures FrameOfPage(m, p) <= FramesOf(m, lo, hi)
    decreases hi - lo
  {
    PagesFromBelow(lo, hi);
    if p != PageOf(lo) {
      FramesOfPages(m, lo + 1, hi, p);
    }
  }

  lemma {:induction false} FramesOfSuffix(m: map<nat, nat>, lo: nat, v: nat, hi: nat)
    requires lo <= v <= hi
    ensures FramesOf(m, v, hi) <= FramesOf(m, lo, hi)
    decreases v - lo
  {
    if lo < v {
      FramesOfSuffix(m, lo + 1, v, hi);
    }
  }

  /** What growing over the pages [lo, hi) has done to translations, tables and free frames:
      every page has its own frame, taken from the free ones, and the rest of what was taken is new tables. */
  ghost predicate Grown(m0: map<nat, nat>, tree0: map<nat, Node>, free0: set<nat>,
                        m: map<nat, nat>, tree: map<nat, Node>, free: set<nat>, lo: nat, hi: nat)
    requires lo <= hi
  {
    var frames := FramesOf(m, lo, hi);
    && SameOutside(m0, m, Pages(lo, hi))
    && |frames| == hi - lo && frames <= free0 && frames !! tree.Keys
    && tree0.Keys <= tree.Keys <= tree0.Keys + free0
    && free == free0 - tree.Keys - frames
  }

  lemma NothingGrown(m: map<nat, nat>, tree: map<nat, Node>, free: set<nat>, lo: nat)
    requires InUse(tree, free)
    ensures Grown(m, tree, free, m, tree, free, lo, lo)
  {
  }

  lemma GrownMore(m0: map<nat, nat>, tree0: map<nat, Node>, free0: set<nat>,
                  m1: map<nat, nat>, tree1: map<nat, Node>, free1: set<nat>,
                  m: map<nat, nat>, tree: map<nat, Node>, free: set<nat>, lo: nat, v: nat, f: nat)
    requires lo <= v < lo + VPN_COUNT && Grown(m0, tree0, free0, m1, tree1, free1, lo, v)
    requires m == m1[PageOf(v) := f]
    requires 0 < f < TOTAL_PAGES && f in free1 && InUse(tree1, free1) && Taken(tree1, free1 - {f}, tree, free)
    ensures Grown(m0, tree0, free0, m, tree, free, lo, v + 1)
  {
    FramesOfMapped(m1, lo, v, v, f);
    assert Pages(lo, v + 1) == Pages(lo, v) + {PageOf(v)};
    FramesMore(tree0.Keys, tree1.Keys, tree.Keys, free0, free1, free, FramesOf(m1, lo, v), f);
  }

  /** Taking frame `f` for a page, after new tables were taken as well. */
  lemma FramesMore(tables0: set<nat>, tables1: set<nat>, tables: set<nat>, free0: set<nat>, free1: set<nat>,
                   free: set<nat>, frames: set<nat>, f: nat)
    requires frames <= free0 && frames !! tables1 && tables0 <= tables1 <= tables0 + free0
    requires free1 == free0 - tables1 - frames && f in free1 && free1 !! tables1
    requires tables1 <= tables <= tables1 + (free1 - {f}) && free == free1 - {f} - tables
    ensures |frames + {f}| == |frames| + 1 && frames + {f} <= free0 && (frames + {f}) !! tables
    ensures tables0 <= tables <= tables0 + free0 && free == free0 - tables - (frames + {f})
  {
  }

  /** Mapping page `v` to frame `f` adds `f` to the frames of the pages below. */
  lemma {:induction false} FramesOfMapped(m: map<nat, nat>, lo: nat, hi: nat, v: nat, f: nat)
    requires lo <= hi <= v < lo + VPN_COUNT && 0 < f < TOTAL_PAGES
    ensures var m' := m[PageOf(v) := f];
      FramesOf(m', lo, hi) == FramesOf(m, lo, hi) && (hi == v ==> FramesOf(m', lo, v + 1) == FramesOf(m, lo, v) + {f})
    decreases hi - lo
  {
    if lo < hi {
      FramesOfMapped(m, lo + 1, hi, v, f);
      DistinctPages(lo, v);
    } else if hi == v {
      var m' := m[PageOf(v) := f];
      assert FramesOf(m', v + 1, v + 1) == {};
    }
  }

  lemma {:induction false} PagesGrow(lo: nat, mid: nat, hi: nat)
    requires lo <= mid <= hi
    ensures Pages(lo, mid) <= Pages(lo, hi)
    decreases hi - mid
  {
    if mid < hi {
      PagesGrow(lo, mid, hi - 1);
    }
  }

  lemma {:induction false} FramesOfCount(m: map<nat, nat>, lo: nat, hi: nat)
    requires lo <= hi
    ensures |FramesOf(m, lo, hi)| <= hi - lo
    decreases hi - lo
  {
    if lo < hi {
      FramesOfCount(m, lo + 1, hi);
      UnionSize(FramesOf(m, lo + 1, hi), FrameOfPage(m, PageOf(lo)));
    }
  }

  lemma UnionSize(a: set<nat>, b: set<nat>)
    ensures |a + b| <= |a| + |b|
  {
    assert a + b == a + (b - a);
    SubsetSize(b - a, b);
  }

  /** If there are as many frames as pages, every page is mapped to a frame. */
  lemma {:induction false} AllMapped(m: map<nat, nat>, lo: nat, hi: nat, p: nat)
    requires lo <= hi && |FramesOf(m, lo, hi)| == hi - lo && p in Pages(lo, hi)
    ensures FrameOfPage(m, p) != {}
    decreases hi - lo
  {
    PagesFromBelow(lo, hi);
    FullCount(m, lo, hi);
    if p != PageOf(lo) {
      AllMapped(m, lo + 1, hi, p);
    }
  }

  lemma FullCount(m: map<nat, nat>, lo: nat, hi: nat)
    requires lo < hi && |FramesOf(m, lo, hi)| == hi - lo
    ensures |FramesOf(m, lo + 1, hi)| == hi - (lo + 1) && FrameOfPage(m, PageOf(lo)) != {}
  {
    var rest, first := FramesOf(m, lo + 1, hi), FrameOfPage(m, PageOf(lo));
    FramesOfCount(m, lo + 1, hi);
    UnionSize(rest, first);
    assert FramesOf(m, lo, hi) == rest + first;
  }

  lemma {:induction false} PagesMember(lo: nat, hi: nat, v: nat)
    requires lo <= v < hi
    ensures PageOf(v) in Pages(lo, hi)
    decreases hi - lo
  {
    if v < hi - 1 {
      PagesMember(lo, hi - 1, v);
    }
  }

  /** ... and no two pages share a frame. */
  lemma {:induction false} FramesDiffer(m: map<nat, nat>, lo: nat, hi: nat, v: nat, w: nat)
    requires lo <= v < w < hi && |FramesOf(m, lo, hi)| == hi - lo
    ensures Get(m, PageOf(v)) != Get(m, PageOf(w))
    decreases hi - lo
  {
    FullCount(m, lo, hi);
    if v == lo {
      PagesMember(lo + 1, hi, w);
      FramesOfPages(m, lo + 1, hi, PageOf(w));
      var rest, first := FramesOf(m, lo + 1, hi), FrameOfPage(m, PageOf(lo));
      assert FramesOf(m, lo, hi) == rest + first;
      assert first <= rest ==> rest + first == rest;
      assert FrameOfPage(m, PageOf(w)) <= rest;
    } else {
      FramesDiffer(m, lo + 1, hi, v, w);
    }
  }

  lemma SmallerSet(a: set<nat>, b: set<nat>, f: nat)
    requires a <= b - {f} && f in b
    ensures |a| < |b|
  {
    SubsetSize(a, b - {f});
  }

  lemma {:induction false} FramesSplit(m: map<nat, nat>, lo: nat, mid: nat, hi: nat)
    requires lo <= mid <= hi
    ensures FramesOf(m, lo, hi) == FramesOf(m, lo, mid) + FramesOf(m, mid, hi)
    decreases mid - lo
  {
    if lo < mid {
      FramesSplit(m, lo + 1, mid, hi);
    }
  }

  /** Changing other pages does not change the frames of these. */
  lemma {:induction false} FramesSame(m0: map<nat, nat>, m: map<nat, nat>, lo: nat, mid: nat, hi: nat)
    requires lo <= mid <= hi <= lo + VPN_COUNT && SameOutside(m0, m, Pages(mid, hi))
    ensures FramesOf(m, lo, mid) == FramesOf(m0, lo, mid)
    decreases mid - lo
  {
    if lo < mid {
      FramesSame(m0, m, lo + 1, mid, hi);
      OlderPage(lo, mid, hi);
      assert Get(m, PageOf(lo)) == Get(m0, PageOf(lo));
    }
  }

  lemma {:induction false} OlderPage(v: nat, mid: nat, hi: nat)
    requires v < mid <= hi <= v + VPN_COUNT
    ensures PageOf(v) !in Pages(mid, hi)
    decreases hi - mid
  {
    if mid < hi {
      OlderPage(v, mid, hi - 1);
      DistinctPages(v, hi - 1);
    }
  }

  /** The pages [lo, hi) have frames of their own, none of which is free or holds a page table. */
  ghost predicate Owns(m: map<nat, nat>, tree: map<nat, Node>, free: set<nat>, lo: nat, hi: nat)
    requires lo <= hi
  {
    var frames := FramesOf(m, lo, hi);
    |frames| == hi - lo && frames !! tree.Keys && frames !! free
  }

  lemma GrowOwns(m0: map<nat, nat>, tree0: map<nat, Node>, free0: set<nat>, m: map<nat, nat>, tree: map<nat, Node>,
                 free: set<nat>, lo: nat, mid: nat, hi: nat)
    requires lo <= mid <= hi <= lo + VPN_COUNT
    requires Owns(m0, tree0, free0, lo, mid) && Grown(m0, tree0, free0, m, tree, free, mid, hi)
    ensures Owns(m, tree, free, lo, hi)
  {
    FramesSame(m0, m, lo, mid, hi);
    FramesSplit(m, lo, mid, hi);
  }

  /** A failed growth takes nothing from the pages below. */
  lemma FailureOwns(m0: map<nat, nat>, tree0: map<nat, Node>, free0: set<nat>, m: map<nat, nat>, tree: map<nat, Node>,
                    free: set<nat>, lo: nat, mid: nat, hi: nat)
    requires lo <= mid <= hi <= lo + VPN_COUNT && Owns(m0, tree0, free0, lo, mid)
    requires SameOutside(m0, m, Pages(mid, hi)) && tree.Keys <= tree0.Keys + free0 && free <= free0
    ensures Owns(m, tree, free, lo, mid)
  {
    FramesSame(m0, m, lo, mid, hi);
  }

  /** The frames the allocator can hand out. */
  ghost function Available(free: set<nat>): set<nat> {
    set p | p in free && p >= BITS_PER_ENTRY
  }

  ghost function UnionOf<T>(f: nat -> set<T>, lo: nat, hi: nat): set<T>
    requires lo <= hi
    decreases hi - lo
  {
    if lo == hi then {} else UnionOf(f, lo, hi - 1) + f(hi - 1)
  }

  lemma {:induction false} UnionGrows<T>(f: nat -> set<T>, lo: nat, mid: nat, hi: nat)
    requires lo <= mid <= hi
    ensures UnionOf(f, lo, mid) <= UnionOf(f, lo, hi)
    decreases hi - mid
  {
    if mid < hi {
      UnionGrows(f, lo, mid, hi - 1);
    }
  }

  function MissingAt(ram: Ram, root: nat): nat -> set<Place> {
    (v: nat) => MissingFor(ram, root, PageNumbered(PageOf(v)))
  }

  /** The places of the tables that are missing for the pages [lo, hi). */
  ghost function Missing(ram: Ram, root: nat, lo: nat, hi: nat): set<Place>
    requires lo <= hi
  {
    UnionOf(MissingAt(ram, root), lo, hi)
  }

  /** There are frames enough for the pages [lo, hi) and the tables they need. */
  ghost predicate Enough(free: set<nat>, ram: Ram, root: nat, lo: nat, hi: nat)
    requires lo <= hi
  {
    |Available(free)| >= hi - lo + |Missing(ram, root, lo, hi)|
  }

  /** What is still missing for a page after tables were made. */
  lemma StillMissing(ram0: Ram, ram: Ram, root: nat, made: set<Place>, page: Page)
    requires Made(ram0, ram, root, made)
    ensures made + MissingFor(ram, root, page) == made + MissingFor(ram0, root, page)
    ensures made !! MissingFor(ram, root, page)
  {
    MissingOne(ram0, ram, root, made, PlaceOf(page, 3));
    MissingOne(ram0, ram, root, made, PlaceOf(page, 2));
    MissingOne(ram0, ram, root, made, PlaceOf(page, 1));
  }

  lemma MissingOne(ram0: Ram, ram: Ram, root: nat, made: set<Place>, k: Place)
    requires Made(ram0, ram, root, made) && IsPlace(k)
    ensures NoTableAt(ram, root, k) == NoTableAt(ram0, root, k) - made
  {
  }

  /** A frame and those of new tables are no longer available. */
  lemma FramesTaken(tree0: map<nat, Node>, free0: set<nat>, tree: map<nat, Node>, free: set<nat>, f: nat, n: nat)
    requires InUse(tree0, free0) && f in free0 && f >= BITS_PER_ENTRY
    requires Taken(tree0, free0 - {f}, tree, free) && |tree.Keys - tree0.Keys| == n
    ensures |Available(free0)| == |Available(free)| + 1 + n
  {
    var tables := tree.Keys - tree0.Keys;
    TablesTaken(tree0.Keys, free0, tree.Keys, free, f);
    LessAvailable(free0, tables + {f}, free);
  }

  lemma TablesTaken(tables0: set<nat>, free0: set<nat>, tables: set<nat>, free: set<nat>, f: nat)
    requires free0 !! tables0 && f in free0 && f >= BITS_PER_ENTRY && OnlyTaken(free0 - {f}, free)
    requires tables0 <= tables <= tables0 + (free0 - {f}) && free == free0 - {f} - tables
    ensures OnlyTaken(free0, free) && (tables - tables0) + {f} <= free0
    ensures free == free0 - ((tables - tables0) + {f}) && |(tables - tables0) + {f}| == |tables - tables0| + 1
  {
  }

  lemma LessAvailable(free0: set<nat>, taken: set<nat>, free: set<nat>)
    requires taken <= free0 && free == free0 - taken && OnlyTaken(free0, free)
    ensures |Available(free0)| == |Available(free)| + |taken|
  {
    assert Available(free0) == Available(free) + taken;
  }

  lemma NoneAvailable(free: set<nat>)
    requires Exhausted(free)
    ensures Available(free) == {}
  {
  }

  datatype Outcome = Mapped | NoFrame | NoTable

  /** How many of the `frames0` frames such a loop has used after `n` pages: one for each, and one for each table made,
      which are all that were `missing`; on failure no frame is left, and not all is there that the next page needs. */
  ghost predicate Balanced(outcome: Outcome, frames0: nat, frames: nat, n: nat,
                           made: set<Place>, missing: set<Place>, next: set<Place>)
  {
    match outcome
    case Mapped => made == missing && frames0 == frames + n + |made|
    case NoFrame => made <= next && frames0 == n + |made|
    case NoTable => made < next && frames0 == n + |made| + 1
  }

  lemma BalancedEnd(outcome: Outcome, frames0: nat, frames: nat, n: nat, made: set<Place>, missing: set<Place>,
                    next: set<Place>, total: nat, all: set<Place>)
    requires Balanced(outcome, frames0, frames, n, made, missing, next)
    requires if outcome == Mapped then n == total && missing == all else n < total && next <= all
    ensures outcome == Mapped <==> frames0 >= total + |all|
  {
    if outcome != Mapped {
      SmallerSizes(made, next, all);
    }
  }

  /** One more page, for which the tables `made1` were made. */
  lemma BalancedMore(outcome: Outcome, frames0: nat, frames1: nat, frames: nat, n: nat,
                     made0: set<Place>, made1: set<Place>, missing: set<Place>, missing0: set<Place>,
                     missing1: set<Place>, beyond: set<Place>)
    requires outcome != NoFrame && frames1 == frames + 1 + |made1| && (outcome == NoTable ==> frames == 0)
    requires Balanced(Mapped, frames0, frames1, n, made0, missing, missing + missing0)
    requires made0 !! missing1 && made1 <= missing1 && made0 + missing1 == made0 + missing0
    requires outcome == Mapped <==> made1 == missing1
    ensures if outcome == Mapped
            then Balanced(outcome, frames0, frames, n + 1, made0 + made1, missing + missing0, beyond)
            else Balanced(outcome, frames0, frames, n, made0 + made1, missing, missing + missing0)
  {
    assert made0 !! made1;
    if made1 != missing1 {
      var x :| x in missing1 && x !in made1;
      assert x !in made0 + made1 && x in made0 + missing1;
    }
  }

  lemma SmallerSizes<T>(a: set<T>, b: set<T>, c: set<T>)
    requires a <= b <= c
    ensures |a| <= |c| && (a != b ==> |a| < |c|)
  {
    SubsetSize(a, c);
    if a != b {
      var x :| x in b && x !in a;
      SubsetSize(a + {x}, c);
    }
  }

  /** The same of the loop that began at page `lo` and has come to page `v`. */
  ghost predicate Counted(outcome: Outcome, ram0: Ram, free0: set<nat>, ram: Ram, root: nat, free: set<nat>,
                          lo: nat, v: nat, made: set<Place>)
    requires lo <= v
  {
    && Made(ram0, ram, root, made)
    && Balanced(outcome, |Available(free0)|, |Available(free)|, v - lo, made, Missing(ram0, root, lo, v),
                Missing(ram0, root, lo, v + 1))
  }

  lemma CountedMore(outcome: Outcome, ram0: Ram, free0: set<nat>, ram1: Ram, free1: set<nat>,
                    ram: Ram, root: nat, free: set<nat>, lo: nat, v: nat, made0: set<Place>, made1: set<Place>)
    requires lo <= v && Counted(Mapped, ram0, free0, ram1, root, free1, lo, v, made0)
    requires Made(ram1, ram, root, made1) && made1 <= MissingAt(ram1, root)(v)
    requires outcome == Mapped <==> made1 == MissingAt(ram1, root)(v)
    requires |Available(free1)| == |Available(free)| + 1 + |made1| && (outcome == NoTable ==> Exhausted(free))
    requires outcome != NoFrame
    ensures Counted(outcome, ram0, free0, ram, root, free, lo, if outcome == Mapped then v + 1 else v, made0 + made1)
  {
    MadeMore(ram0, ram1, ram, root, made0, made1);
    StillMissing(ram0, ram1, root, made0, PageNumbered(PageOf(v)));
    if outcome == NoTable {
      NoneAvailable(free);
    }
    BalancedMore(outcome, |Available(free0)|, |Available(free1)|, |Available(free)|, v - lo, made0, made1,
                 Missing(ram0, root, lo, v), MissingAt(ram0, root)(v), MissingAt(ram1, root)(v),
                 Missing(ram0, root, lo, v + 2));
  }

  lemma CountedStop(ram0: Ram, free0: set<nat>, ram: Ram, root: nat, free: set<nat>, lo: nat, v: nat, made: set<Place>)
    requires lo <= v && Counted(Mapped, ram0, free0, ram, root, free, lo, v, made) && Exhausted(free)
    ensures Counted(NoFrame, ram0, free0, ram, root, free, lo, v, made)
  {
    NoneAvailable(free);
    UnionGrows(MissingAt(ram0, root), lo, v, v + 1);
  }

  /** The loop ends well exactly if there were frames enough at the start. */
  lemma CountedEnd(outcome: Outcome, ram0: Ram, free0: set<nat>, ram: Ram, root: nat, free: set<nat>,
                   lo: nat, v: nat, hi: nat, made: set<Place>)
    requires lo <= v <= hi && Counted(outcome, ram0, free0, ram, root, free, lo, v, made)
    requires if outcome == Mapped then v == hi else v < hi
    ensures outcome == Mapped <==> Enough(free0, ram0, root, lo, hi)
  {
    if v < hi {
      UnionGrows(MissingAt(ram0, root), lo, v + 1, hi);
    }
    BalancedEnd(outcome, |Available(free0)|, |Available(free)|, v - lo, made, Missing(ram0, root, lo, v),
                Missing(ram0, root, lo, v + 1), hi - lo, Missing(ram0, root, lo, hi));
  }

  /** The state of such a loop that began at page `lo` and has come to page `v`. */
  ghost predicate Mapping(outcome: Outcome, m0: map<nat, nat>, tree0: map<nat, Node>, free0: set<nat>,
                          m: map<nat, nat>, tree: map<nat, Node>, free: set<nat>, count: nat, lo: nat, v: nat)
    requires lo <= v
  {
    && OnlyTaken(free0, free) && tree.Keys <= tree0.Keys + free0 && v - lo <= TOTAL_PAGES
    && if outcome == Mapped then Grown(m0, tree0, free0, m, tree, free, lo, v) && v - lo + count <= TOTAL_PAGES
       else SameOutside(m0, m, Pages(lo, v)) && Exhausted(free)
  }

  /** One turn of such a loop: a new frame for page `v`. */
  method GrowOne(vm: AddressSpace, v: nat, flags: nat, ghost lo: nat, ghost m0: map<nat, nat>,
                 ghost ram0: Ram, ghost tree0: map<nat, Node>, ghost free0: set<nat>, ghost made0: set<Place>)
    returns (outcome: Outcome, next: nat, ghost made: set<Place>)
    requires vm.Valid() && flags < PAGE_SIZE && lo <= v
    requires Mapping(Mapped, m0, tree0, free0, vm.mapping, vm.tree, vm.pmm.free, vm.pmm.freePages, lo, v)
    requires Counted(Mapped, ram0, free0, vm.ram, vm.pml4, vm.pmm.free, lo, v, made0)
    modifies vm`ram, vm`tree, vm`mapping, vm.pmm`freePages, vm.pmm`free, vm.pmm.bitmap
    ensures vm.Valid() && next == if outcome == Mapped then v + 1 else v
    ensures Mapping(outcome, m0, tree0, free0, vm.mapping, vm.tree, vm.pmm.free, vm.pmm.freePages, lo, next)
    ensures Counted(outcome, ram0, free0, vm.ram, vm.pml4, vm.pmm.free, lo, next, made)
  {
    ghost var m1, tree1, free1 := vm.mapping, vm.tree, vm.pmm.free;
    ghost var f;
    outcome, f, made := MapFresh(vm, v, flags, lo, ram0, free0, made0);
    next := v;
    if outcome == Mapped {
      GrownMore(m0, tree0, free0, m1, tree1, free1, vm.mapping, vm.tree, vm.pmm.free, lo, v, f);
      next := v + 1;
    }
  }

  method MapFresh(vm: AddressSpace, v: nat, flags: nat, ghost lo: nat, ghost ram0: Ram, ghost free0: set<nat>,
                  ghost made0: set<Place>)
    returns (outcome: Outcome, ghost f: nat, ghost made: set<Place>)
    requires vm.Valid() && flags < PAGE_SIZE && lo <= v
    requires Counted(Mapped, ram0, free0, vm.ram, vm.pml4, vm.pmm.free, lo, v, made0)
    modifies vm`ram, vm`tree, vm`mapping, vm.pmm`freePages, vm.pmm`free, vm.pmm.bitmap
    ensures vm.Valid()
    ensures outcome == Mapped ==>
      0 < f < TOTAL_PAGES && f in old(vm.pmm.free) && vm.pmm.freePages < old(vm.pmm.freePages)
    ensures OnlyTaken(old(vm.pmm.free), vm.pmm.free) && vm.tree.Keys <= old(vm.tree).Keys + old(vm.pmm.free)
    ensures outcome == Mapped ==> vm.mapping == old(vm.mapping)[PageOf(v) := f]
    ensures outcome == Mapped ==> Taken(old(vm.tree), old(vm.pmm.free) - {f}, vm.tree, vm.pmm.free)
    ensures outcome != Mapped ==> vm.mapping == old(vm.mapping) && Exhausted(vm.pmm.free)
    ensures Counted(outcome, ram0, free0, vm.ram, vm.pml4, vm.pmm.free, lo,
                    if outcome == Mapped then v + 1 else v, made)
  {
    ghost var ram1, tree1, free1 := vm.ram, vm.tree, vm.pmm.free;
    PageOfAddress(v);
    var phys := vm.pmm.AllocPage();
    f := phys / PAGE_SIZE;
    if phys == NULL {
      CountedStop(ram0, free0, vm.ram, vm.pml4, vm.pmm.free, lo, v, made0);
      return NoFrame, f, made0;
    }
    var ok;
    ghost var made1;
    ok, made1 := vm.MapPage(v * PAGE_SIZE, phys, flags);
    outcome, made := if ok then Mapped else NoTable, made0 + made1;
    FramesTaken(tree1, free1, vm.tree, vm.pmm.free, f, |made1|);
    CountedMore(outcome, ram0, free0, ram1, free1, vm.ram, vm.pml4, vm.pmm.free, lo, v, made0, made1);
    if ok {
      SmallerSet(vm.pmm.free, old(vm.pmm.free), f);
    }
  }

  /** The loop itself, shared by sys_brk, expand_heap and the ELF loader: new frames for the pages [lo, hi), until one
      fails. None does exactly if there are frames enough for the pages and for the tables that are missing. */
  method MapPages(vm: AddressSpace, lo: nat, hi: nat, flags: nat) returns (outcome: Outcome, v: nat)
    requires vm.Valid() && flags < PAGE_SIZE && lo <= hi
    modifies vm`ram, vm`tree, vm`mapping, vm.pmm`freePages, vm.pmm`free, vm.pmm.bitmap
    ensures vm.Valid() && lo <= v <= hi && (outcome == Mapped ==> v == hi)
    ensures Mapping(outcome, old(vm.mapping), old(vm.tree), old(vm.pmm.free),
                    vm.mapping, vm.tree, vm.pmm.free, vm.pmm.freePages, lo, v)
    ensures outcome == Mapped <==> Enough(old(vm.pmm.free), old(vm.ram), vm.pml4, lo, hi)
  {
    ghost var m0, ram0, tree0, free0 := vm.mapping, vm.ram, vm.tree, vm.pmm.free;
    ghost var made := {};
    vm.pmm.FreeBound();
    v := lo;
    outcome := Mapped;
    while v < hi && outcome == Mapped
      invariant vm.Valid() && lo <= v <= hi && (outcome != Mapped ==> v < hi)
      invariant Mapping(outcome, m0, tree0, free0, vm.mapping, vm.tree, vm.pmm.free, vm.pmm.freePages, lo, v)
      invariant Counted(outcome, ram0, free0, vm.ram, vm.pml4, vm.pmm.free, lo, v, made)
      decreases hi - v, outcome == Mapped
    {
      outcome, v, made := GrowOne(vm, v, flags, lo, m0, ram0, tree0, free0, made);
    }
    CountedEnd(outcome, ram0, free0, vm.ram, vm.pml4, vm.pmm.free, lo, v, hi, made);
  }

  lemma UndoRestores(m0: map<nat, nat>, m1: map<nat, nat>, lo: nat, hi: nat)
    requires lo <= hi && SameOutside(m0, m1, Pages(lo, hi))
    ensures SameOutside(m0, m1 - Pages(lo, hi), Pages(lo, hi))
    ensures Pages(lo, hi) !! m0.Keys ==> m1 - Pages(lo, hi) == m0
  {
    if Pages(lo, hi) !! m0.Keys {
      var undone := m1 - Pages(lo, hi);
      assert forall p: nat :: Get(undone, p) == Get(m0, p);
      assert forall p: nat :: p in undone <==> Get(undone, p).Some?;
      assert forall p: nat :: p in m0 <==> Get(m0, p).Some?;
    }
  }

  /** Every frame the allocator can hand out is gone: of `free0` only the pages below 64 are left. */
  ghost predicate AllLeaked(free0: set<nat>, free: set<nat>) {
    forall p: nat :: p in free <==> p in free0 && p < BITS_PER_ENTRY
  }

  /** A successful growth maps every page of [lo, hi) to a fresh frame. A failed one means that no frame was left; it
      changes no translation outside the range, and none at all if the pages were unmapped, but gives none of the
      frames back that it had taken. */
  ghost predicate GrowOutcome(ok: bool, m0: map<nat, nat>, tree0: map<nat, Node>, free0: set<nat>,
                              m: map<nat, nat>, tree: map<nat, Node>, free: set<nat>, lo: nat, hi: nat)
    requires lo <= hi
  {
    if ok then Grown(m0, tree0, free0, m, tree, free, lo, hi)
    else
      && AllLeaked(free0, free) && tree.Keys <= tree0.Keys + free0
      && SameOutside(m0, m, Pages(lo, hi)) && (Pages(lo, hi) !! m0.Keys ==> m == m0)
  }

  lemma WiderOutcome(ok: bool, m0: map<nat, nat>, tree0: map<nat, Node>, free0: set<nat>,
                     m: map<nat, nat>, tree: map<nat, Node>, free: set<nat>, lo: nat, v: nat, hi: nat)
    requires lo <= v <= hi && (ok ==> v == hi) && GrowOutcome(ok, m0, tree0, free0, m, tree, free, lo, v)
    ensures GrowOutcome(ok, m0, tree0, free0, m, tree, free, lo, hi)
  {
    PagesGrow(lo, v, hi);
  }

  /** The loop with its cleanup, shared by sys_brk and expand_heap: map the pages [lo, hi) to new frames, or undo. */
  method GrowPages(vm: AddressSpace, lo: nat, hi: nat, flags: nat) returns (ok: bool, ghost v: nat)
    requires vm.Valid() && flags < PAGE_SIZE && lo <= hi
    modifies vm`ram, vm`tree, vm`mapping, vm.pmm`freePages, vm.pmm`free, vm.pmm.bitmap
    ensures vm.Valid() && lo <= v <= hi && v - lo <= TOTAL_PAGES && (ok ==> v == hi)
    ensures GrowOutcome(ok, old(vm.mapping), old(vm.tree), old(vm.pmm.free), vm.mapping, vm.tree, vm.pmm.free, lo, v)
    ensures ok <==> Enough(old(vm.pmm.free), old(vm.ram), vm.pml4, lo, hi)
  {
    ghost var m0 := vm.mapping;
    var outcome, end := MapPages(vm, lo, hi, flags);
    ok, v := outcome == Mapped, end;
    if !ok {
      UndoRestores(m0, vm.mapping, lo, end);
      UnmapRange(vm, lo, end);
    }
  }

  /** The cleanup loop. */
  method UnmapRange(vm: AddressSpace, lo: nat, hi: nat)
    requires vm.Valid() && lo <= hi
    modifies vm`ram, vm`mapping
    ensures vm.Valid()
    ensures vm.mapping == old(vm.mapping) - Pages(lo, hi)
  {
    for v := lo to hi
      invariant vm.Valid()
      invariant vm.mapping == old(vm.mapping) - Pages(lo, v)
    {
      PageOfAddress(v);
      var _ := vm.UnmapPage(v * PAGE_SIZE);
    }
  }
}
