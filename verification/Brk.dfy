/** sys_brk of kernel/src/core/syscalls.c, over the page tables and the frame allocator. */
module Brk {
  import opened Machine
  import opened Arith
  import opened Options
  import opened Pmm
  import opened Vmm
  import opened UserPages

  const FAILED: nat := 0xFFFF_FFFF_FFFF_FFFF    // (void*)-1
  const USER_SPAN: nat := 0x8000_0000_0000      // user addresses are canonical
  const FLAGS: nat := 7                         // PTE_PRESENT | PTE_WRITABLE | PTE_USER

  /** PAGE_ALIGN on 64-bit words. */
  function PageAlign(addr: nat): (r: nat)
    ensures r % PAGE_SIZE == 0
    ensures addr + PAGE_SIZE <= WORD_SPAN ==> addr <= r < addr + PAGE_SIZE
  {
    (addr + PAGE_SIZE - 1) % WORD_SPAN / PAGE_SIZE * PAGE_SIZE
  }

  /** Translations left after unmapping `pages`; a page mapped to physical address 0 is left alone. */
  ghost predicate UnmappedFrom(m0: map<nat, nat>, m: map<nat, nat>, pages: set<nat>) {
    forall p: nat :: Get(m, p) == if p in pages && Get(m0, p) != Some(0) then None else Get(m0, p)
  }

  /** What unmapping the pages [lo, hi) has done to translations and free frames. */
  ghost predicate Shrunk(m0: map<nat, nat>, free0: set<nat>, m: map<nat, nat>, free: set<nat>, lo: nat, hi: nat)
    requires lo <= hi
  {
    UnmappedFrom(m0, m, Pages(lo, hi)) && free == free0 + FramesOf(m0, lo, hi)
  }

  lemma UnmapMore(m0: map<nat, nat>, m1: map<nat, nat>, m: map<nat, nat>, v: nat, hi: nat,
                  free0: set<nat>, free1: set<nat>, free: set<nat>)
    requires v < hi && Shrunk(m0, free0, m1, free1, v + 1, hi)
    requires UnmappedFrom(m1, m, {PageOf(v)}) && free == free1 + FrameOfPage(m1, PageOf(v))
    ensures Shrunk(m0, free0, m, free, v, hi)
  {
    var p := PageOf(v);
    PagesFromBelow(v, hi);
    assert Get(m1, p) == if p in Pages(v + 1, hi) && Get(m0, p) != Some(0) then None else Get(m0, p);
    if p in Pages(v + 1, hi) {
      FramesOfPages(m0, v + 1, hi, p);
    }
  }

  /** One turn of the shrinking loop, in terms of its state. */
  lemma ShrinkStep(m0: map<nat, nat>, tree0: map<nat, Node>, free0: set<nat>,
                   m1: map<nat, nat>, free1: set<nat>, m: map<nat, nat>, tree: map<nat, Node>, free: set<nat>,
                   lo: nat, v: nat, hi: nat)
    requires lo <= v && Shrinking(m0, tree0, free0, m1, tree, free1, lo, v + 1, hi)
    requires UnmappedFrom(m1, m, {PageOf(v)}) && free == free1 + FrameOfPage(m1, PageOf(v))
    ensures Shrinking(m0, tree0, free0, m, tree, free, lo, v, hi)
  {
    UnmapMore(m0, m1, m, v, hi, free0, free1, free);
  }

  lemma TurnIsMapped(m0: map<nat, nat>, tree0: map<nat, Node>, free0: set<nat>,
                     m: map<nat, nat>, tree: map<nat, Node>, free: set<nat>, lo: nat, v: nat, hi: nat)
    requires lo <= v && Shrinking(m0, tree0, free0, m, tree, free, lo, v + 1, hi)
    ensures FrameOfPage(m, PageOf(v)) !! tree.Keys
  {
    StillMapped(m0, m, lo, v, hi, tree.Keys);
  }

  lemma StillMapped(m0: map<nat, nat>, m1: map<nat, nat>, lo: nat, v: nat, hi: nat, tables: set<nat>)
    requires lo <= v < hi && FramesOf(m0, lo, hi) !! tables && UnmappedFrom(m0, m1, Pages(v + 1, hi))
    ensures FrameOfPage(m1, PageOf(v)) !! tables
  {
    var p := PageOf(v);
    FramesOfSuffix(m0, lo, v, hi);
    assert Get(m1, p) == if p in Pages(v + 1, hi) && Get(m0, p) != Some(0) then None else Get(m0, p);
  }

  /** Unmapping what growing mapped gives the old translation back. */
  lemma ShrinkRestores(m0: map<nat, nat>, m1: map<nat, nat>, m: map<nat, nat>, lo: nat, hi: nat)
    requires lo <= hi && |FramesOf(m1, lo, hi)| == hi - lo && SameOutside(m0, m1, Pages(lo, hi))
    requires UnmappedFrom(m1, m, Pages(lo, hi)) && Pages(lo, hi) !! m0.Keys
    ensures m == m0
  {
    forall p: nat ensures Get(m, p) == Get(m0, p) {
      if p in Pages(lo, hi) {
        AllMapped(m1, lo, hi, p);
      }
    }
    assert forall p: nat :: p in m <==> Get(m, p).Some?;
    assert forall p: nat :: p in m0 <==> Get(m0, p).Some?;
  }

  lemma RoundTrip(m0: map<nat, nat>, tree0: map<nat, Node>, free0: set<nat>, m1: map<nat, nat>, free1: set<nat>,
                  m: map<nat, nat>, tree: map<nat, Node>, free: set<nat>, lo: nat, hi: nat)
    requires lo <= hi && InUse(tree0, free0) && Grown(m0, tree0, free0, m1, tree, free1, lo, hi)
    requires Shrunk(m1, free1, m, free, lo, hi) && Pages(lo, hi) !! m0.Keys
    ensures m == m0 && free == free0 - tree.Keys
    ensures |free| == |free0| - |tree.Keys - tree0.Keys|
  {
    ShrinkRestores(m0, m1, m, lo, hi);
    TablesCount(tree0, free0, tree);
  }

  /** A failed growth leaves the free frames as they were exactly when there was none to take in the first place. */
  lemma FailureLeaks(m0: map<nat, nat>, tree0: map<nat, Node>, free0: set<nat>,
                     m: map<nat, nat>, tree: map<nat, Node>, free: set<nat>, lo: nat, hi: nat)
    requires lo <= hi && GrowOutcome(false, m0, tree0, free0, m, tree, free, lo, hi)
    ensures Exhausted(free)
    ensures free == free0 <==> Exhausted(free0)
  {
  }

  /** With one frame left, growing by two pages fails and keeps the frame. */
  lemma LastFrameLeaks(ok: bool, m0: map<nat, nat>, tree0: map<nat, Node>, m: map<nat, nat>, tree: map<nat, Node>,
                       free: set<nat>, lo: nat)
    requires GrowOutcome(ok, m0, tree0, {64}, m, tree, free, lo, lo + 2)
    ensures !ok && free == {} != {64}
  {
    if ok {
      SubsetSize(FramesOf(m, lo, lo + 2), {64});
    }
  }

  /** The state of the shrinking loop after the pages [v, hi). */
  ghost predicate Shrinking(m0: map<nat, nat>, tree0: map<nat, Node>, free0: set<nat>,
                            m: map<nat, nat>, tree: map<nat, Node>, free: set<nat>, lo: nat, v: nat, hi: nat)
  {
    && lo <= v <= hi && tree == tree0 && FramesOf(m0, lo, hi) !! tree0.Keys
    && Shrunk(m0, free0, m, free, v, hi)
  }

  lemma NotFailed(b: nat)
    requires b % PAGE_SIZE == 0
    ensures b != FAILED
  {
  }

  lemma AlignBounds(first: nat, addr: nat)
    requires 0 < first <= addr < USER_SPAN
    ensures 0 < PageAlign(first) <= PageAlign(addr) <= USER_SPAN
  {
    PageAlignIs(first);
    PageAlignIs(addr);
    Monotone(first + PAGE_SIZE - 1, addr + PAGE_SIZE - 1, PAGE_SIZE);
    Monotone(addr + PAGE_SIZE - 1, USER_SPAN + PAGE_SIZE - 1, PAGE_SIZE);
  }

  lemma PageAlignIs(addr: nat)
    requires addr < USER_SPAN
    ensures PageAlign(addr) == (addr + PAGE_SIZE - 1) / PAGE_SIZE * PAGE_SIZE
  {
  }

  /** The part of the pages that a shrinking call leaves still has frames of its own. */
  lemma ShrinkOwns(m0: map<nat, nat>, tree: map<nat, Node>, free0: set<nat>, m: map<nat, nat>, free: set<nat>,
                   lo: nat, mid: nat, hi: nat)
    requires lo <= mid <= hi <= lo + VPN_COUNT && Owns(m0, tree, free0, lo, hi)
    requires Shrunk(m0, free0, m, free, mid, hi)
    ensures Owns(m, tree, free, lo, mid)
  {
    var kept, gone := FramesOf(m0, lo, mid), FramesOf(m0, mid, hi);
    FramesSplit(m0, lo, mid, hi);
    FramesOfCount(m0, lo, mid);
    FramesOfCount(m0, mid, hi);
    FullUnion(kept, gone);
    FramesSame(m0, m, lo, mid, hi);
  }

  lemma FullUnion(a: set<nat>, b: set<nat>)
    ensures |a + b| == |a| + |b| <==> a !! b
  {
    assert a + b == a + (b - a);
    assert b == (b - a) + (a * b);
  }

  lemma AlignedStays(b: nat)
    requires b % PAGE_SIZE == 0 && b < WORD_SPAN
    ensures PageAlign(b) == b
  {
  }

  lemma TablesCount(tree0: map<nat, Node>, free0: set<nat>, tree: map<nat, Node>)
    requires InUse(tree0, free0) && tree0.Keys <= tree.Keys <= tree0.Keys + free0
    ensures |free0 - tree.Keys| == |free0| - |tree.Keys - tree0.Keys|
  {
    assert free0 == (free0 - tree.Keys) + (tree.Keys - tree0.Keys);
  }

  /** The program break of the one user address space. */
  class ProgramBreak {
    const vm: AddressSpace
    var programBreak: nat

    ghost predicate Valid()
      reads this, vm, vm.pmm, vm.pmm.bitmap
    {
      vm.Valid() && programBreak % PAGE_SIZE == 0
    }

    constructor (vm: AddressSpace)
      requires vm.Valid()
      ensures this.vm == vm && Valid() && programBreak == 0
    {
      this.vm := vm;
      programBreak := 0;
    }

    /** The growing branch: map the pages [lo, hi) to new frames, or undo. */
    method Grow(lo: nat, hi: nat) returns (ok: bool)
      requires vm.Valid() && lo <= hi
      modifies vm`ram, vm`tree, vm`mapping, vm.pmm`freePages, vm.pmm`free, vm.pmm.bitmap
      ensures vm.Valid()
      ensures GrowOutcome(ok, old(vm.mapping), old(vm.tree), old(vm.pmm.free), vm.mapping, vm.tree, vm.pmm.free, lo, hi)
      ensures ok <==> Enough(old(vm.pmm.free), old(vm.ram), vm.pml4, lo, hi)
    {
      ghost var m0, tree0, free0 := vm.mapping, vm.tree, vm.pmm.free;
      ghost var v;
      ok, v := GrowPages(vm, lo, hi, FLAGS);
      WiderOutcome(ok, m0, tree0, free0, vm.mapping, vm.tree, vm.pmm.free, lo, v, hi);
    }

    /** The shrinking branch: unmap the pages [lo, hi) from the top and free their frames. */
    method Shrink(lo: nat, hi: nat)
      requires vm.Valid() && lo <= hi && FramesOf(vm.mapping, lo, hi) !! vm.tree.Keys
      modifies vm`ram, vm`mapping, vm.pmm`freePages, vm.pmm`free, vm.pmm.bitmap
      ensures vm.Valid()
      ensures Shrunk(old(vm.mapping), old(vm.pmm.free), vm.mapping, vm.pmm.free, lo, hi)
    {
      ghost var m0, tree0, free0 := vm.mapping, vm.tree, vm.pmm.free;
      var v: nat := hi;
      while v > lo
        invariant vm.Valid()
        invariant Shrinking(m0, tree0, free0, vm.mapping, vm.tree, vm.pmm.free, lo, v, hi)
      {
        v := ShrinkTurn(v, lo, hi, m0, tree0, free0);
      }
    }

    /** One turn of the shrinking loop. */
    method ShrinkTurn(next: nat, ghost lo: nat, ghost hi: nat,
                      ghost m0: map<nat, nat>, ghost tree0: map<nat, Node>, ghost free0: set<nat>) returns (v: nat)
      requires vm.Valid() && lo < next
      requires Shrinking(m0, tree0, free0, vm.mapping, vm.tree, vm.pmm.free, lo, next, hi)
      modifies vm`ram, vm`mapping, vm.pmm`freePages, vm.pmm`free, vm.pmm.bitmap
      ensures vm.Valid() && v == next - 1
      ensures Shrinking(m0, tree0, free0, vm.mapping, vm.tree, vm.pmm.free, lo, v, hi)
    {
      ghost var m1, free1 := vm.mapping, vm.pmm.free;
      v := next - 1;
      TurnIsMapped(m0, tree0, free0, m1, vm.tree, free1, lo, v, hi);
      ShrinkOne(v);
      ShrinkStep(m0, tree0, free0, m1, free1, vm.mapping, vm.tree, vm.pmm.free, lo, v, hi);
    }

    /** The body of the shrinking loop. */
    method ShrinkOne(v: nat)
      requires vm.Valid() && FrameOfPage(vm.mapping, PageOf(v)) !! vm.tree.Keys
      modifies vm`ram, vm`mapping, vm.pmm`freePages, vm.pmm`free, vm.pmm.bitmap
      ensures vm.Valid()
      ensures UnmappedFrom(old(vm.mapping), vm.mapping, {PageOf(v)})
      ensures vm.pmm.free == old(vm.pmm.free) + FrameOfPage(old(vm.mapping), PageOf(v))
    {
      PageOfAddress(v);
      var phys := vm.GetPhysAddr(v * PAGE_SIZE);
      if phys != 0 {
        var _ := vm.UnmapPage(v * PAGE_SIZE);
        vm.pmm.FreePage(phys);
      }
    }

    /** The break that a call starts from: the first call sets it. */
    function StartBreak(addr: nat): nat
      reads this
    {
      if programBreak == 0 then PageAlign(addr) else programBreak
    }

    /** sys_brk. */
    method Brk(addr: nat) returns (r: nat)
      requires Valid() && addr < WORD_SPAN
      requires addr != 0 ==> MayMove(StartBreak(addr), PageAlign(addr))
      modifies this`programBreak, vm`ram, vm`tree, vm`mapping, vm.pmm`freePages, vm.pmm`free, vm.pmm.bitmap
      ensures Valid()
      ensures addr == 0 ==> r == programBreak == old(StartBreak(addr))
                            && vm.mapping == old(vm.mapping) && vm.pmm.free == old(vm.pmm.free)
                            && vm.tree == old(vm.tree)
      ensures addr != 0 ==> r == programBreak || r == FAILED
      ensures addr != 0 && r != FAILED ==> programBreak == PageAlign(addr)
      ensures addr != 0 && r != FAILED ==>
        Moved(old(vm.mapping), old(vm.tree), old(vm.pmm.free), old(StartBreak(addr)), PageAlign(addr))
      ensures addr != 0 && r == FAILED ==> programBreak == old(StartBreak(addr)) < PageAlign(addr)
      ensures addr != 0 ==> (r == FAILED <==> old(Lacks(StartBreak(addr), PageAlign(addr))))
      ensures addr != 0 && r == FAILED ==>
        GrowOutcome(false, old(vm.mapping), old(vm.tree), old(vm.pmm.free), vm.mapping, vm.tree, vm.pmm.free,
                    programBreak / PAGE_SIZE, PageAlign(addr) / PAGE_SIZE)
      ensures addr != 0 && r == FAILED ==> (vm.pmm.free == old(vm.pmm.free) <==> Exhausted(old(vm.pmm.free)))
    {
      if programBreak == 0 {
        programBreak := PageAlign(addr);
      }
      if addr == 0 {
        return programBreak;
      }
      ghost var m0, tree0, free0, b := vm.mapping, vm.tree, vm.pmm.free, programBreak;
      r := MoveBreak(PageAlign(addr));
      if r == FAILED {
        FailureLeaks(m0, tree0, free0, vm.mapping, vm.tree, vm.pmm.free, b / PAGE_SIZE, PageAlign(addr) / PAGE_SIZE);
      }
    }

    /** A shrinking call gives frames back, so none of them may hold a page table. */
    ghost predicate MayMove(b: nat, newBreak: nat)
      reads vm
    {
      newBreak < b ==> FramesOf(vm.mapping, newBreak / PAGE_SIZE, b / PAGE_SIZE) !! vm.tree.Keys
    }

    /** There are too few frames for the pages from `b` up to `newBreak` and the page tables they need. */
    ghost predicate Lacks(b: nat, newBreak: nat)
      reads vm, vm.pmm
    {
      b < newBreak && !Enough(vm.pmm.free, vm.ram, vm.pml4, b / PAGE_SIZE, newBreak / PAGE_SIZE)
    }

    /** What a successful move of the break from `b` to `newBreak` does to translations, tables and free frames. */
    ghost predicate Moved(m0: map<nat, nat>, tree0: map<nat, Node>, free0: set<nat>, b: nat, newBreak: nat)
      reads vm, vm.pmm
    {
      if newBreak >= b then
        Grown(m0, tree0, free0, vm.mapping, vm.tree, vm.pmm.free, b / PAGE_SIZE, newBreak / PAGE_SIZE)
      else
        Shrunk(m0, free0, vm.mapping, vm.pmm.free, newBreak / PAGE_SIZE, b / PAGE_SIZE) && vm.tree == tree0
    }

    method MoveBreak(newBreak: nat) returns (r: nat)
      requires Valid() && newBreak % PAGE_SIZE == 0 && MayMove(programBreak, newBreak)
      modifies this`programBreak, vm`ram, vm`tree, vm`mapping, vm.pmm`freePages, vm.pmm`free, vm.pmm.bitmap
      ensures Valid()
      ensures r == programBreak || r == FAILED
      ensures r != FAILED ==> programBreak == newBreak
      ensures r != FAILED ==> Moved(old(vm.mapping), old(vm.tree), old(vm.pmm.free), old(programBreak), newBreak)
      ensures r == FAILED ==> programBreak == old(programBreak) < newBreak
      ensures r == FAILED <==> old(Lacks(programBreak, newBreak))
      ensures r == FAILED ==>
        GrowOutcome(false, old(vm.mapping), old(vm.tree), old(vm.pmm.free), vm.mapping, vm.tree, vm.pmm.free,
                    old(programBreak) / PAGE_SIZE, newBreak / PAGE_SIZE)
    {
      NotFailed(newBreak);
      if newBreak > programBreak {
        r := GrowTo(newBreak);
      } else {
        ShrinkTo(newBreak);
        r := newBreak;
      }
    }

    method GrowTo(newBreak: nat) returns (r: nat)
      requires Valid() && newBreak % PAGE_SIZE == 0 && newBreak > programBreak
      modifies this`programBreak, vm`ram, vm`tree, vm`mapping, vm.pmm`freePages, vm.pmm`free, vm.pmm.bitmap
      ensures Valid()
      ensures (r == newBreak == programBreak) || (r == FAILED && programBreak == old(programBreak))
      ensures GrowOutcome(r != FAILED, old(vm.mapping), old(vm.tree), old(vm.pmm.free), vm.mapping, vm.tree,
                          vm.pmm.free, old(programBreak) / PAGE_SIZE, newBreak / PAGE_SIZE)
      ensures r != FAILED <==>
        Enough(old(vm.pmm.free), old(vm.ram), vm.pml4, old(programBreak) / PAGE_SIZE, newBreak / PAGE_SIZE)
    {
      NotFailed(newBreak);
      var ok := Grow(programBreak / PAGE_SIZE, newBreak / PAGE_SIZE);
      if !ok {
        return FAILED;
      }
      programBreak := newBreak;
      return newBreak;
    }

    method ShrinkTo(newBreak: nat)
      requires Valid() && newBreak % PAGE_SIZE == 0 && newBreak <= programBreak && MayMove(programBreak, newBreak)
      modifies this`programBreak, vm`ram, vm`mapping, vm.pmm`freePages, vm.pmm`free, vm.pmm.bitmap
      ensures Valid() && programBreak == newBreak
      ensures Moved(old(vm.mapping), old(vm.tree), old(vm.pmm.free), old(programBreak), newBreak)
    {
      if newBreak < programBreak {
        Shrink(newBreak / PAGE_SIZE, programBreak / PAGE_SIZE);
        programBreak := newBreak;
      } else {
        NothingGrown(vm.mapping, vm.tree, vm.pmm.free, newBreak / PAGE_SIZE);
      }
    }

    /** Growing over unmapped pages and shrinking back restores every translation and every data frame;
        what stays taken is exactly the new page tables. */
    method GrowThenShrink(addr: nat) returns (grown: bool)
      requires Valid() && addr < WORD_SPAN && 0 < programBreak < PageAlign(addr) && programBreak < WORD_SPAN
      requires Pages(programBreak / PAGE_SIZE, PageAlign(addr) / PAGE_SIZE) !! vm.mapping.Keys
      modifies this`programBreak, vm`ram, vm`tree, vm`mapping, vm.pmm`freePages, vm.pmm`free, vm.pmm.bitmap
      ensures Valid() && programBreak == old(programBreak) && vm.mapping == old(vm.mapping)
      ensures grown ==> vm.pmm.free == old(vm.pmm.free) - vm.tree.Keys
      ensures grown ==> vm.pmm.freePages == old(vm.pmm.freePages) - |vm.tree.Keys - old(vm.tree.Keys)|
    {
      ghost var m0, tree0, free0 := vm.mapping, vm.tree, vm.pmm.free;
      var before := programBreak;
      var r := Brk(addr);
      grown := r != FAILED;
      if grown {
        ghost var m1, free1 := vm.mapping, vm.pmm.free;
        AlignedStays(before);
        var _ := Brk(before);
        RoundTrip(m0, tree0, free0, m1, free1, vm.mapping, vm.tree, vm.pmm.free,
                  before / PAGE_SIZE, PageAlign(addr) / PAGE_SIZE);
      }
    }

    /** The pages from `first` up to the break have frames of their own, which are neither free nor page tables. */
    ghost predicate OwnsUp(first: nat)
      reads this, vm, vm.pmm, vm.pmm.bitmap
    {
      Valid() && first <= programBreak && first % PAGE_SIZE == 0
      && Owns(vm.mapping, vm.tree, vm.pmm.free, first / PAGE_SIZE, programBreak / PAGE_SIZE)
    }

    /** Every run of sys_brk calls at or above the first break `first` keeps OwnsUp, so that no shrinking call ever
        frees a frame that holds a page table. */
    method Run(first: nat, addrs: seq<nat>)
      requires Valid() && programBreak == 0 && 0 < first < USER_SPAN
      requires forall k | 0 <= k < |addrs| :: addrs[k] == 0 || first <= addrs[k] < USER_SPAN
      modifies this`programBreak, vm`ram, vm`tree, vm`mapping, vm.pmm`freePages, vm.pmm`free, vm.pmm.bitmap
      ensures OwnsUp(PageAlign(first))
    {
      AlignBounds(first, first);
      var _ := Brk(first);
      for k := 0 to |addrs|
        invariant OwnsUp(PageAlign(first)) && programBreak <= USER_SPAN
      {
        if addrs[k] == 0 {
          Query(PageAlign(first));
        } else {
          AlignBounds(first, addrs[k]);
          RunStep(PageAlign(first), addrs[k]);
        }
      }
    }

    /** A call with 0 only returns the break. */
    method Query(first: nat)
      requires OwnsUp(first) && programBreak > 0
      modifies this`programBreak, vm`ram, vm`tree, vm`mapping, vm.pmm`freePages, vm.pmm`free, vm.pmm.bitmap
      ensures OwnsUp(first) && programBreak == old(programBreak)
    {
      var _ := Brk(0);
    }

    /** One call of the run. */
    method RunStep(first: nat, addr: nat)
      requires OwnsUp(first) && 0 < first <= PageAlign(addr) <= USER_SPAN && 0 < addr < USER_SPAN
      requires programBreak <= USER_SPAN
      modifies this`programBreak, vm`ram, vm`tree, vm`mapping, vm.pmm`freePages, vm.pmm`free, vm.pmm.bitmap
      ensures OwnsUp(first) && programBreak <= USER_SPAN
    {
      ghost var m0, tree0, free0 := vm.mapping, vm.tree, vm.pmm.free;
      ghost var lo, mid, hi := first / PAGE_SIZE, programBreak / PAGE_SIZE, PageAlign(addr) / PAGE_SIZE;
      if PageAlign(addr) < programBreak {
        FramesSplit(m0, lo, hi, mid);
      }
      var r := Brk(addr);
      if hi < mid {
        ShrinkOwns(m0, tree0, free0, vm.mapping, vm.pmm.free, lo, hi, mid);
      } else if r != FAILED {
        GrowOwns(m0, tree0, free0, vm.mapping, vm.tree, vm.pmm.free, lo, mid, hi);
      } else {
        FailureOwns(m0, tree0, free0, vm.mapping, vm.tree, vm.pmm.free, lo, mid, hi);
      }
    }
  }
}
