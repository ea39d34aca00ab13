/** The physical frame allocator of kernel/src/mm/pmm.c: one bit a page in 64-bit words,
    set while the page is used, and a counter of free pages. */
module Pmm {
  import opened Machine
  import opened Bits

  const BITS_PER_ENTRY: nat := 64
  const TOTAL_PAGES: nat := 1048576       // 4 GB of pages
  const BITMAP_SIZE: nat := 16384         // words covering TOTAL_PAGES
  const BITMAP_BYTES: nat := 131072       // BITMAP_SIZE words of 8 bytes
  const FULL_ENTRY: nat := 0xFFFF_FFFF_FFFF_FFFF
  const NULL: nat := 0

  type Word = w: nat | w < 0x1_0000_0000_0000_0000

  predicate Used(words: seq<Word>, page: nat)
    requires page / BITS_PER_ENTRY < |words|
  {
    Bit(words[page / BITS_PER_ENTRY], page % BITS_PER_ENTRY)
  }

  /** `free` is the set of pages whose bit is clear. */
  ghost predicate Represents(words: seq<Word>, free: set<nat>) {
    && |words| == BITMAP_SIZE
    && (forall p: nat | p in free :: p < TOTAL_PAGES)
    && (forall p: nat {:trigger Used(words, p)} | p < TOTAL_PAGES :: Used(words, p) <==> p !in free)
  }

  lemma SetPage(words: seq<Word>, free: set<nat>, page: nat)
    requires Represents(words, free) && page < TOTAL_PAGES
    ensures SetBit(words[page / 64], page % 64) <= FULL_ENTRY
    ensures Represents(words[page / 64 := SetBit(words[page / 64], page % 64)], free - {page})
  {
    Widths();
    UpdatesKeepWidth(words[page / 64], page % 64, 64);
    var words' := words[page / 64 := SetBit(words[page / 64], page % 64)];
    forall p: nat | p < TOTAL_PAGES ensures Used(words', p) <==> p == page || Used(words, p) {
      SetBitMeaning(words[page / 64], page % 64, p % 64);
    }
  }

  lemma ClearPage(words: seq<Word>, free: set<nat>, page: nat)
    requires Represents(words, free) && page < TOTAL_PAGES
    ensures ClearBit(words[page / 64], page % 64) <= FULL_ENTRY
    ensures Represents(words[page / 64 := ClearBit(words[page / 64], page % 64)], free + {page})
  {
    Widths();
    UpdatesKeepWidth(words[page / 64], page % 64, 64);
    var words' := words[page / 64 := ClearBit(words[page / 64], page % 64)];
    forall p: nat | p < TOTAL_PAGES ensures Used(words', p) <==> p != page && Used(words, p) {
      ClearBitMeaning(words[page / 64], page % 64, p % 64);
    }
  }

  /** `page` is the page pmm_alloc_page must hand out: the lowest free one at or above 64. */
  ghost predicate LowestFree(free: set<nat>, page: nat) {
    page in free && page >= BITS_PER_ENTRY && forall p: nat | p in free && p >= BITS_PER_ENTRY :: page <= p
  }

  ghost predicate Exhausted(free: set<nat>) {
    forall p: nat | p in free :: p < BITS_PER_ENTRY
  }

  /** Nothing was added, and the pages below 64, which are never handed out, are as before. */
  ghost predicate OnlyTaken(free0: set<nat>, free: set<nat>) {
    free <= free0 && forall p: nat | p in free0 && p < BITS_PER_ENTRY :: p in free
  }

  /** The pages below `n`. */
  ghost function PagesBelow(n: nat): (pages: set<nat>)
    ensures |pages| == n
    ensures forall p: nat :: p in pages <==> p < n
  {
    if n == 0 then {} else PagesBelow(n - 1) + {n - 1}
  }

  lemma SubsetSize<T>(a: set<T>, b: set<T>)
    requires a <= b
    ensures |a| <= |b|
  {
    assert b == a + (b - a);
  }

  lemma FullEntry(words: seq<Word>, page: nat)
    requires page / 64 < |words| && words[page / 64] == FULL_ENTRY
    ensures Used(words, page)
  {
    Widths();
    AllOnesMeaning(FULL_ENTRY, 64);
  }

  /** A boot memory map entry. */
  datatype MemmapEntry = MemmapEntry(base: nat, length: nat, usable: bool)

  predicate HoldsBitmap(e: MemmapEntry) {
    e.usable && e.length >= BITMAP_BYTES
  }

  /** The bitmap is put into the first usable entry long enough for it. */
  ghost predicate BitmapEntry(memmap: seq<MemmapEntry>, k: nat) {
    k < |memmap| && HoldsBitmap(memmap[k]) && forall i | 0 <= i < k :: !HoldsBitmap(memmap[i])
  }

  /** The map after the bitmap's storage has been cut from the front of entry `k`. */
  function Carved(memmap: seq<MemmapEntry>, k: nat): seq<MemmapEntry>
    requires k < |memmap| && memmap[k].length >= BITMAP_BYTES
  {
    memmap[k := memmap[k].(base := memmap[k].base + BITMAP_BYTES, length := memmap[k].length - BITMAP_BYTES)]
  }

  /** The bounds pmm_init uses: the end is the entry's length in pages, not its end address. */
  predicate Clears(e: MemmapEntry, page: nat) {
    e.usable && (e.base + PAGE_SIZE - 1) / PAGE_SIZE <= page < e.length / PAGE_SIZE
  }

  ghost predicate ClearedBy(memmap: seq<MemmapEntry>, count: nat, page: nat)
    requires count <= |memmap|
  {
    exists i :: 0 <= i < count && Clears(memmap[i], page)
  }

  predicate Apart(a: MemmapEntry, b: MemmapEntry) {
    a.usable && b.usable ==> a.base + a.length <= b.base || b.base + b.length <= a.base
  }

  ghost predicate DisjointEntries(memmap: seq<MemmapEntry>) {
    forall i, j | 0 <= i < j < |memmap| :: Apart(memmap[i], memmap[j])
  }

  /** The whole of page `page` lies in entry `e`. */
  predicate WholePage(e: MemmapEntry, page: nat) {
    e.base <= page * PAGE_SIZE && (page + 1) * PAGE_SIZE <= e.base + e.length
  }

  lemma ClearsWholePages(e: MemmapEntry, page: nat)
    requires Clears(e, page)
    ensures WholePage(e, page)
  {
  }

  lemma CarvedStaysDisjoint(memmap: seq<MemmapEntry>, k: nat)
    requires DisjointEntries(memmap) && BitmapEntry(memmap, k)
    ensures DisjointEntries(Carved(memmap, k))
  {
    var carved := Carved(memmap, k);
    forall i, j | 0 <= i < j < |carved| ensures Apart(carved[i], carved[j]) {
      assert Apart(memmap[i], memmap[j]);
    }
  }

  /** Every page pmm_init frees lies inside one usable entry and outside the bitmap's storage. */
  lemma FreedPagesAreUsable(memmap: seq<MemmapEntry>, k: nat, page: nat)
    requires DisjointEntries(memmap) && BitmapEntry(memmap, k)
    requires ClearedBy(Carved(memmap, k), |memmap|, page)
    ensures exists i :: 0 <= i < |memmap| && memmap[i].usable && WholePage(memmap[i], page)
    ensures (page + 1) * PAGE_SIZE <= memmap[k].base || memmap[k].base + BITMAP_BYTES <= page * PAGE_SIZE
  {
    var carved := Carved(memmap, k);
    var i :| 0 <= i < |carved| && Clears(carved[i], page);
    ClearsWholePages(carved[i], page);
    assert memmap[i].usable && WholePage(memmap[i], page);
    if i < k {
      assert Apart(memmap[i], memmap[k]);
    } else if k < i {
      assert Apart(memmap[k], memmap[i]);
    }
  }

  /** The pages free after pmm_init, for the memory map it leaves: those some entry clears, below the 2^20 pages of
      the bitmap. */
  ghost predicate InitialFree(memmap: seq<MemmapEntry>, free: set<nat>) {
    forall p: nat :: p in free <==> p < TOTAL_PAGES && ClearedBy(memmap, |memmap|, p)
  }

  /** Every whole page of the entry is freed: the entry has none, or its end does not exceed the number of pages of
      its length (which the code takes for the end) nor the last page of the bitmap. */
  predicate FullyFreed(e: MemmapEntry) {
    var first, end := (e.base + PAGE_SIZE - 1) / PAGE_SIZE, (e.base + e.length) / PAGE_SIZE;
    end <= first || (end <= e.length / PAGE_SIZE && end <= TOTAL_PAGES)
  }

  /** A whole page of an entry is free exactly when that entry clears it. */
  lemma FreedByItsEntry(memmap: seq<MemmapEntry>, i: nat, free: set<nat>, page: nat)
    requires DisjointEntries(memmap) && i < |memmap| && memmap[i].usable && InitialFree(memmap, free)
    requires WholePage(memmap[i], page)
    ensures page in free <==> page < TOTAL_PAGES && Clears(memmap[i], page)
  {
    if j: nat :| j < |memmap| && Clears(memmap[j], page) {
      ClearsWholePages(memmap[j], page);
      assert j < i ==> Apart(memmap[j], memmap[i]);
      assert i < j ==> Apart(memmap[i], memmap[j]);
    }
  }

  /** All whole pages of a usable entry are free after pmm_init exactly under FullyFreed. */
  lemma WholeEntryFreed(memmap: seq<MemmapEntry>, i: nat, free: set<nat>)
    requires DisjointEntries(memmap) && i < |memmap| && memmap[i].usable && InitialFree(memmap, free)
    ensures (forall p: nat | WholePage(memmap[i], p) :: p in free) <==> FullyFreed(memmap[i])
  {
    var e := memmap[i];
    forall p: nat | WholePage(e, p) ensures p in free <==> p < TOTAL_PAGES && Clears(e, p) {
      FreedByItsEntry(memmap, i, free, p);
    }
    WholePages(e);
    if FullyFreed(e) {
      forall p: nat | WholePage(e, p) ensures p in free {
        assert p < (e.base + e.length) / PAGE_SIZE;
      }
    }
  }

  /** The last whole page of an entry that has one. */
  lemma WholePages(e: MemmapEntry)
    ensures var first, end := (e.base + PAGE_SIZE - 1) / PAGE_SIZE, (e.base + e.length) / PAGE_SIZE;
      && (forall p: nat | WholePage(e, p) :: first <= p < end)
      && (first < end ==> WholePage(e, end - 1))
  {
  }

  /** A usable entry from 1 MiB to 2 MiB: none of its 256 pages is freed. */
  lemma HighEntryNotFreed(memmap: seq<MemmapEntry>, i: nat, free: set<nat>, page: nat)
    requires DisjointEntries(memmap) && i < |memmap| && InitialFree(memmap, free)
    requires memmap[i] == MemmapEntry(0x100000, 0x100000, true) && WholePage(memmap[i], page)
    ensures page !in free && 256 <= page < 512
  {
    FreedByItsEntry(memmap, i, free, page);
  }

  /** A usable entry from 0 to one page above 4 GiB: its last page is not freed. */
  lemma PageAboveLimitNotFreed(memmap: seq<MemmapEntry>, i: nat, free: set<nat>)
    requires DisjointEntries(memmap) && i < |memmap| && InitialFree(memmap, free)
    requires memmap[i] == MemmapEntry(0, 0x1_0000_1000, true)
    ensures WholePage(memmap[i], TOTAL_PAGES) && TOTAL_PAGES !in free && !FullyFreed(memmap[i])
  {
    FreedByItsEntry(memmap, i, free, TOTAL_PAGES);
  }

  /** Disjoint entries never clear the same page twice, so the counter is exact. */
  lemma EntriesClearOnce(memmap: seq<MemmapEntry>, i: nat, page: nat)
    requires DisjointEntries(memmap) && i < |memmap| && Clears(memmap[i], page)
    ensures !ClearedBy(memmap, i, page)
  {
    if j: nat :| j < i && Clears(memmap[j], page) {
      assert Apart(memmap[j], memmap[i]);
      ClearsWholePages(memmap[i], page);
      ClearsWholePages(memmap[j], page);
      assert false;
    }
  }

  lemma AllUsed(words: seq<Word>)
    requires |words| == BITMAP_SIZE && forall i | 0 <= i < |words| :: words[i] == FULL_ENTRY
    ensures Represents(words, {})
  {
    forall p: nat | p < TOTAL_PAGES ensures Used(words, p) {
      FullEntry(words, p);
    }
  }

  class FrameAllocator {
    const bitmap: array<Word>
    const bitmapBase: nat       // physical address of the bitmap's own storage
    var freePages: nat
    ghost var free: set<nat>    // the pages whose bit is clear

    ghost predicate Valid()
      reads this, bitmap
    {
      Represents(bitmap[..], free) && freePages == |free|
    }

    constructor (memmap: array<MemmapEntry>)
      requires DisjointEntries(memmap[..]) && exists k: nat :: BitmapEntry(memmap[..], k)
      modifies memmap
      ensures Valid() && fresh(bitmap)
      ensures exists k: nat :: BitmapEntry(old(memmap[..]), k) && bitmapBase == old(memmap[..])[k].base
                          && memmap[..] == Carved(old(memmap[..]), k)
      ensures DisjointEntries(memmap[..]) && InitialFree(memmap[..], free)
    {
      // Find a usable region for the bitmap and mark all pages as used.
      ghost var boot := memmap[..];
      var i := 0;
      while !HoldsBitmap(memmap[i])
        invariant 0 <= i < memmap.Length
        invariant memmap[..] == boot
        invariant forall j | 0 <= j < i :: !HoldsBitmap(boot[j])
        decreases memmap.Length - i
      {
        ghost var k: nat :| BitmapEntry(boot, k);
        assert i < k;
        i := i + 1;
      }
      CarvedStaysDisjoint(boot, i);
      bitmapBase := memmap[i].base;
      bitmap := new Word[BITMAP_SIZE](_ => FULL_ENTRY);
      memmap[i] := memmap[i].(base := memmap[i].base + BITMAP_BYTES, length := memmap[i].length - BITMAP_BYTES);
      freePages := 0;
      free := {};
      new;
      AllUsed(bitmap[..]);
      ghost var carved := memmap[..];
      assert carved == Carved(boot, i) && BitmapEntry(boot, i);
      FreeEntries(memmap);
    }

    /** The second half of pmm_init: free the pages of every usable entry. */
    method FreeEntries(memmap: array<MemmapEntry>)
      requires Valid() && free == {} && DisjointEntries(memmap[..])
      requires memmap as object != bitmap
      modifies this`freePages, this`free, bitmap
      ensures Valid() && InitialFree(memmap[..], free)
    {
      ghost var entries := memmap[..];
      for i := 0 to memmap.Length
        invariant Valid() && memmap[..] == entries
        invariant forall p: nat :: p in free <==> p < TOTAL_PAGES && ClearedBy(entries, i, p)
      {
        var entry := memmap[i];
        if !entry.usable {
          continue;
        }
        var startPage := (entry.base + PAGE_SIZE - 1) / PAGE_SIZE;
        var endPage := entry.length / PAGE_SIZE;
        if startPage >= TOTAL_PAGES {
          continue;
        }
        if endPage > TOTAL_PAGES {
          endPage := TOTAL_PAGES;
        }
        forall p: nat | startPage <= p < endPage ensures p !in free {
          EntriesClearOnce(entries, i, p);
        }
        ClearRun(startPage, endPage);
      }
    }

    /** The page loop of pmm_init for one entry. */
    method ClearRun(startPage: nat, endPage: nat)
      requires Valid() && endPage <= TOTAL_PAGES
      requires forall p: nat | startPage <= p < endPage :: p !in free
      modifies this`freePages, this`free, bitmap
      ensures Valid()
      ensures forall p: nat :: p in free <==> p in old(free) || startPage <= p < endPage
    {
      var page := startPage;
      while page < endPage
        invariant startPage <= page && (page <= endPage || page == startPage)
        invariant Valid()
        invariant forall p: nat :: p in free <==> p in old(free) || startPage <= p < page
      {
        SetFree(page);
        freePages := freePages + 1;
        page := page + 1;
      }
    }

    /** There are never more free pages than pages. */
    lemma FreeBound()
      requires Valid()
      ensures freePages <= TOTAL_PAGES
    {
      SubsetSize(free, PagesBelow(TOTAL_PAGES));
    }

    method SetUsed(page: nat)
      requires Represents(bitmap[..], free) && page < TOTAL_PAGES
      modifies this`free, bitmap
      ensures Represents(bitmap[..], free) && free == old(free) - {page}
    {
      SetPage(bitmap[..], free, page);
      bitmap[page / BITS_PER_ENTRY] := SetBit(bitmap[page / BITS_PER_ENTRY], page % BITS_PER_ENTRY);
      free := free - {page};
      assert bitmap[..] == old(bitmap[..])[page / 64 := SetBit(old(bitmap[page / 64]), page % 64)];
    }

    method SetFree(page: nat)
      requires Represents(bitmap[..], free) && page < TOTAL_PAGES
      modifies this`free, bitmap
      ensures Represents(bitmap[..], free) && free == old(free) + {page}
    {
      ClearPage(bitmap[..], free, page);
      bitmap[page / BITS_PER_ENTRY] := ClearBit(bitmap[page / BITS_PER_ENTRY], page % BITS_PER_ENTRY);
      free := free + {page};
      assert bitmap[..] == old(bitmap[..])[page / 64 := ClearBit(old(bitmap[page / 64]), page % 64)];
    }

    /** The scan of pmm_alloc_page; TOTAL_PAGES stands for "not found".
        The first entry is skipped: its pages are never handed out. */
    method FirstFree() returns (page: nat)
      requires Valid()
      ensures page == TOTAL_PAGES <==> Exhausted(free)
      ensures page != TOTAL_PAGES ==> LowestFree(free, page)
    {
      ghost var words := bitmap[..];
      for idx := 1 to BITMAP_SIZE
        invariant forall p: nat | BITS_PER_ENTRY <= p < idx * BITS_PER_ENTRY :: p !in free
      {
        var entry := bitmap[idx];
        if entry == FULL_ENTRY {
          forall p: nat | idx * BITS_PER_ENTRY <= p < (idx + 1) * BITS_PER_ENTRY ensures p !in free {
            FullEntry(words, p);
          }
          continue;
        }
        for bit := 0 to BITS_PER_ENTRY
          invariant forall p: nat | BITS_PER_ENTRY <= p < idx * BITS_PER_ENTRY + bit :: p !in free
        {
          page := idx * BITS_PER_ENTRY + bit;
          assert page / BITS_PER_ENTRY == idx && page % BITS_PER_ENTRY == bit;
          assert Bit(entry, bit) == Used(words, page);
          if !Bit(entry, bit) {
            return;
          }
        }
      }
      return TOTAL_PAGES;
    }

    /** pmm_alloc_page: the lowest free page from 64 on, or NULL exactly when there is none. */
    method AllocPage() returns (addr: nat)
      requires Valid()
      modifies this`freePages, this`free, bitmap
      ensures Valid()
      ensures addr == NULL <==> Exhausted(old(free))
      ensures addr == NULL ==> free == old(free)
      ensures addr != NULL ==> addr % PAGE_SIZE == 0 && LowestFree(old(free), addr / PAGE_SIZE)
      ensures addr != NULL ==> free == old(free) - {addr / PAGE_SIZE}
    {
      if freePages == 0 {
        return NULL;
      }
      var page := FirstFree();
      if page >= TOTAL_PAGES {
        return NULL;
      }
      SetUsed(page);
      freePages := freePages - 1;
      return page * PAGE_SIZE;
    }

    /** pmm_free_page */
    method FreePage(addr: nat)
      requires Valid()
      modifies this`freePages, this`free, bitmap
      ensures Valid()
      ensures addr / PAGE_SIZE < TOTAL_PAGES ==> free == old(free) + {addr / PAGE_SIZE}
      ensures addr / PAGE_SIZE >= TOTAL_PAGES ==> free == old(free)
    {
      var page := addr / PAGE_SIZE;
      if page >= TOTAL_PAGES {
        return;
      }
      if Used(bitmap[..], page) {
        SetFree(page);
        freePages := freePages + 1;
      }
    }

    /** pmm_free_pages */
    method FreePages(addr: nat, count: nat)
      requires Valid()
      modifies this`freePages, this`free, bitmap
      ensures Valid()
      ensures forall p: nat ::
        p in free <==> p in old(free) || (p < TOTAL_PAGES && addr / PAGE_SIZE <= p < addr / PAGE_SIZE + count)
    {
      var startPage := addr / PAGE_SIZE;
      if startPage >= TOTAL_PAGES {
        return;
      }
      for i := 0 to count
        invariant Valid()
        invariant forall p: nat :: p in free <==> p in old(free) || (p < TOTAL_PAGES && startPage <= p < startPage + i)
      {
        var page := startPage + i;
        if page >= TOTAL_PAGES {
          break;
        }
        FreePage(page * PAGE_SIZE);
      }
    }
  }
}
