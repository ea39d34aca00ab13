/** setup_dma_rings of kernel/src/net/wifi.c: what the frames it gets from the frame allocator mean for the storage of
    the two rings. */
module WifiSetup {
  import opened Machine
  import opened Wifi
  import Pmm

  function FrameAt(pages: seq<nat>, k: nat): nat
    requires k < |pages|
  {
    pages[k] / PAGE_SIZE
  }

  ghost predicate HasFrame(pages: seq<nat>, f: nat) {
    exists k: nat :: k < |pages| && FrameAt(pages, k) == f
  }

  /** The frames that are still free after these pages were taken. */
  ghost function FreeAfter(free: set<nat>, pages: seq<nat>): (r: set<nat>) {
    set f | f in free && !HasFrame(pages, f)
  }

  /** The pages were taken one after another, each the lowest free one at its time. */
  ghost predicate TakenFrom(free: set<nat>, pages: seq<nat>) {
    forall k: nat {:trigger FrameAt(pages, k)} | k < |pages| ::
      pages[k] % PAGE_SIZE == 0 && Pmm.LowestFree(FreeAfter(free, pages[..k]), FrameAt(pages, k))
  }

  lemma FreeNext(free: set<nat>, pages: seq<nat>, p: nat)
    ensures FreeAfter(free, pages + [p]) == FreeAfter(free, pages) - {p / PAGE_SIZE}
  {
    FramesOfNext(pages, p);
  }

  lemma FramesOfNext(pages: seq<nat>, p: nat)
    ensures forall f :: HasFrame(pages + [p], f) <==> HasFrame(pages, f) || f == p / PAGE_SIZE
  {
    var all := pages + [p];
    forall f ensures HasFrame(all, f) <==> HasFrame(pages, f) || f == p / PAGE_SIZE {
      if k: nat :| k < |pages| && FrameAt(pages, k) == f {
        assert FrameAt(all, k) == f;
      }
      assert FrameAt(all, |pages|) == p / PAGE_SIZE;
      if k: nat :| k < |all| && FrameAt(all, k) == f {
        assert k < |pages| ==> FrameAt(pages, k) == f;
      }
    }
  }

  lemma TakenNext(free: set<nat>, pages: seq<nat>, p: nat)
    requires TakenFrom(free, pages)
    requires p % PAGE_SIZE == 0 && Pmm.LowestFree(FreeAfter(free, pages), p / PAGE_SIZE)
    ensures TakenFrom(free, pages + [p])
  {
    var all := pages + [p];
    forall k: nat | k < |all|
      ensures all[k] % PAGE_SIZE == 0 && Pmm.LowestFree(FreeAfter(free, all[..k]), FrameAt(all, k))
    {
      if k < |pages| {
        assert all[..k] == pages[..k] && FrameAt(all, k) == FrameAt(pages, k);
      } else {
        assert all[..k] == pages;
      }
    }
  }

  /** Later frames are higher. */
  lemma TakenAscend(free: set<nat>, pages: seq<nat>, i: nat, j: nat)
    requires TakenFrom(free, pages) && i < j < |pages|
    ensures FrameAt(pages, i) < FrameAt(pages, j) && pages[i] + PAGE_SIZE <= pages[j]
  {
    var f := FrameAt(pages, j);
    assert FrameAt(pages[..j], i) == FrameAt(pages, i);
    assert f in free && f != FrameAt(pages, i);
    assert !HasFrame(pages[..i], f) by {
      if k: nat :| k < i && FrameAt(pages[..i], k) == f {
        assert FrameAt(pages[..j], k) == f;
        assert HasFrame(pages[..j], f);
      }
    }
    assert f in FreeAfter(free, pages[..i]) && Pmm.LowestFree(FreeAfter(free, pages[..i]), FrameAt(pages, i));
  }

  /** The frame after that of page `k` was free exactly if it is taken next. */
  lemma NextFrame(free: set<nat>, pages: seq<nat>, k: nat)
    requires TakenFrom(free, pages) && k + 1 < |pages|
    ensures FrameAt(pages, k) + 1 in free <==> pages[k + 1] == pages[k] + PAGE_SIZE
  {
    var f := FrameAt(pages, k) + 1;
    TakenAscend(free, pages, k, k + 1);
    assert Pmm.LowestFree(FreeAfter(free, pages[..k]), FrameAt(pages, k));
    assert Pmm.LowestFree(FreeAfter(free, pages[..k + 1]), FrameAt(pages, k + 1));
    if HasFrame(pages[..k + 1], f) {
      var i: nat :| i < k + 1 && FrameAt(pages[..k + 1], i) == f;
      assert FrameAt(pages, i) == f;
      if i < k {
        TakenAscend(free, pages, i, k);
      }
      assert false;
    }
    assert f in free ==> f in FreeAfter(free, pages[..k + 1]);
  }

  lemma TakenAscends(free: set<nat>, l: Layout)
    requires TakenFrom(free, Pages(l)) && |l.txBuffers| == |l.rxBuffers| == RING_SIZE
    ensures Ascending(l)
  {
    forall k | 0 <= k < |Pages(l)| ensures Pages(l)[k] % PAGE_SIZE == 0 {
      assert FrameAt(Pages(l), k) == Pages(l)[k] / PAGE_SIZE;
    }
    forall j: nat, k: nat | j < k < |Pages(l)| ensures Before(l, j, k) {
      TakenAscend(free, Pages(l), j, k);
    }
  }

  /** The layout of setup_dma_rings overlaps nowhere exactly if the frame after that of each ring was in use before.
      So the second half of a ring is never storage of its own. */
  lemma SetupApart(free: set<nat>, l: Layout)
    requires TakenFrom(free, Pages(l)) && |l.txBuffers| == |l.rxBuffers| == RING_SIZE
    ensures StorageApart(l) <==> l.tx / PAGE_SIZE + 1 !in free && l.rx / PAGE_SIZE + 1 !in free
    ensures RingsApart(l) <==> l.tx / PAGE_SIZE + 1 !in free
  {
    var pages := Pages(l);
    assert pages[0] == l.tx && pages[1] == l.rx && pages[2] == l.txBuffers[0];
    assert FrameAt(pages, 0) == l.tx / PAGE_SIZE && FrameAt(pages, 1) == l.rx / PAGE_SIZE;
    NextFrame(free, pages, 0);
    NextFrame(free, pages, 1);
    TakenAscends(free, l);
    ApartMeans(l);
  }

  /** In all states of all runs that start with this setup the invariant holds, exactly if both frames were in use. */
  lemma SetupRuns(free: set<nat>, l: Layout)
    requires TakenFrom(free, Pages(l)) && |l.txBuffers| == |l.rxBuffers| == RING_SIZE
    ensures (forall s: State | Reachable(l, s) :: Inv(s))
      <==> l.tx / PAGE_SIZE + 1 !in free && l.rx / PAGE_SIZE + 1 !in free
  {
    SetupApart(free, l);
    TakenAscends(free, l);
    RunSafe(l);
  }

  /** One pmm_alloc_page of setup_dma_rings, after it got `pages`. */
  method TakePage(pmm: Pmm.FrameAllocator, ghost free: set<nat>, ghost pages: seq<nat>) returns (p: nat)
    requires pmm.Valid() && TakenFrom(free, pages) && pmm.free == FreeAfter(free, pages)
    modifies pmm, pmm.bitmap
    ensures pmm.Valid()
    ensures p == Pmm.NULL <==> Pmm.Exhausted(FreeAfter(free, pages))
    ensures p == Pmm.NULL ==> pmm.free == FreeAfter(free, pages)
    ensures p != Pmm.NULL ==> TakenFrom(free, pages + [p]) && pmm.free == FreeAfter(free, pages + [p])
  {
    p := pmm.AllocPage();
    if p != Pmm.NULL {
      TakenNext(free, pages, p);
      FreeNext(free, pages, p);
    }
  }

  /** The loop that gives every descriptor of the ring at `base` its buffer, until no frame is left. */
  method FillRing(pmm: Pmm.FrameAllocator, ghost free: set<nat>, ghost pages: seq<nat>, base: nat, flags: nat,
                  mem0: Memory)
    returns (buffers: seq<nat>, mem: Memory)
    requires pmm.Valid() && TakenFrom(free, pages) && pmm.free == FreeAfter(free, pages) && flags < U32_SPAN
    modifies pmm, pmm.bitmap
    ensures pmm.Valid() && TakenFrom(free, pages + buffers) && pmm.free == FreeAfter(free, pages + buffers)
    ensures |buffers| <= RING_SIZE && mem == WithRing(mem0, base, |buffers|, flags)
    ensures |buffers| < RING_SIZE ==> Pmm.Exhausted(pmm.free)
  {
    buffers, mem := [], mem0;
    assert pages + buffers == pages;
    while |buffers| < RING_SIZE
      invariant pmm.Valid() && TakenFrom(free, pages + buffers) && pmm.free == FreeAfter(free, pages + buffers)
      invariant |buffers| <= RING_SIZE && mem == WithRing(mem0, base, |buffers|, flags)
    {
      var p := TakePage(pmm, free, pages + buffers);
      if p == Pmm.NULL {
        return;
      }
      assert pages + buffers + [p] == pages + (buffers + [p]);
      var a := DescAddr(base, |buffers|);
      mem := Store32(Store32(mem, a + LEN, BUFFER_SIZE), a + FLAGS, flags);
      buffers := buffers + [p];
    }
  }

  /** The cleanup after a failure: every page that was taken is free again. */
  method GiveBack(pmm: Pmm.FrameAllocator, ghost free: set<nat>, pages: seq<nat>)
    requires pmm.Valid() && TakenFrom(free, pages) && pmm.free == FreeAfter(free, pages)
    requires forall f | f in free :: f < Pmm.TOTAL_PAGES
    modifies pmm, pmm.bitmap
    ensures pmm.Valid() && pmm.free == free
  {
    for i := 0 to |pages|
      invariant pmm.Valid()
      invariant forall f: nat :: f in pmm.free <==> f in FreeAfter(free, pages) || HasFrame(pages[..i], f)
    {
      PageWasFree(free, pages, i);
      HasNext(pages, i);
      pmm.FreePage(pages[i]);
    }
    assert pages[..|pages|] == pages;
    forall f: nat ensures f in pmm.free <==> f in free {
      if k: nat :| k < |pages| && FrameAt(pages, k) == f {
        PageWasFree(free, pages, k);
      }
    }
  }

  lemma PageWasFree(free: set<nat>, pages: seq<nat>, k: nat)
    requires TakenFrom(free, pages) && k < |pages|
    ensures FrameAt(pages, k) in free
  {
    assert Pmm.LowestFree(FreeAfter(free, pages[..k]), FrameAt(pages, k));
  }

  lemma HasNext(pages: seq<nat>, i: nat)
    requires i < |pages|
    ensures forall f :: HasFrame(pages[..i + 1], f) <==> HasFrame(pages[..i], f) || f == pages[i] / PAGE_SIZE
  {
    FramesOfNext(pages[..i], pages[i]);
    assert pages[..i + 1] == pages[..i] + [pages[i]];
  }

  /** setup_dma_rings from the second memset on. */
  method FillRings(pmm: Pmm.FrameAllocator, ghost free: set<nat>, tx: nat, rx: nat, mem0: Memory)
    returns (ok: bool, l: Layout, mem: Memory)
    requires pmm.Valid() && TakenFrom(free, [tx, rx]) && pmm.free == FreeAfter(free, [tx, rx])
    modifies pmm, pmm.bitmap
    ensures pmm.Valid() && TakenFrom(free, Pages(l)) && pmm.free == FreeAfter(free, Pages(l))
    ensures l.tx == tx && l.rx == rx
    ensures ok ==> |l.txBuffers| == |l.rxBuffers| == RING_SIZE
    ensures ok ==> mem == WithRing(WithRing(Zeroed(mem0, rx), tx, RING_SIZE, INT), rx, RING_SIZE, OWN + INT)
  {
    var txBuffers, rxBuffers;
    txBuffers, mem := FillRing(pmm, free, [tx, rx], tx, INT, Zeroed(mem0, rx));
    l := Layout(tx, rx, txBuffers, []);
    assert Pages(l) == [tx, rx] + txBuffers;
    if |txBuffers| < RING_SIZE {
      return false, l, mem;
    }
    rxBuffers, mem := FillRing(pmm, free, [tx, rx] + txBuffers, rx, OWN + INT, mem);
    l := l.(rxBuffers := rxBuffers);
    ok := |rxBuffers| == RING_SIZE;
  }

  /** The pages and the memory of setup_dma_rings. */
  method GetRings(pmm: Pmm.FrameAllocator, mem0: Memory) returns (ok: bool, l: Layout, mem: Memory)
    requires pmm.Valid()
    modifies pmm, pmm.bitmap
    ensures pmm.Valid()
    ensures !ok ==> pmm.free == old(pmm.free)
    ensures ok ==> |l.txBuffers| == |l.rxBuffers| == RING_SIZE && mem == SetUp(l, mem0)
    ensures ok ==> TakenFrom(old(pmm.free), Pages(l)) && pmm.free == FreeAfter(old(pmm.free), Pages(l))
  {
    ghost var free := pmm.free;
    l, mem := Layout(0, 0, [], []), mem0;
    var tx := TakePage(pmm, free, []);
    if tx == Pmm.NULL {
      return false, l, mem;
    }
    assert [] + [tx] == [tx];
    mem := Zeroed(mem, tx);
    var rx := TakePage(pmm, free, [tx]);
    if rx == Pmm.NULL {
      GiveBack(pmm, free, [tx]);
      return false, l, mem;
    }
    assert [tx] + [rx] == [tx, rx];
    ok, l, mem := FillRings(pmm, free, tx, rx, mem);
    if !ok {
      GiveBack(pmm, free, Pages(l));
    }
  }

  /** setup_dma_rings. If no frame runs out, the rings are as the protocol assumes at its start exactly if the frame
      after that of the transmit ring was in use before; otherwise that frame became the receive ring. They stay so in
      every run exactly if the frame after that of the receive ring was in use as well; otherwise that one became the
      first transmit buffer. */
  method Setup(pmm: Pmm.FrameAllocator, mem0: Memory) returns (ok: bool, s: State)
    requires pmm.Valid()
    modifies pmm, pmm.bitmap
    ensures pmm.Valid()
    ensures !ok ==> pmm.free == old(pmm.free)
    ensures ok ==> s == Init(s.layout, mem0) && Ascending(s.layout)
    ensures ok ==> TakenFrom(old(pmm.free), Pages(s.layout)) && pmm.free == FreeAfter(old(pmm.free), Pages(s.layout))
    ensures ok ==> (Inv(s) <==> s.layout.tx / PAGE_SIZE + 1 !in old(pmm.free))
    ensures ok ==>
      ((forall t: State | Reachable(s.layout, t) :: Inv(t))
       <==> s.layout.tx / PAGE_SIZE + 1 !in old(pmm.free) && s.layout.rx / PAGE_SIZE + 1 !in old(pmm.free))
    ensures ok ==> (s.layout.tx / PAGE_SIZE + 1 in old(pmm.free) <==> s.layout.rx == s.layout.tx + PAGE_SIZE)
    ensures ok ==>
      (s.layout.rx / PAGE_SIZE + 1 in old(pmm.free) <==> s.layout.txBuffers[0] == s.layout.rx + PAGE_SIZE)
  {
    ghost var free := pmm.free;
    var l, mem;
    ok, l, mem := GetRings(pmm, mem0);
    s := Init(l, mem0).(mem := mem);
    if ok {
      SetupMeans(free, l, mem0);
      SetupRuns(free, l);
    }
  }

  lemma SetupMeans(free: set<nat>, l: Layout, mem: Memory)
    requires TakenFrom(free, Pages(l)) && |l.txBuffers| == |l.rxBuffers| == RING_SIZE
    ensures Ascending(l) && (Inv(Init(l, mem)) <==> l.tx / PAGE_SIZE + 1 !in free)
    ensures l.tx / PAGE_SIZE + 1 in free <==> l.rx == l.tx + PAGE_SIZE
    ensures l.rx / PAGE_SIZE + 1 in free <==> l.txBuffers[0] == l.rx + PAGE_SIZE
  {
    var pages := Pages(l);
    assert pages[0] == l.tx && pages[1] == l.rx && pages[2] == l.txBuffers[0];
    assert FrameAt(pages, 0) == l.tx / PAGE_SIZE && FrameAt(pages, 1) == l.rx / PAGE_SIZE;
    NextFrame(free, pages, 0);
    NextFrame(free, pages, 1);
    TakenAscends(free, l);
    SetupApart(free, l);
    InitSafe(l, mem);
  }
}
