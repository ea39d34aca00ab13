/** The ELF loader of kernel/src/core/elf.c, over the page tables and a byte-addressed memory. */
module Elf {
  import opened Machine
  import opened Arith
  import opened Pmm
  import opened Vmm
  import opened UserPages

  const ELF_MAGIC: nat := 0x464C457F
  const ELFCLASS64: nat := 2
  const EM_X86_64: nat := 62
  const ET_EXEC: nat := 2
  const PT_LOAD: nat := 1
  const EHDR_SIZE: nat := 64
  const PHDR_SIZE: nat := 56
  const MAX_SEGMENTS: nat := 16

  datatype LoadError = Success | InvalidMagic | UnsupportedClass | UnsupportedMachine | InvalidFileType
                     | SegmentOverlap | MemoryAllocation | SegmentMapping | DataTruncated

  datatype Header = Header(magic: nat, class_: nat, fileType: nat, machine: nat, entry: nat, phoff: nat, phnum: nat)

  datatype ProgramHeader = ProgramHeader(kind: nat, flags: nat, offset: nat, vaddr: nat, filesz: nat, memsz: nat)

  datatype Segment = Segment(start: nat, end: nat, offset: nat, filesz: nat, flags: nat)

  /** validate_elf_header, check by check. */
  function ValidateHeader(h: Header, size: nat): LoadError {
    if h.magic != ELF_MAGIC then InvalidMagic
    else if h.class_ != ELFCLASS64 then UnsupportedClass
    else if EHDR_SIZE > size then DataTruncated
    else if h.phnum == 0 || h.phoff == 0 || (h.phoff + h.phnum * PHDR_SIZE) % WORD_SPAN > size then DataTruncated
    else if h.machine != EM_X86_64 then UnsupportedMachine
    else if h.fileType != ET_EXEC then InvalidFileType
    else Success
  }

  function PageDown(addr: nat): nat {
    addr / PAGE_SIZE * PAGE_SIZE
  }

  /** PAGE_ALIGN_UP, on 64-bit words. */
  function PageUp(addr: nat): nat {
    (addr + PAGE_SIZE - 1) % WORD_SPAN / PAGE_SIZE * PAGE_SIZE
  }

  function SegmentOf(ph: ProgramHeader): Segment {
    Segment(PageDown(ph.vaddr), PageUp(ph.vaddr + ph.memsz), ph.offset, ph.filesz, ph.flags)
  }

  /** The pages of a segment hold its memory exactly if the end of its last page does not wrap. */
  lemma EndCovers(ph: ProgramHeader)
    requires ph.vaddr < WORD_SPAN && ph.memsz < WORD_SPAN
    ensures SegmentOf(ph).end >= ph.vaddr + ph.memsz <==> NoWrap(ph)
  {
  }

  /** The last page of the address space: the segment ends at 0. */
  lemma LastPageWraps(ph: ProgramHeader)
    requires ph.vaddr == 0xFFFF_FFFF_FFFF_F000 && ph.memsz == 0x1000
    ensures SegmentOf(ph).start == ph.vaddr && SegmentOf(ph).end == 0 && !NoWrap(ph)
  {
  }

  predicate NoWrap(ph: ProgramHeader) {
    ph.vaddr + ph.memsz + PAGE_SIZE - 1 < WORD_SPAN
  }

  /** The segments of the loadable headers among the first `n`. */
  function SegmentsOf(phs: seq<ProgramHeader>, n: nat): seq<Segment>
    requires n <= |phs|
  {
    if n == 0 then []
    else if phs[n - 1].kind == PT_LOAD then SegmentsOf(phs, n - 1) + [SegmentOf(phs[n - 1])]
    else SegmentsOf(phs, n - 1)
  }

  lemma {:induction false} SegmentsInclude(phs: seq<ProgramHeader>, n: nat, i: nat)
    requires i < n <= |phs| && phs[i].kind == PT_LOAD
    ensures SegmentOf(phs[i]) in SegmentsOf(phs, n)
  {
    if i < n - 1 {
      SegmentsInclude(phs, n - 1, i);
    }
  }

  predicate FitsInFile(ph: ProgramHeader, size: nat) {
    ph.kind == PT_LOAD ==> (ph.offset + ph.filesz) % WORD_SPAN <= size
  }

  predicate Apart(a: Segment, b: Segment) {
    b.end <= a.start || b.start >= a.end
  }

  ghost predicate AllApart(segments: seq<Segment>) {
    forall i, j | 0 <= i < j < |segments| :: Apart(segments[i], segments[j])
  }

  /** collect_segment_info: it succeeds exactly when every loadable header fits in the file and no two
      segments share a page. */
  method CollectSegments(phs: seq<ProgramHeader>, size: nat) returns (error: LoadError, segments: seq<Segment>)
    ensures error == Success ==> segments == SegmentsOf(phs, |phs|) && AllApart(segments)
    ensures error == Success ==> forall i | 0 <= i < |phs| :: FitsInFile(phs[i], size)
    ensures error == DataTruncated ==> exists i :: 0 <= i < |phs| && !FitsInFile(phs[i], size)
    ensures error == SegmentOverlap ==> !AllApart(SegmentsOf(phs, |phs|))
    ensures error in {Success, DataTruncated, SegmentOverlap}
  {
    segments := [];
    for i := 0 to |phs|
      invariant segments == SegmentsOf(phs, i)
      invariant forall k | 0 <= k < i :: FitsInFile(phs[k], size)
    {
      if phs[i].kind != PT_LOAD {
        continue;
      }
      if (phs[i].offset + phs[i].filesz) % WORD_SPAN > size {
        assert !FitsInFile(phs[i], size);
        return DataTruncated, segments;
      }
      segments := segments + [SegmentOf(phs[i])];
    }
    for i := 0 to |segments|
      invariant forall a, b | 0 <= a < i && a < b < |segments| :: Apart(segments[a], segments[b])
    {
      for j := i + 1 to |segments|
        invariant forall b | i < b < j :: Apart(segments[i], segments[b])
      {
        if !(segments[j].end <= segments[i].start || segments[j].start >= segments[i].end) {
          assert !Apart(segments[i], segments[j]);
          return SegmentOverlap, segments;
        }
      }
    }
    return Success, segments;
  }

  /** The physical address the translation `m` gives to virtual address `v`. */
  function PhysOf(m: map<nat, nat>, v: nat): nat {
    (if Vpn(v) in m then m[Vpn(v)] else 0) * PAGE_SIZE + v % PAGE_SIZE
  }

  /** A load from virtual address `v` gives `b`. */
  ghost predicate Holds(m: map<nat, nat>, mem: seq<byte>, v: nat, b: byte) {
    Vpn(v) in m && PhysOf(m, v) < |mem| && mem[PhysOf(m, v)] == b
  }

  /** The pages [lo, hi) are mapped, each to a frame of its own. */
  ghost predicate OwnFrames(m: map<nat, nat>, lo: nat, hi: nat) {
    lo <= hi && |FramesOf(m, lo, hi)| == hi - lo
  }

  predicate InPages(v: nat, lo: nat, hi: nat) {
    lo <= v / PAGE_SIZE < hi
  }

  lemma PhysInFrame(m: map<nat, nat>, lo: nat, hi: nat, v: nat)
    requires OwnFrames(m, lo, hi) && InPages(v, lo, hi)
    ensures Vpn(v) in m && PhysOf(m, v) / PAGE_SIZE == m[Vpn(v)] < TOTAL_PAGES
    ensures m[Vpn(v)] in FramesOf(m, lo, hi) && PhysOf(m, v) < TOTAL_PAGES * PAGE_SIZE
  {
    PagesMember(lo, hi, v / PAGE_SIZE);
    AllMapped(m, lo, hi, PageOf(v / PAGE_SIZE));
    FramesOfPages(m, lo, hi, PageOf(v / PAGE_SIZE));
  }

  /** Different addresses of such pages are different bytes of memory. */
  lemma PhysDiffers(m: map<nat, nat>, lo: nat, hi: nat, v: nat, w: nat)
    requires OwnFrames(m, lo, hi) && InPages(v, lo, hi) && InPages(w, lo, hi) && v != w
    ensures PhysOf(m, v) != PhysOf(m, w)
  {
    PhysInFrame(m, lo, hi, v);
    PhysInFrame(m, lo, hi, w);
    var a, b := v / PAGE_SIZE, w / PAGE_SIZE;
    if a < b {
      FramesDiffer(m, lo, hi, a, b);
    } else if b < a {
      FramesDiffer(m, lo, hi, b, a);
    }
  }

  /** Stores to [start, end), inside the pages [lo, hi), have left every other address of these pages
      and every other frame alone. */
  ghost predicate OnlyStored(m: map<nat, nat>, mem0: seq<byte>, mem: seq<byte>, lo: nat, hi: nat, start: nat, end: nat)
    requires lo <= hi
  {
    && |mem| == |mem0|
    && (forall a: nat | a < |mem| && a / PAGE_SIZE !in FramesOf(m, lo, hi) :: mem[a] == mem0[a])
    && (forall w: nat,
        c: byte {:trigger Holds(m, mem, w, c)} | InPages(w, lo, hi) && !(start <= w < end) && Holds(m, mem0, w, c) ::
         Holds(m, mem, w, c))
  }

  lemma StoreOne(m: map<nat, nat>, mem0: seq<byte>, mem: seq<byte>, lo: nat, hi: nat, start: nat, v: nat, b: byte)
    requires OwnFrames(m, lo, hi) && start <= v && InPages(v, lo, hi) && |mem| == TOTAL_PAGES * PAGE_SIZE
    requires OnlyStored(m, mem0, mem, lo, hi, start, v)
    ensures Vpn(v) in m && PhysOf(m, v) < |mem|
    ensures OnlyStored(m, mem0, mem[PhysOf(m, v) := b], lo, hi, start, v + 1)
    ensures Holds(m, mem[PhysOf(m, v) := b], v, b)
  {
    PhysInFrame(m, lo, hi, v);
    var mem' := mem[PhysOf(m, v) := b];
    forall w: nat, c: byte | InPages(w, lo, hi) && !(start <= w < v + 1) && Holds(m, mem0, w, c)
      ensures Holds(m, mem', w, c)
    {
      assert Holds(m, mem, w, c);
      PhysDiffers(m, lo, hi, v, w);
    }
  }

  /** Virtual memory from `start` on holds `bytes`. */
  ghost predicate Image(m: map<nat, nat>, mem: seq<byte>, start: nat, bytes: seq<byte>) {
    forall j | 0 <= j < |bytes| :: Holds(m, mem, start + j, bytes[j])
  }

  /** What one segment must look like after loading: its file bytes, then zeros to the page end. */
  function SegmentBytes(s: Segment, data: seq<byte>): (bytes: seq<byte>)
    requires s.offset + s.filesz <= |data| && s.filesz <= s.end - s.start
  {
    FileBytes(s, data) + seq(s.end - s.start - s.filesz, i => 0)
  }

  function FileBytes(s: Segment, data: seq<byte>): (bytes: seq<byte>)
    requires s.offset + s.filesz <= |data|
  {
    data[s.offset..s.offset + s.filesz]
  }

  /** A loop that stores `bytes` in order; OnlyStored for the addresses it has passed. */
  ghost predicate Storing(m: map<nat, nat>, mem0: seq<byte>, mem: seq<byte>, lo: nat, hi: nat, start: nat,
                          bytes: seq<byte>)
    requires lo <= hi
  {
    OnlyStored(m, mem0, mem, lo, hi, start, start + |bytes|) && Image(m, mem, start, bytes)
  }

  lemma StoreNext(m: map<nat, nat>, mem0: seq<byte>, mem: seq<byte>, lo: nat, hi: nat, start: nat, bytes: seq<byte>,
                  b: byte)
    requires OwnFrames(m, lo, hi) && lo * PAGE_SIZE <= start && start + |bytes| < hi * PAGE_SIZE
    requires |mem| == TOTAL_PAGES * PAGE_SIZE && Storing(m, mem0, mem, lo, hi, start, bytes)
    ensures Vpn(start + |bytes|) in m && PhysOf(m, start + |bytes|) < |mem|
    ensures Storing(m, mem0, mem[PhysOf(m, start + |bytes|) := b], lo, hi, start, bytes + [b])
  {
    var v := start + |bytes|;
    StoreOne(m, mem0, mem, lo, hi, start, v, b);
    StoreOne(m, mem, mem, lo, hi, v, v, b);
    var mem', bytes' := mem[PhysOf(m, v) := b], bytes + [b];
    forall j | 0 <= j < |bytes'| ensures Holds(m, mem', start + j, bytes'[j]) {
      if j < |bytes| {
        assert Holds(m, mem, start + j, bytes[j]);
        assert InPages(start + j, lo, hi);
      }
    }
  }

  /** memset to zero over [start, end), then memcpy of the file bytes to its front. */
  lemma CopyOverZeros(m: map<nat, nat>, mem0: seq<byte>, mem1: seq<byte>, mem: seq<byte>, lo: nat, hi: nat,
                      start: nat, zeros: seq<byte>, bytes: seq<byte>)
    requires lo <= hi && start == lo * PAGE_SIZE && start + |zeros| == hi * PAGE_SIZE && |bytes| <= |zeros|
    requires Storing(m, mem0, mem1, lo, hi, start, zeros) && Storing(m, mem1, mem, lo, hi, start, bytes)
    ensures Image(m, mem, start, bytes + zeros[|bytes|..])
    ensures StoredInside(mem0, mem, FramesOf(m, lo, hi))
  {
    var all := bytes + zeros[|bytes|..];
    forall j | 0 <= j < |all| ensures Holds(m, mem, start + j, all[j]) {
      if j < |bytes| {
        assert Holds(m, mem, start + j, bytes[j]);
      } else {
        assert Holds(m, mem1, start + j, zeros[j]);
        assert InPages(start + j, lo, hi);
      }
    }
  }

  /** The addresses of a segment are canonical: its page numbers survive the cut to 36 bits. */
  predicate Canonical(s: Segment) {
    s.start <= s.end && (s.end <= 0x8000_0000_0000 || (0xFFFF_8000_0000_0000 <= s.start && s.end < WORD_SPAN))
  }

  lemma SegmentFilled(m: map<nat, nat>, mem0: seq<byte>, mem1: seq<byte>, mem: seq<byte>, s: Segment, data: seq<byte>,
                      zeros: seq<byte>)
    requires Canonical(s) && Aligned(s) && s.offset + s.filesz <= |data| && s.filesz <= s.end - s.start
    requires zeros == seq(s.end - s.start, i => 0)
    requires Storing(m, mem0, mem1, FirstPage(s), EndPage(s), s.start, zeros)
    requires Storing(m, mem1, mem, FirstPage(s), EndPage(s), s.start, FileBytes(s, data))
    ensures Image(m, mem, s.start, SegmentBytes(s, data))
    ensures StoredInside(mem0, mem, FramesOf(m, FirstPage(s), EndPage(s)))
  {
    var bytes := FileBytes(s, data);
    CopyOverZeros(m, mem0, mem1, mem, FirstPage(s), EndPage(s), s.start, zeros, bytes);
    assert bytes + zeros[|bytes|..] == SegmentBytes(s, data);
  }

  function FirstPage(s: Segment): nat {
    s.start / PAGE_SIZE
  }

  function EndPage(s: Segment): nat {
    s.end / PAGE_SIZE
  }

  predicate Aligned(s: Segment) {
    s.start % PAGE_SIZE == 0 && s.end % PAGE_SIZE == 0
  }

  ghost function SegmentPages(s: Segment): set<nat> {
    if s.start <= s.end then Pages(FirstPage(s), EndPage(s)) else {}
  }

  lemma {:induction false} PagesInterval(lo: nat, hi: nat, p: nat)
    requires lo <= hi && PageOf(lo) + (hi - lo) <= VPN_COUNT && p in Pages(lo, hi)
    ensures PageOf(lo) <= p < PageOf(lo) + (hi - lo)
    decreases hi - lo
  {
    if p == PageOf(hi - 1) {
      NoCarry(lo, hi - 1 - lo);
    } else {
      PagesInterval(lo, hi - 1, p);
    }
  }

  lemma NoCarry(lo: nat, d: nat)
    requires PageOf(lo) + d < VPN_COUNT
    ensures PageOf(lo + d) == PageOf(lo) + d
  {
    DivUnique(lo + d, VPN_COUNT, lo / VPN_COUNT, PageOf(lo) + d);
  }

  lemma CanonicalFits(s: Segment)
    requires Canonical(s) && Aligned(s)
    ensures FirstPage(s) <= EndPage(s)
    ensures s.start == s.end || PageOf(FirstPage(s)) + (EndPage(s) - FirstPage(s)) <= VPN_COUNT
    ensures s.end <= 0x8000_0000_0000 ==> PageOf(FirstPage(s)) == FirstPage(s)
    ensures s.end > 0x8000_0000_0000 && s.start < s.end ==>
      PageOf(FirstPage(s)) == FirstPage(s) - (0x10_0000_0000_0000 - VPN_COUNT)
  {
  }

  /** Segments that pass the overlap check share no virtual page. */
  lemma ApartPages(a: Segment, b: Segment)
    requires Canonical(a) && Canonical(b) && Aligned(a) && Aligned(b) && Apart(a, b)
    ensures SegmentPages(a) !! SegmentPages(b)
  {
    CanonicalFits(a);
    CanonicalFits(b);
    if a.start < a.end && b.start < b.end {
      forall p | p in SegmentPages(a) && p in SegmentPages(b) ensures false {
        PagesInterval(FirstPage(a), EndPage(a), p);
        PagesInterval(FirstPage(b), EndPage(b), p);
      }
    }
  }

  /** Segment `s` is in memory: its pages have frames of their own, in use, and read as `bytes`. */
  ghost predicate Loaded(m: map<nat, nat>, mem: seq<byte>, free: set<nat>, s: Segment, bytes: seq<byte>)
    requires s.start <= s.end
  {
    && OwnFrames(m, FirstPage(s), EndPage(s))
    && FramesOf(m, FirstPage(s), EndPage(s)) !! free
    && Image(m, mem, s.start, bytes)
  }

  /** Growing over other pages, and storing into the frames taken for them, keeps a loaded segment. */
  lemma StaysLoaded(m0: map<nat, nat>, tree0: map<nat, Node>, free0: set<nat>, mem0: seq<byte>,
                    m: map<nat, nat>, tree: map<nat, Node>, free: set<nat>, mem: seq<byte>,
                    s: Segment, bytes: seq<byte>, lo: nat, hi: nat)
    requires Canonical(s) && Aligned(s) && |bytes| == s.end - s.start && lo <= hi
    requires Loaded(m0, mem0, free0, s, bytes) && Grown(m0, tree0, free0, m, tree, free, lo, hi)
    requires SegmentPages(s) !! Pages(lo, hi) && StoredInside(mem0, mem, FramesOf(m, lo, hi))
    ensures Loaded(m, mem, free, s, bytes)
  {
    var l, h := FirstPage(s), EndPage(s);
    SameFrames(m0, m, l, h);
    StaysImage(m0, mem0, m, mem, s, bytes, FramesOf(m, lo, hi));
  }

  lemma StaysImage(m0: map<nat, nat>, mem0: seq<byte>, m: map<nat, nat>, mem: seq<byte>,
                   s: Segment, bytes: seq<byte>, written: set<nat>)
    requires Canonical(s) && Aligned(s) && |bytes| == s.end - s.start
    requires OwnFrames(m0, FirstPage(s), EndPage(s)) && Image(m0, mem0, s.start, bytes)
    requires forall p: nat | p in SegmentPages(s) :: Get(m, p) == Get(m0, p)
    requires FramesOf(m0, FirstPage(s), EndPage(s)) !! written && StoredInside(mem0, mem, written)
    ensures Image(m, mem, s.start, bytes)
  {
    forall j | 0 <= j < |bytes| ensures Holds(m, mem, s.start + j, bytes[j]) {
      assert Holds(m0, mem0, s.start + j, bytes[j]);
      assert InPages(s.start + j, FirstPage(s), EndPage(s));
      StaysHeld(m0, mem0, m, mem, FirstPage(s), EndPage(s), written, s.start + j, bytes[j]);
    }
  }

  lemma StaysHeld(m0: map<nat, nat>, mem0: seq<byte>, m: map<nat, nat>, mem: seq<byte>,
                  lo: nat, hi: nat, written: set<nat>, v: nat, b: byte)
    requires OwnFrames(m0, lo, hi) && InPages(v, lo, hi) && Holds(m0, mem0, v, b)
    requires forall p: nat | p in Pages(lo, hi) :: Get(m, p) == Get(m0, p)
    requires FramesOf(m0, lo, hi) !! written && StoredInside(mem0, mem, written)
    ensures Holds(m, mem, v, b)
  {
    PhysInFrame(m0, lo, hi, v);
    PagesMember(lo, hi, v / PAGE_SIZE);
    HeldOutside(m0, mem0, m, mem, written, v, b);
  }

  /** Bytes of frames that are not written stay where they are seen. */
  lemma HeldOutside(m0: map<nat, nat>, mem0: seq<byte>, m: map<nat, nat>, mem: seq<byte>,
                    written: set<nat>, v: nat, b: byte)
    requires Holds(m0, mem0, v, b) && Get(m, Vpn(v)) == Get(m0, Vpn(v))
    requires StoredInside(mem0, mem, written) && PhysOf(m0, v) / PAGE_SIZE !in written
    ensures Holds(m, mem, v, b)
  {
    assert PhysOf(m, v) == PhysOf(m0, v);
  }

  /** Only bytes of `frames` differ. */
  ghost predicate StoredInside(mem0: seq<byte>, mem: seq<byte>, frames: set<nat>) {
    |mem| == |mem0| && forall a: nat | a < |mem| && a / PAGE_SIZE !in frames :: mem[a] == mem0[a]
  }

  lemma {:induction false} SameFrames(m0: map<nat, nat>, m: map<nat, nat>, lo: nat, hi: nat)
    requires lo <= hi && forall p: nat | p in Pages(lo, hi) :: Get(m, p) == Get(m0, p)
    ensures FramesOf(m, lo, hi) == FramesOf(m0, lo, hi)
    decreases hi - lo
  {
    if lo < hi {
      PagesFromBelow(lo, hi);
      assert Get(m, PageOf(lo)) == Get(m0, PageOf(lo));
      SameFrames(m0, m, lo + 1, hi);
    }
  }

  /** What the loader may be asked to load: page-aligned canonical segments whose file part lies in the file. */
  predicate Loadable(s: Segment, size: nat) {
    Canonical(s) && Aligned(s) && s.offset + s.filesz <= size && s.filesz <= s.end - s.start
  }

  ghost predicate AllLoadable(segments: seq<Segment>, size: nat) {
    forall i | 0 <= i < |segments| :: Loadable(segments[i], size)
  }

  /** A loadable header that the loader can load: canonical, without 64-bit wrap-around, and with a file part that fits
      in its pages. */
  predicate WellFormed(ph: ProgramHeader) {
    ph.kind == PT_LOAD ==>
      ph.filesz <= SegmentOf(ph).end - SegmentOf(ph).start && ph.offset + ph.filesz < WORD_SPAN
      && NoWrap(ph) && Canonical(SegmentOf(ph))
  }

  lemma {:induction false} CollectedAreLoadable(phs: seq<ProgramHeader>, n: nat, size: nat)
    requires n <= |phs| && size < WORD_SPAN
    requires forall i | 0 <= i < |phs| :: WellFormed(phs[i]) && FitsInFile(phs[i], size)
    ensures AllLoadable(SegmentsOf(phs, n), size)
  {
    if n > 0 {
      CollectedAreLoadable(phs, n - 1, size);
      assert WellFormed(phs[n - 1]) && FitsInFile(phs[n - 1], size);
    }
  }

  /** The byte a loadable header specifies at offset `k` of its memory: from the file, or zero. */
  function SpecifiedByte(ph: ProgramHeader, data: seq<byte>, k: nat): byte {
    if k < ph.filesz && ph.offset + k < |data| then data[ph.offset + k] else 0
  }

  /** Memory from `at` to the end of the last page reads as header `ph` of the file `data` specifies from p_vaddr on. */
  ghost predicate ReadsAt(m: map<nat, nat>, mem: seq<byte>, ph: ProgramHeader, data: seq<byte>, at: nat) {
    && ph.offset + ph.filesz <= |data|
    && forall k: nat | at + k < SegmentOf(ph).end :: Holds(m, mem, at + k, SpecifiedByte(ph, data, k))
  }

  ghost predicate Reads(m: map<nat, nat>, mem: seq<byte>, ph: ProgramHeader, data: seq<byte>) {
    ReadsAt(m, mem, ph, data, ph.vaddr)
  }

  lemma ImageReads(m: map<nat, nat>, mem: seq<byte>, ph: ProgramHeader, data: seq<byte>)
    requires Loadable(SegmentOf(ph), |data|)
    requires Image(m, mem, SegmentOf(ph).start, SegmentBytes(SegmentOf(ph), data))
    ensures ReadsAt(m, mem, ph, data, SegmentOf(ph).start)
  {
    var s := SegmentOf(ph);
    forall k: nat | s.start + k < s.end ensures Holds(m, mem, s.start + k, SpecifiedByte(ph, data, k)) {
      assert Holds(m, mem, s.start + k, SegmentBytes(s, data)[k]);
    }
  }

  /** The file part of the header has no byte but 0. */
  ghost predicate ZeroPart(ph: ProgramHeader, data: seq<byte>) {
    forall k: nat | k < ph.filesz :: SpecifiedByte(ph, data, k) == 0
  }

  /** The loader takes the page offset of an address that it has aligned before, which is 0. So a segment whose file
      part is placed at the start of its first page is where its header says exactly if p_vaddr is that start, or if
      there is nothing to tell. */
  lemma ReadsExactly(m: map<nat, nat>, mem: seq<byte>, ph: ProgramHeader, data: seq<byte>)
    requires NoWrap(ph) && ph.filesz <= ph.memsz && ReadsAt(m, mem, ph, data, SegmentOf(ph).start)
    ensures Reads(m, mem, ph, data) <==> ph.vaddr % PAGE_SIZE == 0 || ZeroPart(ph, data)
  {
    var s, d := SegmentOf(ph), ph.vaddr % PAGE_SIZE;
    SegmentOffset(ph);
    if Reads(m, mem, ph, data) && d > 0 {
      forall k: nat | k < ph.filesz ensures SpecifiedByte(ph, data, k) == 0 {
        ShiftedIsZero(m, mem, ph, data, d, k);
      }
    } else if ZeroPart(ph, data) {
      forall k: nat | ph.vaddr + k < s.end ensures Holds(m, mem, ph.vaddr + k, SpecifiedByte(ph, data, k)) {
        assert Holds(m, mem, s.start + (d + k), SpecifiedByte(ph, data, d + k));
      }
    }
  }

  lemma SegmentOffset(ph: ProgramHeader)
    requires NoWrap(ph)
    ensures ph.vaddr == SegmentOf(ph).start + ph.vaddr % PAGE_SIZE && ph.vaddr + ph.memsz <= SegmentOf(ph).end
  {
  }

  /** If memory reads the same from two places `d` apart, every byte of the file part equals one behind it, and so 0. */
  lemma {:induction false} ShiftedIsZero(m: map<nat, nat>, mem: seq<byte>, ph: ProgramHeader, data: seq<byte>,
                                         d: nat, k: nat)
    requires d > 0 && ph.vaddr == SegmentOf(ph).start + d && ph.vaddr + ph.filesz <= SegmentOf(ph).end
    requires ReadsAt(m, mem, ph, data, SegmentOf(ph).start) && Reads(m, mem, ph, data) && k < ph.filesz
    ensures SpecifiedByte(ph, data, k) == 0
    decreases ph.filesz - k
  {
    assert Holds(m, mem, ph.vaddr + k, SpecifiedByte(ph, data, k));
    assert Holds(m, mem, SegmentOf(ph).start + (d + k), SpecifiedByte(ph, data, d + k));
    if d + k < ph.filesz {
      ShiftedIsZero(m, mem, ph, data, d, d + k);
    }
  }

  /** A segment of two different bytes that begins at the second byte of a page reads its second byte first. */
  lemma UnalignedShifts(m: map<nat, nat>, mem: seq<byte>, ph: ProgramHeader, data: seq<byte>)
    requires NoWrap(ph) && ph.vaddr % PAGE_SIZE == 1 && ph.filesz == ph.memsz == 2
    requires ReadsAt(m, mem, ph, data, SegmentOf(ph).start) && data[ph.offset] != data[ph.offset + 1]
    ensures Holds(m, mem, ph.vaddr, data[ph.offset + 1]) && !Reads(m, mem, ph, data)
  {
    SegmentOffset(ph);
    assert Holds(m, mem, SegmentOf(ph).start + 1, SpecifiedByte(ph, data, 1));
    assert Reads(m, mem, ph, data) ==> Holds(m, mem, ph.vaddr + 0, SpecifiedByte(ph, data, 0));
  }

  /** The virtual pages of the first `n` segments. */
  ghost function PagesOf(segments: seq<Segment>, n: nat): set<nat>
    requires n <= |segments|
  {
    if n == 0 then {} else PagesOf(segments, n - 1) + SegmentPages(segments[n - 1])
  }

  /** The state after loading `n` segments from the state (m0, free0, mem0). */
  ghost predicate Progress(m0: map<nat, nat>, free0: set<nat>, mem0: seq<byte>,
                           m: map<nat, nat>, free: set<nat>, mem: seq<byte>,
                           segments: seq<Segment>, n: nat, data: seq<byte>)
    requires n <= |segments| && AllLoadable(segments, |data|)
  {
    && (forall k | 0 <= k < n :: Loaded(m, mem, free, segments[k], SegmentBytes(segments[k], data)))
    && SameOutside(m0, m, PagesOf(segments, n))
    && free <= free0 && StoredInside(mem0, mem, free0)
  }

  lemma OneMore(m0: map<nat, nat>, free0: set<nat>, mem0: seq<byte>,
                m1: map<nat, nat>, tree1: map<nat, Node>, free1: set<nat>, mem1: seq<byte>,
                m: map<nat, nat>, tree: map<nat, Node>, free: set<nat>, mem: seq<byte>,
                segments: seq<Segment>, n: nat, data: seq<byte>)
    requires n < |segments| && AllLoadable(segments, |data|) && AllApart(segments)
    requires Progress(m0, free0, mem0, m1, free1, mem1, segments, n, data)
    requires Grown(m1, tree1, free1, m, tree, free, FirstPage(segments[n]), EndPage(segments[n]))
    requires Image(m, mem, segments[n].start, SegmentBytes(segments[n], data))
    requires StoredInside(mem1, mem, FramesOf(m, FirstPage(segments[n]), EndPage(segments[n])))
    ensures Progress(m0, free0, mem0, m, free, mem, segments, n + 1, data)
  {
    var lo, hi := FirstPage(segments[n]), EndPage(segments[n]);
    forall k | 0 <= k < n ensures Loaded(m, mem, free, segments[k], SegmentBytes(segments[k], data)) {
      ApartPages(segments[k], segments[n]);
      assert Loadable(segments[k], |data|);
      StaysLoaded(m1, tree1, free1, mem1, m, tree, free, mem, segments[k], SegmentBytes(segments[k], data), lo, hi);
    }
    OutsideMore(m0, m1, m, segments, n);
    GrownFrames(m1, tree1, free1, m, tree, free, lo, hi);
    StoredInFree(free0, mem0, free1, mem1, FramesOf(m, lo, hi), mem);
  }

  lemma OutsideMore(m0: map<nat, nat>, m1: map<nat, nat>, m: map<nat, nat>, segments: seq<Segment>, n: nat)
    requires n < |segments|
    requires SameOutside(m0, m1, PagesOf(segments, n)) && SameOutside(m1, m, SegmentPages(segments[n]))
    ensures SameOutside(m0, m, PagesOf(segments, n + 1))
  {
    forall p: nat | p !in PagesOf(segments, n + 1) ensures Get(m, p) == Get(m0, p) {
      assert Get(m1, p) == Get(m0, p);
    }
  }

  lemma GrownFrames(m0: map<nat, nat>, tree0: map<nat, Node>, free0: set<nat>,
                    m: map<nat, nat>, tree: map<nat, Node>, free: set<nat>, lo: nat, hi: nat)
    requires lo <= hi && Grown(m0, tree0, free0, m, tree, free, lo, hi)
    ensures free <= free0 && FramesOf(m, lo, hi) <= free0 && FramesOf(m, lo, hi) !! free
    ensures OwnFrames(m, lo, hi) && SameOutside(m0, m, Pages(lo, hi))
  {
  }

  /** All segments loaded means that all loadable headers read back. */
  lemma LoadedRead(m: map<nat, nat>, mem: seq<byte>, free: set<nat>, phs: seq<ProgramHeader>, data: seq<byte>)
    requires AllLoadable(SegmentsOf(phs, |phs|), |data|)
    requires forall k | 0 <= k < |SegmentsOf(phs, |phs|)| ::
      Loaded(m, mem, free, SegmentsOf(phs, |phs|)[k], SegmentBytes(SegmentsOf(phs, |phs|)[k], data))
    ensures forall i | 0 <= i < |phs| && phs[i].kind == PT_LOAD ::
      ReadsAt(m, mem, phs[i], data, SegmentOf(phs[i]).start)
  {
    var segments := SegmentsOf(phs, |phs|);
    forall i | 0 <= i < |phs| && phs[i].kind == PT_LOAD
      ensures ReadsAt(m, mem, phs[i], data, SegmentOf(phs[i]).start)
    {
      SegmentsInclude(phs, |phs|, i);
      var k :| 0 <= k < |segments| && segments[k] == SegmentOf(phs[i]);
      assert Loadable(segments[k], |data|);
      ImageReads(m, mem, phs[i], data);
    }
  }

  lemma StoredInFree(free0: set<nat>, mem0: seq<byte>, free1: set<nat>, mem1: seq<byte>, frames: set<nat>,
                     mem: seq<byte>)
    requires StoredInside(mem0, mem1, free0) && free1 <= free0 && frames <= free1 && StoredInside(mem1, mem, frames)
    ensures StoredInside(mem0, mem, free0)
  {
  }

  /** The running kernel: its page tables and the bytes of physical memory. */
  class Loader {
    const vm: AddressSpace
    const memory: array<byte>

    ghost predicate Valid()
      reads this, vm, vm.pmm, vm.pmm.bitmap
    {
      vm.Valid() && memory.Length == TOTAL_PAGES * PAGE_SIZE && memory as object != vm.pmm.bitmap
    }

    constructor (vm: AddressSpace)
      requires vm.Valid()
      ensures this.vm == vm && Valid()
    {
      this.vm := vm;
      memory := new byte[TOTAL_PAGES * PAGE_SIZE](_ => 0);
    }

    /** A store of `b` to virtual address `v`. */
    method Store(v: nat, b: byte)
      requires Valid() && Vpn(v) in vm.mapping && PhysOf(vm.mapping, v) < memory.Length
      modifies memory
      ensures memory[..] == old(memory[..])[PhysOf(vm.mapping, v) := b]
    {
      var phys := vm.GetPhysAddr(v);
      memory[phys] := b;
    }

    /** memcpy to virtual address `start`, inside the mapped pages [lo, hi); memset is the case of equal bytes. */
    method StoreBytes(start: nat, bytes: seq<byte>, ghost lo: nat, ghost hi: nat)
      requires Valid() && OwnFrames(vm.mapping, lo, hi)
      requires lo * PAGE_SIZE <= start && start + |bytes| <= hi * PAGE_SIZE
      modifies memory
      ensures Storing(vm.mapping, old(memory[..]), memory[..], lo, hi, start, bytes)
    {
      ghost var m, mem0 := vm.mapping, memory[..];
      for k := 0 to |bytes|
        invariant Storing(m, mem0, memory[..], lo, hi, start, bytes[..k])
      {
        StoreNext(m, mem0, memory[..], lo, hi, start, bytes[..k], bytes[k]);
        assert bytes[..k] + [bytes[k]] == bytes[..k + 1];
        Store(start + k, bytes[k]);
      }
      assert bytes[..|bytes|] == bytes;
    }

    /** The page loop of map_segments for one segment. */
    method MapSegment(lo: nat, hi: nat, flags: nat) returns (error: LoadError)
      requires Valid() && lo <= hi && flags < PAGE_SIZE
      modifies vm`ram, vm`tree, vm`mapping, vm.pmm`freePages, vm.pmm`free, vm.pmm.bitmap
      ensures Valid()
      ensures error in {Success, MemoryAllocation, SegmentMapping}
      ensures error == Success ==>
        Grown(old(vm.mapping), old(vm.tree), old(vm.pmm.free), vm.mapping, vm.tree, vm.pmm.free, lo, hi)
      ensures error != Success ==> Exhausted(vm.pmm.free)
    {
      var outcome, _ := MapPages(vm, lo, hi, flags);
      match outcome
      case Mapped => error := Success;
      case NoFrame => error := MemoryAllocation;
      case NoTable => error := SegmentMapping;
    }

    /** The memset and memcpy of map_segments for one mapped segment. */
    method FillSegment(s: Segment, data: seq<byte>)
      requires Valid() && Canonical(s) && Aligned(s) && OwnFrames(vm.mapping, FirstPage(s), EndPage(s))
      requires s.offset + s.filesz <= |data| && s.filesz <= s.end - s.start
      modifies memory
      ensures Image(vm.mapping, memory[..], s.start, SegmentBytes(s, data))
      ensures StoredInside(old(memory[..]), memory[..], FramesOf(vm.mapping, FirstPage(s), EndPage(s)))
    {
      ghost var mem0 := memory[..];
      var zeros: seq<byte> := seq(s.end - s.start, i => 0);
      StoreBytes(s.start, zeros, FirstPage(s), EndPage(s));
      ghost var mem1 := memory[..];
      CopyFile(s, data);
      SegmentFilled(vm.mapping, mem0, mem1, memory[..], s, data, zeros);
    }

    /** The memcpy of map_segments. */
    method CopyFile(s: Segment, data: seq<byte>)
      requires Valid() && Canonical(s) && Aligned(s) && OwnFrames(vm.mapping, FirstPage(s), EndPage(s))
      requires s.offset + s.filesz <= |data| && s.filesz <= s.end - s.start
      modifies memory
      ensures Storing(vm.mapping, old(memory[..]), memory[..], FirstPage(s), EndPage(s), s.start, FileBytes(s, data))
    {
      if s.filesz > 0 {
        StoreBytes(s.start + s.start % PAGE_SIZE, FileBytes(s, data), FirstPage(s), EndPage(s));
      }
    }

    /** One turn of map_segments: map, zero, copy. */
    method LoadSegment(s: Segment, data: seq<byte>) returns (error: LoadError)
      requires Valid() && Canonical(s) && Aligned(s)
      requires s.offset + s.filesz <= |data| && s.filesz <= s.end - s.start
      modifies vm`ram, vm`tree, vm`mapping, vm.pmm`freePages, vm.pmm`free, vm.pmm.bitmap, memory
      ensures Valid()
      ensures error in {Success, MemoryAllocation, SegmentMapping}
      ensures error == Success ==>
        Grown(old(vm.mapping), old(vm.tree), old(vm.pmm.free), vm.mapping, vm.tree, vm.pmm.free, FirstPage(s),
              EndPage(s))
      ensures error == Success ==> Image(vm.mapping, memory[..], s.start, SegmentBytes(s, data))
      ensures error == Success ==>
        StoredInside(old(memory[..]), memory[..], FramesOf(vm.mapping, FirstPage(s), EndPage(s)))
      ensures error != Success ==> Exhausted(vm.pmm.free) && memory[..] == old(memory[..])
    {
      // 5 is PTE_PRESENT | PTE_USER; PF_X or PF_W (bits 0 and 1) add PTE_WRITABLE.
      error := MapSegment(s.start / PAGE_SIZE, s.end / PAGE_SIZE, if s.flags % 4 == 0 then 5 else 7);
      if error == Success {
        FillSegment(s, data);
      }
    }

    /** map_segments. */
    method MapSegments(segments: seq<Segment>, data: seq<byte>) returns (error: LoadError)
      requires Valid() && AllLoadable(segments, |data|) && AllApart(segments)
      modifies vm`ram, vm`tree, vm`mapping, vm.pmm`freePages, vm.pmm`free, vm.pmm.bitmap, memory
      ensures Valid()
      ensures error in {Success, MemoryAllocation, SegmentMapping}
      ensures error == Success ==>
        Progress(old(vm.mapping), old(vm.pmm.free), old(memory[..]), vm.mapping, vm.pmm.free, memory[..],
                 segments, |segments|, data)
      ensures error != Success ==> Exhausted(vm.pmm.free) && StoredInside(old(memory[..]), memory[..], old(vm.pmm.free))
    {
      ghost var m0, free0, mem0 := vm.mapping, vm.pmm.free, memory[..];
      for i := 0 to |segments|
        invariant Valid()
        invariant Progress(m0, free0, mem0, vm.mapping, vm.pmm.free, memory[..], segments, i, data)
      {
        error := LoadNext(segments, i, data, m0, free0, mem0);
        if error != Success {
          return;
        }
      }
      return Success;
    }

    method LoadNext(segments: seq<Segment>, i: nat, data: seq<byte>,
                    ghost m0: map<nat, nat>, ghost free0: set<nat>, ghost mem0: seq<byte>) returns (error: LoadError)
      requires Valid() && i < |segments| && AllLoadable(segments, |data|) && AllApart(segments)
      requires Progress(m0, free0, mem0, vm.mapping, vm.pmm.free, memory[..], segments, i, data)
      modifies vm`ram, vm`tree, vm`mapping, vm.pmm`freePages, vm.pmm`free, vm.pmm.bitmap, memory
      ensures Valid()
      ensures error in {Success, MemoryAllocation, SegmentMapping}
      ensures error == Success ==>
        Progress(m0, free0, mem0, vm.mapping, vm.pmm.free, memory[..], segments, i + 1, data)
      ensures error != Success ==> Exhausted(vm.pmm.free) && StoredInside(mem0, memory[..], free0)
    {
      ghost var m1, tree1, free1, mem1 := vm.mapping, vm.tree, vm.pmm.free, memory[..];
      error := LoadSegment(segments[i], data);
      if error == Success {
        OneMore(m0, free0, mem0, m1, tree1, free1, mem1, vm.mapping, vm.tree, vm.pmm.free, memory[..],
                segments, i, data);
      }
    }

    /** elf_load_executable. On success every loadable header reads back as its file bytes followed by zeros
        to the end of its last page, though from the start of its first page on: as it specifies exactly if that is
        p_vaddr, or it has no byte but 0. Nothing but these pages is translated differently, and no byte of a
        frame that was in use before is changed, whatever the outcome. */
    method Load(h: Header, phs: seq<ProgramHeader>, data: seq<byte>) returns (error: LoadError, entry: nat)
      requires Valid() && |phs| == h.phnum && |data| < WORD_SPAN
      requires |SegmentsOf(phs, |phs|)| <= MAX_SEGMENTS && forall i | 0 <= i < |phs| :: WellFormed(phs[i])
      modifies vm`ram, vm`tree, vm`mapping, vm.pmm`freePages, vm.pmm`free, vm.pmm.bitmap, memory
      ensures Valid()
      ensures ValidateHeader(h, |data|) != Success ==> error == ValidateHeader(h, |data|)
      ensures error == Success ==> entry == h.entry
      ensures error == Success ==>
        forall i | 0 <= i < |phs| && phs[i].kind == PT_LOAD ::
          ReadsAt(vm.mapping, memory[..], phs[i], data, SegmentOf(phs[i]).start)
      ensures error == Success ==>
        forall i | 0 <= i < |phs| && phs[i].kind == PT_LOAD && phs[i].filesz <= phs[i].memsz ::
          Reads(vm.mapping, memory[..], phs[i], data) <==> phs[i].vaddr % PAGE_SIZE == 0 || ZeroPart(phs[i], data)
      ensures error == Success ==>
        SameOutside(old(vm.mapping), vm.mapping, PagesOf(SegmentsOf(phs, |phs|), |SegmentsOf(phs, |phs|)|))
      ensures error == SegmentOverlap ==> !AllApart(SegmentsOf(phs, |phs|))
      ensures error in {MemoryAllocation, SegmentMapping} ==> Exhausted(vm.pmm.free)
      ensures StoredInside(old(memory[..]), memory[..], old(vm.pmm.free))
    {
      entry := 0;
      error := ValidateHeader(h, |data|);
      if error != Success {
        return;
      }
      var segments;
      error, segments := CollectSegments(phs, |data|);
      if error != Success {
        return;
      }
      CollectedAreLoadable(phs, |phs|, |data|);
      error := MapSegments(segments, data);
      if error != Success {
        return;
      }
      entry := h.entry;
      LoadedRead(vm.mapping, memory[..], vm.pmm.free, phs, data);
      forall i | 0 <= i < |phs| && phs[i].kind == PT_LOAD && phs[i].filesz <= phs[i].memsz
        ensures Reads(vm.mapping, memory[..], phs[i], data)
          <==> phs[i].vaddr % PAGE_SIZE == 0 || ZeroPart(phs[i], data)
      {
        ReadsExactly(vm.mapping, memory[..], phs[i], data);
      }
    }
  }
}
