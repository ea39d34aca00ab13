/** The DMA rings of kernel/src/net/wifi.c as a protocol of three parties that interleave freely: the driver in
    wifi_transmit_packet, the device, and the interrupt handler. Descriptors and buffers are bytes of one memory. */
module Wifi {
  import opened Machine
  import opened Arith

  const RING_SIZE: nat := 256
  const BUFFER_SIZE: nat := 2048
  const DESC_SIZE: nat := 32              // sizeof(struct wifi_dma_desc), packed
  const RING_BYTES: nat := 8192           // RING_SIZE * DESC_SIZE
  const LEN: nat := 8                     // offset of buffer_len in a descriptor
  const FLAGS: nat := 12
  const STATUS: nat := 16
  const OWN: nat := 0x8000_0000           // DESC_FLAG_OWN
  const INT: nat := 0x4000_0000           // DESC_FLAG_INT
  const SEND: nat := 0xF800_0000          // OWN, INT, FIRST, LAST and EOP

  type Packet = seq<byte>

  /** Physical memory; addresses that were never written hold 0. */
  type Memory = map<nat, byte>

  function Byte(mem: Memory, a: nat): byte {
    if a in mem then mem[a] else 0
  }

  /** The `n` bytes from `a` on. */
  function Slice(mem: Memory, a: nat, n: nat): (r: seq<byte>)
    ensures |r| == n && forall j | 0 <= j < n :: r[j] == Byte(mem, a + j)
  {
    seq<byte>(n, i requires 0 <= i < n => Byte(mem, a + i))
  }

  /** The value of a little-endian number. */
  function Value(digits: seq<byte>): nat {
    if digits == [] then 0 else digits[0] + 0x100 * Value(digits[1..])
  }

  function Digit(w: nat, i: nat): byte {
    if i == 0 then w % 0x100 else Digit(w / 0x100, i - 1)
  }

  /** The little-endian 32-bit word at `a`. */
  function Word(mem: Memory, a: nat): nat {
    Value(Slice(mem, a, 4))
  }

  function Encode(w: nat): (r: seq<byte>)
    ensures |r| == 4
  {
    seq<byte>(4, i requires 0 <= i < 4 => Digit(w, i))
  }

  function Store32(mem: Memory, a: nat, w: nat): Memory {
    WithBytes(mem, a, Encode(w))
  }

  /** `p` written from `a` on. */
  function WithBytes(mem: Memory, a: nat, p: seq<byte>): Memory {
    if p == [] then mem else WithBytes(mem, a, p[..|p| - 1])[a + |p| - 1 := p[|p| - 1]]
  }

  /** The fields of struct wifi_dma_desc that change: DESC_FLAG_OWN, buffer_len and the success bit of status. */
  datatype Desc = Desc(own: bool, len: nat, ok: bool)

  function DescAt(mem: Memory, a: nat): Desc {
    Desc(Word(mem, a + FLAGS) >= OWN, Word(mem, a + LEN), Word(mem, a + STATUS) % 2 == 1)
  }

  /** Only the `n` bytes from `lo` on may differ. */
  ghost predicate SameOutside(mem: Memory, mem': Memory, lo: nat, n: nat) {
    forall a: nat {:trigger Byte(mem', a)} | a < lo || lo + n <= a :: Byte(mem', a) == Byte(mem, a)
  }

  lemma ValueOfEncode(w: nat)
    requires w < U32_SPAN
    ensures Value(Encode(w)) == w
  {
    var d := Encode(w);
    var b := w / 0x100;
    var c := b / 0x100;
    assert Digit(w, 1) == Digit(b, 0) && Digit(w, 2) == Digit(b, 1) == Digit(c, 0);
    assert Digit(w, 3) == Digit(b, 2) == Digit(c, 1) == Digit(c / 0x100, 0);
    assert d[1..][1..] == d[2..] && d[2..][1..] == d[3..] && d[3..][1..] == [];
    assert Value(d[3..]) == c / 0x100;
    assert Value(d[2..]) == c;
    assert Value(d[1..]) == b;
  }

  lemma {:induction false} ZeroValue(digits: seq<byte>)
    requires forall i | 0 <= i < |digits| :: digits[i] == 0
    ensures Value(digits) == 0
  {
    if digits != [] {
      ZeroValue(digits[1..]);
    }
  }

  lemma {:induction false} StoredBytes(mem: Memory, a: nat, p: seq<byte>)
    ensures SameOutside(mem, WithBytes(mem, a, p), a, |p|)
    ensures forall j | 0 <= j < |p| :: Byte(WithBytes(mem, a, p), a + j) == p[j]
  {
    if p != [] {
      var q := p[..|p| - 1];
      StoredBytes(mem, a, q);
      var mem', mem1 := WithBytes(mem, a, p), WithBytes(mem, a, q);
      forall b: nat | b < a || a + |p| <= b ensures Byte(mem', b) == Byte(mem, b) {
        assert Byte(mem1, b) == Byte(mem, b);
      }
      forall j | 0 <= j < |p| ensures Byte(mem', a + j) == p[j] {
        assert j < |q| ==> Byte(mem1, a + j) == q[j];
      }
    }
  }

  lemma Stored32(mem: Memory, a: nat, w: nat)
    requires w < U32_SPAN
    ensures SameOutside(mem, Store32(mem, a, w), a, 4) && Word(Store32(mem, a, w), a) == w
  {
    StoredBytes(mem, a, Encode(w));
    assert Slice(Store32(mem, a, w), a, 4) == Encode(w);
    ValueOfEncode(w);
  }

  lemma WordKept(mem: Memory, mem': Memory, lo: nat, n: nat, a: nat)
    requires SameOutside(mem, mem', lo, n) && (a + 4 <= lo || lo + n <= a)
    ensures Word(mem', a) == Word(mem, a)
  {
    assert Slice(mem', a, 4) == Slice(mem, a, 4);
  }

  /** Storing one field of the descriptor at `a` leaves the other two. */
  lemma FieldStored(mem: Memory, a: nat, field: nat, w: nat)
    requires w < U32_SPAN && (field == LEN || field == FLAGS || field == STATUS)
    ensures var mem' := Store32(mem, a + field, w);
      && SameOutside(mem, mem', a, DESC_SIZE)
      && DescAt(mem', a) == if field == LEN then DescAt(mem, a).(len := w)
                            else if field == FLAGS then DescAt(mem, a).(own := w >= OWN)
                            else DescAt(mem, a).(ok := w % 2 == 1)
  {
    var mem' := Store32(mem, a + field, w);
    Stored32(mem, a + field, w);
    FieldMeans(mem, mem', a, field, w);
  }

  lemma FieldMeans(mem: Memory, mem': Memory, a: nat, field: nat, w: nat)
    requires field == LEN || field == FLAGS || field == STATUS
    requires SameOutside(mem, mem', a + field, 4) && Word(mem', a + field) == w
    ensures SameOutside(mem, mem', a, DESC_SIZE)
    ensures DescAt(mem', a) == if field == LEN then DescAt(mem, a).(len := w)
                               else if field == FLAGS then DescAt(mem, a).(own := w >= OWN)
                               else DescAt(mem, a).(ok := w % 2 == 1)
  {
    if field != LEN {
      WordKept(mem, mem', a + field, 4, a + LEN);
    }
    if field != FLAGS {
      WordKept(mem, mem', a + field, 4, a + FLAGS);
    }
    if field != STATUS {
      WordKept(mem, mem', a + field, 4, a + STATUS);
    }
  }

  lemma SameTwice(mem0: Memory, mem1: Memory, mem2: Memory, lo: nat, n: nat)
    requires SameOutside(mem0, mem1, lo, n) && SameOutside(mem1, mem2, lo, n)
    ensures SameOutside(mem0, mem2, lo, n)
  {
    forall a: nat | a < lo || lo + n <= a ensures Byte(mem2, a) == Byte(mem0, a) {
      assert Byte(mem1, a) == Byte(mem0, a);
    }
  }

  /** A descriptor outside the bytes that were written. */
  lemma DescKept(mem: Memory, mem': Memory, lo: nat, n: nat, a: nat)
    requires SameOutside(mem, mem', lo, n) && (a + DESC_SIZE <= lo || lo + n <= a)
    ensures DescAt(mem', a) == DescAt(mem, a)
  {
    WordKept(mem, mem', lo, n, a + LEN);
    WordKept(mem, mem', lo, n, a + FLAGS);
    WordKept(mem, mem', lo, n, a + STATUS);
  }

  /** The pages setup_dma_rings got: one for each ring and one for each buffer. */
  datatype Layout = Layout(tx: nat, rx: nat, txBuffers: seq<nat>, rxBuffers: seq<nat>)

  /** Descriptor `i` of the ring at `base`. */
  function DescAddr(base: nat, i: nat): nat {
    base + i * DESC_SIZE
  }

  /** The pages in the order in which setup_dma_rings asks for them. */
  function Pages(l: Layout): seq<nat> {
    [l.tx, l.rx] + l.txBuffers + l.rxBuffers
  }

  /** Pages of one size, each behind those before it, as an allocator of the lowest free page hands them out. */
  ghost predicate Ascending(l: Layout) {
    && |l.txBuffers| == |l.rxBuffers| == RING_SIZE
    && (forall k | 0 <= k < |Pages(l)| :: Pages(l)[k] % PAGE_SIZE == 0)
    && (forall j: nat, k: nat {:trigger Before(l, j, k)} | j < k < |Pages(l)| :: Before(l, j, k))
  }

  predicate Before(l: Layout, j: nat, k: nat)
    requires j < k < |Pages(l)|
  {
    Pages(l)[j] + PAGE_SIZE <= Pages(l)[k]
  }

  predicate RingsApart(l: Layout) {
    l.tx + RING_BYTES <= l.rx || l.rx + RING_BYTES <= l.tx
  }

  /** A page outside the storage of the ring at `base`. */
  predicate OffRing(base: nat, page: nat) {
    page + PAGE_SIZE <= base || base + RING_BYTES <= page
  }

  predicate BuffersApart(l: Layout) {
    && (forall k | 0 <= k < |l.txBuffers| :: OffRing(l.tx, l.txBuffers[k]) && OffRing(l.rx, l.txBuffers[k]))
    && (forall k | 0 <= k < |l.rxBuffers| :: OffRing(l.tx, l.rxBuffers[k]) && OffRing(l.rx, l.rxBuffers[k]))
  }

  /** The rings overlap neither each other nor a buffer. */
  predicate StorageApart(l: Layout) {
    RingsApart(l) && BuffersApart(l)
  }

  lemma PlacesAscend(l: Layout)
    requires Ascending(l)
    ensures l.tx % PAGE_SIZE == 0 && l.rx % PAGE_SIZE == 0 && l.tx + PAGE_SIZE <= l.rx
    ensures forall i | 0 <= i < RING_SIZE ::
      l.txBuffers[i] % PAGE_SIZE == 0 && l.rx + PAGE_SIZE <= l.txBuffers[0] <= l.txBuffers[i]
    ensures forall i, j | 0 <= i < RING_SIZE && 0 <= j < RING_SIZE :: l.txBuffers[i] + PAGE_SIZE <= l.rxBuffers[j]
    ensures forall i, j | 0 <= i < j < RING_SIZE :: l.txBuffers[i] + PAGE_SIZE <= l.txBuffers[j]
    ensures forall i, j | 0 <= i < j < RING_SIZE :: l.rxBuffers[i] + PAGE_SIZE <= l.rxBuffers[j]
  {
    assert Pages(l)[0] == l.tx && Pages(l)[1] == l.rx && Pages(l)[2] == l.txBuffers[0];
    assert Before(l, 0, 1) && Before(l, 1, 2);
    forall i | 0 <= i < RING_SIZE ensures l.txBuffers[i] % PAGE_SIZE == 0 && l.txBuffers[0] <= l.txBuffers[i] {
      assert Pages(l)[i + 2] == l.txBuffers[i];
      assert i > 0 ==> Before(l, 2, i + 2);
    }
    forall i, j | 0 <= i < RING_SIZE && 0 <= j < RING_SIZE ensures l.txBuffers[i] + PAGE_SIZE <= l.rxBuffers[j] {
      assert Before(l, i + 2, j + 2 + RING_SIZE);
    }
    forall i, j | 0 <= i < j < RING_SIZE ensures l.txBuffers[i] + PAGE_SIZE <= l.txBuffers[j] {
      assert Before(l, i + 2, j + 2);
    }
    forall i, j | 0 <= i < j < RING_SIZE ensures l.rxBuffers[i] + PAGE_SIZE <= l.rxBuffers[j] {
      assert Before(l, i + 2 + RING_SIZE, j + 2 + RING_SIZE);
    }
  }

  /** Descriptor `i` of the transmit ring is descriptor `j` of the receive ring. */
  predicate Shared(l: Layout, i: nat, j: nat) {
    i < RING_SIZE && j < RING_SIZE && DescAddr(l.tx, i) == DescAddr(l.rx, j)
  }

  lemma SharedDescriptor(l: Layout) returns (i: nat, j: nat)
    requires l.tx % PAGE_SIZE == 0 && l.rx % PAGE_SIZE == 0 && !RingsApart(l)
    ensures Shared(l, i, j)
  {
    var p, q := l.tx / PAGE_SIZE, l.rx / PAGE_SIZE;
    i, j := if q == p + 1 then 128 else 0, if p == q + 1 then 128 else 0;
  }

  /** No descriptor belongs to both rings exactly if their frames are at least two apart. */
  lemma RingsApartMeans(l: Layout)
    requires l.tx % PAGE_SIZE == 0 && l.rx % PAGE_SIZE == 0
    ensures RingsApart(l) <==> l.rx / PAGE_SIZE >= l.tx / PAGE_SIZE + 2 || l.tx / PAGE_SIZE >= l.rx / PAGE_SIZE + 2
    ensures RingsApart(l) <==> !exists i: nat, j: nat :: Shared(l, i, j)
  {
    if !RingsApart(l) {
      var i, j := SharedDescriptor(l);
    }
  }

  /** For ascending pages, storage overlaps exactly if the receive ring is the page after the transmit ring, or the
      first transmit buffer the page after the receive ring. */
  lemma ApartMeans(l: Layout)
    requires Ascending(l)
    ensures RingsApart(l) <==> l.rx != l.tx + PAGE_SIZE
    ensures StorageApart(l) <==> l.rx != l.tx + PAGE_SIZE && l.txBuffers[0] != l.rx + PAGE_SIZE
  {
    PlacesAscend(l);
    if l.rx != l.tx + PAGE_SIZE && l.txBuffers[0] != l.rx + PAGE_SIZE {
      assert l.rx >= l.tx + RING_BYTES && l.txBuffers[0] >= l.rx + RING_BYTES;
      forall i | 0 <= i < RING_SIZE ensures l.rxBuffers[i] >= l.txBuffers[0] + PAGE_SIZE {
        assert l.txBuffers[0] + PAGE_SIZE <= l.rxBuffers[i];
      }
    }
  }

  /** A ring of `n` descriptors lies in the page at its base exactly if its size allows; a ring of 256 does not. */
  lemma RingFitsPage(base: nat, n: nat)
    requires base % PAGE_SIZE == 0
    ensures (forall i: nat | i < n :: DescAddr(base, i) / PAGE_SIZE == base / PAGE_SIZE) <==> n * DESC_SIZE <= PAGE_SIZE
    ensures DescAddr(base, 128) / PAGE_SIZE == base / PAGE_SIZE + 1
  {
    if n > 128 {
      assert DescAddr(base, 128) / PAGE_SIZE != base / PAGE_SIZE;
    } else {
      forall i: nat | i < n ensures DescAddr(base, i) / PAGE_SIZE == base / PAGE_SIZE {
        DivUnique(DescAddr(base, i), PAGE_SIZE, base / PAGE_SIZE, i * DESC_SIZE);
      }
    }
  }

  /** Where the driver is in wifi_transmit_packet. */
  datatype Driver = Idle | Copying(p: Packet, j: nat) | Described(p: Packet) | Flagged(p: Packet)

  /** Where the interrupt handler is in its loops over completed transmit descriptors and filled receive ones. */
  datatype Handler = Waiting | Seen | Counted | Cleared | RxSeen | RxGiven

  /** struct wifi_device with the memory it points to. The rest is history: the packets the driver has published and
      those the handler has taken off the transmit ring, the frames the device has received and those the handler has
      taken off the receive ring; `good` and `bad` count outcomes without wrapping. */
  datatype State = State(layout: Layout, mem: Memory,
                         head: nat, tail: nat, packets: nat, errors: nat, rxHead: nat,
                         driver: Driver, handler: Handler,
                         accepted: seq<Packet>, retired: seq<Packet>, good: nat, bad: nat,
                         frames: seq<Packet>, taken: seq<Packet>)

  /** The steps of the three parties. A step of the driver or the handler is one access to a shared field; stores to the
      other fields of the same descriptor go with it. The device completes transmissions in any order, and fills receive
      descriptors in the order of the ring. */
  datatype Action =
    | Begin(p: Packet) | CopyByte | Describe | Give | Publish
    | Complete(slot: nat, ok: bool) | Fill(p: Packet, ok: bool)
    | See | Count | Clear | Advance
    | SeeRx | GiveRx | AdvanceRx

  predicate Shape(s: State) {
    && |s.layout.txBuffers| == |s.layout.rxBuffers| == RING_SIZE
    && s.head < RING_SIZE && s.tail < RING_SIZE && s.rxHead < RING_SIZE
    && (s.driver.Copying? ==> s.driver.j <= |s.driver.p|) && (!s.driver.Idle? ==> |s.driver.p| <= BUFFER_SIZE)
  }

  function TxAddr(s: State, i: nat): nat {
    DescAddr(s.layout.tx, i)
  }

  function RxAddr(s: State, i: nat): nat {
    DescAddr(s.layout.rx, i)
  }

  function TxAt(s: State, i: nat): Desc {
    DescAt(s.mem, TxAddr(s, i))
  }

  function RxAt(s: State, i: nat): Desc {
    DescAt(s.mem, RxAddr(s, i))
  }

  function TxByte(s: State, i: nat, j: nat): byte
    requires i < |s.layout.txBuffers|
  {
    Byte(s.mem, s.layout.txBuffers[i] + j)
  }

  function RxByte(s: State, i: nat, j: nat): byte
    requires i < |s.layout.rxBuffers|
  {
    Byte(s.mem, s.layout.rxBuffers[i] + j)
  }

  predicate Enabled(s: State, a: Action) {
    Shape(s) &&
    match a
    case Begin(p) => s.driver.Idle? && |p| <= BUFFER_SIZE && (s.tail + 1) % RING_SIZE != s.head
    case CopyByte => s.driver.Copying? && s.driver.j < |s.driver.p|
    case Describe => s.driver.Copying? && s.driver.j == |s.driver.p|
    case Give => s.driver.Described?
    case Publish => s.driver.Flagged?
    case Complete(slot, _) => slot < RING_SIZE && TxAt(s, slot).own
    case Fill(p, _) => |p| <= BUFFER_SIZE && RxAt(s, Slot(|s.frames|)).own
    case See => s.handler.Waiting? && s.head != s.tail && !TxAt(s, s.head).own
    case Count => s.handler.Seen?
    case Clear => s.handler.Counted?
    case Advance => s.handler.Cleared?
    case SeeRx => s.handler.Waiting? && !RxAt(s, s.rxHead).own
    case GiveRx => s.handler.RxSeen?
    case AdvanceRx => s.handler.RxGiven?
  }

  /** Status and flags of the descriptor at `a` stored. */
  function WithState(mem: Memory, a: nat, ok: bool, flags: nat): Memory
    requires flags < U32_SPAN
  {
    Store32(Store32(mem, a + STATUS, if ok then 1 else 0), a + FLAGS, flags)
  }

  function Apply(s: State, a: Action): State
    requires Enabled(s, a)
  {
    match a
    case Begin(p) => s.(driver := Copying(p, 0))
    case CopyByte =>
      s.(mem := s.mem[s.layout.txBuffers[s.tail] + s.driver.j := s.driver.p[s.driver.j]],
         driver := Copying(s.driver.p, s.driver.j + 1))
    case Describe =>
      s.(mem := Store32(Store32(s.mem, TxAddr(s, s.tail) + LEN, |s.driver.p|), TxAddr(s, s.tail) + STATUS, 0),
         driver := Described(s.driver.p))
    case Give => s.(mem := Store32(s.mem, TxAddr(s, s.tail) + FLAGS, SEND), driver := Flagged(s.driver.p))
    case Publish => s.(tail := (s.tail + 1) % RING_SIZE, driver := Idle, accepted := s.accepted + [s.driver.p])
    case Complete(slot, ok) => s.(mem := WithState(s.mem, TxAddr(s, slot), ok, INT))
    case Fill(p, ok) =>
      var slot := Slot(|s.frames|);
      var mem := WithBytes(s.mem, s.layout.rxBuffers[slot], p);
      s.(mem := WithState(Store32(mem, RxAddr(s, slot) + LEN, |p|), RxAddr(s, slot), ok, INT),
         frames := s.frames + [p])
    case See => s.(handler := Seen)
    case Count =>
      if TxAt(s, s.head).ok then s.(packets := (s.packets + 1) % U32_SPAN, good := s.good + 1, handler := Counted)
      else s.(errors := (s.errors + 1) % U32_SPAN, bad := s.bad + 1, handler := Counted)
    case Clear => s.(mem := WithState(s.mem, TxAddr(s, s.head), false, INT), handler := Cleared)
    case Advance =>
      s.(head := (s.head + 1) % RING_SIZE, handler := Waiting,
         retired := s.retired + [Slice(s.mem, s.layout.txBuffers[s.head], TxAt(s, s.head).len)])
    case SeeRx => s.(handler := RxSeen)
    case GiveRx =>
      s.(mem := WithState(s.mem, RxAddr(s, s.rxHead), false, OWN + INT), handler := RxGiven,
         taken := s.taken + [Slice(s.mem, s.layout.rxBuffers[s.rxHead], RxAt(s, s.rxHead).len)])
    case AdvanceRx => s.(rxHead := (s.rxHead + 1) % RING_SIZE, handler := Waiting)
  }

  /** The memory after the length and the flags of the first `n` descriptors at `base` were stored. */
  function WithRing(mem: Memory, base: nat, n: nat, flags: nat): Memory
    requires flags < U32_SPAN
  {
    if n == 0 then mem
    else
      var a := DescAddr(base, n - 1);
      Store32(Store32(WithRing(mem, base, n - 1, flags), a + LEN, BUFFER_SIZE), a + FLAGS, flags)
  }

  lemma RingNext(mem: Memory, base: nat, n: nat, flags: nat)
    requires n > 0 && flags < U32_SPAN
    ensures SameOutside(WithRing(mem, base, n - 1, flags), WithRing(mem, base, n, flags),
                        DescAddr(base, n - 1), DESC_SIZE)
    ensures var d := DescAt(WithRing(mem, base, n, flags), DescAddr(base, n - 1));
      d.own == (flags >= OWN) && d.len == BUFFER_SIZE
  {
    TwoFields(WithRing(mem, base, n - 1, flags), DescAddr(base, n - 1), flags);
  }

  /** What setup_dma_rings stores in one descriptor. */
  lemma TwoFields(mem: Memory, a: nat, flags: nat)
    requires flags < U32_SPAN
    ensures var mem' := Store32(Store32(mem, a + LEN, BUFFER_SIZE), a + FLAGS, flags);
      && SameOutside(mem, mem', a, DESC_SIZE)
      && DescAt(mem', a).own == (flags >= OWN) && DescAt(mem', a).len == BUFFER_SIZE
  {
    FieldStored(mem, a, LEN, BUFFER_SIZE);
    var mem1 := Store32(mem, a + LEN, BUFFER_SIZE);
    FieldStored(mem1, a, FLAGS, flags);
    SameTwice(mem, mem1, Store32(mem1, a + FLAGS, flags), a, DESC_SIZE);
  }

  lemma {:induction false} RingAt(mem: Memory, base: nat, n: nat, flags: nat, i: nat)
    requires i < n && flags < U32_SPAN
    ensures var d := DescAt(WithRing(mem, base, n, flags), DescAddr(base, i));
      d.own == (flags >= OWN) && d.len == BUFFER_SIZE
  {
    RingNext(mem, base, n, flags);
    if i < n - 1 {
      RingAt(mem, base, n - 1, flags, i);
      DescKept(WithRing(mem, base, n - 1, flags), WithRing(mem, base, n, flags), DescAddr(base, n - 1), DESC_SIZE,
               DescAddr(base, i));
    }
  }

  lemma {:induction false} RingElsewhere(mem: Memory, base: nat, n: nat, flags: nat, a: nat)
    requires (a + DESC_SIZE <= base || DescAddr(base, n) <= a) && flags < U32_SPAN
    ensures DescAt(WithRing(mem, base, n, flags), a) == DescAt(mem, a)
  {
    if n > 0 {
      RingNext(mem, base, n, flags);
      RingElsewhere(mem, base, n - 1, flags, a);
      DescKept(WithRing(mem, base, n - 1, flags), WithRing(mem, base, n, flags), DescAddr(base, n - 1), DESC_SIZE, a);
    }
  }

  /** memset of a page to zero. */
  function Zeroed(mem: Memory, page: nat): Memory {
    WithBytes(mem, page, seq(PAGE_SIZE, i => 0))
  }

  /** The memory setup_dma_rings leaves: it clears one page of each ring, sets up the transmit descriptors, and then the
      receive descriptors, which it gives to the device. */
  function SetUp(l: Layout, mem: Memory): Memory {
    WithRing(WithRing(Zeroed(Zeroed(mem, l.tx), l.rx), l.tx, RING_SIZE, INT), l.rx, RING_SIZE, OWN + INT)
  }

  /** The device after setup_dma_rings, in whatever memory it found. */
  function Init(l: Layout, mem: Memory): State {
    State(l, SetUp(l, mem), 0, 0, 0, 0, 0, Idle, Waiting, [], [], 0, 0, [], [])
  }

  /** The descriptor of the k-th packet. */
  function Slot(k: nat): (i: nat)
    ensures i < RING_SIZE
  {
    k % RING_SIZE
  }

  /** Transmit buffer `i` begins with `p`. */
  predicate TxHolds(s: State, i: nat, p: Packet)
    requires Shape(s) && i < RING_SIZE
  {
    forall j | 0 <= j < |p| :: TxByte(s, i, j) == p[j]
  }

  predicate RxHolds(s: State, i: nat, p: Packet)
    requires Shape(s) && i < RING_SIZE
  {
    forall j | 0 <= j < |p| :: RxByte(s, i, j) == p[j]
  }

  /** Packet `k` stands complete in its buffer. */
  predicate Holds(s: State, k: nat, p: Packet)
    requires Shape(s)
  {
    TxAt(s, Slot(k)).len == |p| <= BUFFER_SIZE && TxHolds(s, Slot(k), p)
  }

  predicate Stored(s: State, k: nat)
    requires Shape(s) && k < |s.accepted|
  {
    Holds(s, k, s.accepted[k])
  }

  /** If the device owns the descriptor of packet `k`, the packet lies in [head, tail), or it is the one the driver
      is about to publish. */
  predicate Window(s: State, k: nat) {
    TxAt(s, Slot(k)).own ==> k < |s.accepted| || (k == |s.accepted| && s.driver.Flagged?)
  }

  /** What the driver has prepared so far for the next packet. */
  predicate Prepared(s: State)
    requires Shape(s)
  {
    match s.driver
    case Idle => true
    case Copying(p, j) => TxHolds(s, s.tail, p[..j])
    case Described(p) => Holds(s, |s.accepted|, p)
    case Flagged(p) => Holds(s, |s.accepted|, p)
  }

  function InFlight(s: State): int {
    |s.accepted| - |s.retired|
  }

  /** The handler is dealing with a transmit descriptor. */
  predicate InTx(h: Handler) {
    h.Seen? || h.Counted? || h.Cleared?
  }

  /** The invariant of the transmit side. */
  ghost predicate TxInv(s: State) {
    && Shape(s) && s.head == Slot(|s.retired|) && s.tail == Slot(|s.accepted|)
    && 0 <= InFlight(s) < RING_SIZE && (!s.driver.Idle? ==> InFlight(s) < RING_SIZE - 1)
    && s.retired <= s.accepted
    && (forall k: nat {:trigger Stored(s, k)} | |s.retired| <= k < |s.accepted| :: Stored(s, k))
    && (forall k: nat {:trigger Window(s, k)} | |s.retired| <= k < |s.retired| + RING_SIZE :: Window(s, k))
    && Prepared(s)
    && (InTx(s.handler) ==> InFlight(s) > 0 && !TxAt(s, s.head).own)
    && s.packets == s.good % U32_SPAN && s.errors == s.bad % U32_SPAN
    && s.good + s.bad == |s.retired| + if s.handler.Counted? || s.handler.Cleared? then 1 else 0
  }

  /** Frame `k` stands complete in its buffer, and its descriptor is the driver's. */
  predicate Arrived(s: State, k: nat)
    requires Shape(s) && k < |s.frames|
  {
    && !RxAt(s, Slot(k)).own && RxAt(s, Slot(k)).len == |s.frames[k]| <= BUFFER_SIZE
    && RxHolds(s, Slot(k), s.frames[k])
  }

  predicate Awaited(s: State, k: nat) {
    RxAt(s, Slot(k)).own
  }

  /** The invariant of the receive side: from the frames taken to the frames received the descriptors are the
      driver's, and all others are the device's. */
  ghost predicate RxInv(s: State) {
    && Shape(s) && |s.taken| <= |s.frames| <= |s.taken| + RING_SIZE && s.taken <= s.frames
    && (if s.handler.RxGiven? then |s.taken| > 0 && s.rxHead == Slot(|s.taken| - 1) else s.rxHead == Slot(|s.taken|))
    && (s.handler.RxSeen? ==> |s.taken| < |s.frames|)
    && (forall k: nat {:trigger Arrived(s, k)} | |s.taken| <= k < |s.frames| :: Arrived(s, k))
    && (forall k: nat {:trigger Awaited(s, k)} | |s.frames| <= k < |s.taken| + RING_SIZE :: Awaited(s, k))
  }

  /** The invariant of the protocol. */
  ghost predicate Inv(s: State) {
    TxInv(s) && RxInv(s)
  }

  /** setup_dma_rings hands all receive descriptors to the device, and a transmit descriptor exactly if it is one of
      them. */
  lemma InitDescs(l: Layout, mem: Memory)
    requires Ascending(l)
    ensures forall i: nat | i < RING_SIZE :: RxAt(Init(l, mem), i).own
    ensures RingsApart(l) ==> forall i: nat | i < RING_SIZE :: !TxAt(Init(l, mem), i).own
    ensures !RingsApart(l) ==> TxAt(Init(l, mem), 128).own
  {
    ApartMeans(l);
    PlacesAscend(l);
    var mem1 := Zeroed(Zeroed(mem, l.tx), l.rx);
    var mem2 := WithRing(mem1, l.tx, RING_SIZE, INT);
    forall i: nat | i < RING_SIZE
      ensures DescAt(SetUp(l, mem), DescAddr(l.rx, i)).own
      ensures RingsApart(l) ==> !DescAt(SetUp(l, mem), DescAddr(l.tx, i)).own
    {
      RingAt(mem2, l.rx, RING_SIZE, OWN + INT, i);
      RingAt(mem1, l.tx, RING_SIZE, INT, i);
      if RingsApart(l) {
        RingElsewhere(mem2, l.rx, RING_SIZE, OWN + INT, DescAddr(l.tx, i));
      }
    }
    if !RingsApart(l) {
      assert DescAddr(l.tx, 128) == DescAddr(l.rx, 0);
    }
  }

  lemma InitTx(l: Layout, mem: Memory)
    requires Ascending(l) && RingsApart(l)
    ensures TxInv(Init(l, mem))
  {
    var s := Init(l, mem);
    InitDescs(l, mem);
    forall k: nat | k < RING_SIZE ensures Window(s, k) {
      assert Slot(k) == k;
    }
  }

  lemma InitRx(l: Layout, mem: Memory)
    requires Ascending(l)
    ensures RxInv(Init(l, mem))
  {
    var s := Init(l, mem);
    InitDescs(l, mem);
    forall k: nat | k < RING_SIZE ensures Awaited(s, k) {
      assert Slot(k) == k;
    }
  }

  /** The rings as setup_dma_rings leaves them satisfy the invariant exactly if they do not overlap. */
  lemma InitSafe(l: Layout, mem: Memory)
    requires Ascending(l)
    ensures Inv(Init(l, mem)) <==> RingsApart(l)
  {
    InitRx(l, mem);
    if RingsApart(l) {
      InitTx(l, mem);
    } else {
      InitDescs(l, mem);
      assert Slot(128) == 128 && !Window(Init(l, mem), 128);
    }
  }

  /** When the receive ring is the page after the transmit ring, transmit descriptor 128 is receive descriptor 0: the
      device owns it although nothing was sent. */
  lemma OverlapFromTheStart(l: Layout, mem: Memory)
    requires Ascending(l) && l.rx == l.tx + PAGE_SIZE
    ensures DescAddr(l.tx, 128) == DescAddr(l.rx, 0)
    ensures Init(l, mem).head == Init(l, mem).tail && TxAt(Init(l, mem), 128).own && !Inv(Init(l, mem))
  {
    ApartMeans(l);
    InitDescs(l, mem);
    InitSafe(l, mem);
  }

  /** And sending a packet through descriptor 128 + i writes its length into receive descriptor i. */
  lemma OverlapIsWritten(s: State, i: nat)
    requires Enabled(s, Describe) && s.layout.rx == s.layout.tx + PAGE_SIZE && s.tail == 128 + i
    ensures RxAt(Apply(s, Describe), i).len == |s.driver.p|
  {
    DescribeEffect(s);
    assert TxAddr(s, s.tail) == RxAddr(s, i);
  }

  /** Moving on by less than a round. */
  lemma SlotAdd(k: nat, d: nat)
    requires d < RING_SIZE
    ensures Slot(k + d) == if Slot(k) + d < RING_SIZE then Slot(k) + d else Slot(k) + d - RING_SIZE
  {
    var q, r := k / RING_SIZE, k % RING_SIZE;
    if r + d < RING_SIZE {
      DivUnique(k + d, RING_SIZE, q, r + d);
    } else {
      DivUnique(k + d, RING_SIZE, q + 1, r + d - RING_SIZE);
    }
  }

  lemma SlotsDiffer(k: nat, m: nat)
    requires k < m < k + RING_SIZE
    ensures Slot(k) != Slot(m)
  {
    SlotAdd(k, m - k);
  }

  /** The ring is full exactly when 255 packets are in flight. */
  lemma FullMeans(h: nat, t: nat)
    requires h <= t < h + RING_SIZE
    ensures (Slot(t) + 1) % RING_SIZE == Slot(h) <==> t == h + RING_SIZE - 1
    ensures Slot(t) == Slot(h) <==> t == h
    ensures (Slot(t) + 1) % RING_SIZE == Slot(t + 1)
  {
    SlotAdd(h, t - h);
    SlotAdd(t, 1);
  }

  /** The place of descriptor `i` in the round that starts at `h`. */
  lemma RoundFrom(h: nat, i: nat) returns (k: nat)
    requires i < RING_SIZE
    ensures h <= k < h + RING_SIZE && Slot(k) == i
  {
    var d := if i >= Slot(h) then i - Slot(h) else i + RING_SIZE - Slot(h);
    SlotAdd(h, d);
    k := h + d;
  }

  /** All descriptors but transmit descriptor `tx` and receive descriptor `rx`, and all buffers but transmit buffer
      `txBuffer` and receive buffer `rxBuffer`, are as they were. */
  ghost predicate Framed(s: State, s': State, tx: int, rx: int, txBuffer: int, rxBuffer: int)
    requires Shape(s)
  {
    && s'.layout == s.layout
    && (forall i: nat | i < RING_SIZE && i != tx :: TxAt(s', i) == TxAt(s, i))
    && (forall i: nat | i < RING_SIZE && i != rx :: RxAt(s', i) == RxAt(s, i))
    && (forall i: nat, j: nat | i < RING_SIZE && i != txBuffer && j < BUFFER_SIZE ::
          TxByte(s', i, j) == TxByte(s, i, j))
    && (forall i: nat, j: nat | i < RING_SIZE && i != rxBuffer && j < BUFFER_SIZE ::
          RxByte(s', i, j) == RxByte(s, i, j))
  }

  /** The layouts in which nothing overlaps. */
  ghost predicate Separate(l: Layout) {
    Ascending(l) && StorageApart(l)
  }

  lemma TxStoreFramed(s: State, s': State, i: nat)
    requires Shape(s) && Separate(s.layout) && i < RING_SIZE && s'.layout == s.layout
    requires SameOutside(s.mem, s'.mem, TxAddr(s, i), DESC_SIZE)
    ensures Framed(s, s', i, -1, -1, -1)
  {
    PlacesAscend(s.layout);
    forall k: nat | k < RING_SIZE
      ensures (k != i ==> TxAt(s', k) == TxAt(s, k)) && RxAt(s', k) == RxAt(s, k)
    {
      if k != i {
        DescKept(s.mem, s'.mem, TxAddr(s, i), DESC_SIZE, TxAddr(s, k));
      }
      DescKept(s.mem, s'.mem, TxAddr(s, i), DESC_SIZE, RxAddr(s, k));
    }
  }

  lemma RxStoreFramed(s: State, s': State, i: nat)
    requires Shape(s) && Separate(s.layout) && i < RING_SIZE && s'.layout == s.layout
    requires SameOutside(s.mem, s'.mem, RxAddr(s, i), DESC_SIZE)
    ensures Framed(s, s', -1, i, -1, -1)
  {
    PlacesAscend(s.layout);
    forall k: nat | k < RING_SIZE
      ensures (k != i ==> RxAt(s', k) == RxAt(s, k)) && TxAt(s', k) == TxAt(s, k)
    {
      if k != i {
        DescKept(s.mem, s'.mem, RxAddr(s, i), DESC_SIZE, RxAddr(s, k));
      }
      DescKept(s.mem, s'.mem, RxAddr(s, i), DESC_SIZE, TxAddr(s, k));
    }
  }

  lemma TxBufferFramed(s: State, s': State, i: nat)
    requires Shape(s) && Separate(s.layout) && i < RING_SIZE && s'.layout == s.layout
    requires SameOutside(s.mem, s'.mem, s.layout.txBuffers[i], BUFFER_SIZE)
    ensures Framed(s, s', -1, -1, i, -1)
  {
    PlacesAscend(s.layout);
    forall k: nat | k < RING_SIZE ensures TxAt(s', k) == TxAt(s, k) && RxAt(s', k) == RxAt(s, k) {
      DescKept(s.mem, s'.mem, s.layout.txBuffers[i], BUFFER_SIZE, TxAddr(s, k));
      DescKept(s.mem, s'.mem, s.layout.txBuffers[i], BUFFER_SIZE, RxAddr(s, k));
    }
  }

  lemma RxBufferFramed(s: State, s': State, i: nat)
    requires Shape(s) && Separate(s.layout) && i < RING_SIZE && s'.layout == s.layout
    requires SameOutside(s.mem, s'.mem, s.layout.rxBuffers[i], BUFFER_SIZE)
    ensures Framed(s, s', -1, -1, -1, i)
  {
    PlacesAscend(s.layout);
    forall k: nat | k < RING_SIZE ensures TxAt(s', k) == TxAt(s, k) && RxAt(s', k) == RxAt(s, k) {
      DescKept(s.mem, s'.mem, s.layout.rxBuffers[i], BUFFER_SIZE, TxAddr(s, k));
      DescKept(s.mem, s'.mem, s.layout.rxBuffers[i], BUFFER_SIZE, RxAddr(s, k));
    }
  }

  lemma WithStateEffect(mem: Memory, a: nat, ok: bool, flags: nat)
    requires flags < U32_SPAN
    ensures SameOutside(mem, WithState(mem, a, ok, flags), a, DESC_SIZE)
    ensures DescAt(WithState(mem, a, ok, flags), a) == DescAt(mem, a).(own := flags >= OWN, ok := ok)
  {
    FieldStored(mem, a, STATUS, if ok then 1 else 0);
    var mem1 := Store32(mem, a + STATUS, if ok then 1 else 0);
    FieldStored(mem1, a, FLAGS, flags);
    SameTwice(mem, mem1, Store32(mem1, a + FLAGS, flags), a, DESC_SIZE);
  }

  lemma DescribeEffect(s: State)
    requires Enabled(s, Describe)
    ensures SameOutside(s.mem, Apply(s, Describe).mem, TxAddr(s, s.tail), DESC_SIZE)
    ensures TxAt(Apply(s, Describe), s.tail) == TxAt(s, s.tail).(len := |s.driver.p|, ok := false)
  {
    var a := TxAddr(s, s.tail);
    FieldStored(s.mem, a, LEN, |s.driver.p|);
    var mem1 := Store32(s.mem, a + LEN, |s.driver.p|);
    FieldStored(mem1, a, STATUS, 0);
    SameTwice(s.mem, mem1, Store32(mem1, a + STATUS, 0), a, DESC_SIZE);
  }

  lemma CopyEffect(s: State)
    requires Enabled(s, CopyByte) && Separate(s.layout)
    ensures var s' := Apply(s, CopyByte);
      && Framed(s, s', -1, -1, s.tail, -1)
      && forall j: nat | j < BUFFER_SIZE ::
           TxByte(s', s.tail, j) == if j == s.driver.j then s.driver.p[j] else TxByte(s, s.tail, j)
  {
    TxBufferFramed(s, Apply(s, CopyByte), s.tail);
  }

  /** What a store to transmit descriptor `i` does when its new value is `d`. */
  ghost predicate TxStored(s: State, s': State, i: nat, d: Desc)
    requires Shape(s)
  {
    Framed(s, s', i, -1, -1, -1) && TxAt(s', i) == d
  }

  ghost predicate RxStored(s: State, s': State, i: nat, d: Desc)
    requires Shape(s)
  {
    Framed(s, s', -1, i, -1, -1) && RxAt(s', i) == d
  }

  lemma DescribeStores(s: State)
    requires Enabled(s, Describe) && Separate(s.layout)
    ensures TxStored(s, Apply(s, Describe), s.tail, TxAt(s, s.tail).(len := |s.driver.p|, ok := false))
  {
    DescribeEffect(s);
    TxStoreFramed(s, Apply(s, Describe), s.tail);
  }

  lemma GiveStores(s: State)
    requires Enabled(s, Give) && Separate(s.layout)
    ensures TxStored(s, Apply(s, Give), s.tail, TxAt(s, s.tail).(own := true))
  {
    FieldStored(s.mem, TxAddr(s, s.tail), FLAGS, SEND);
    TxStoreFramed(s, Apply(s, Give), s.tail);
  }

  lemma CompleteStores(s: State, slot: nat, ok: bool)
    requires Enabled(s, Complete(slot, ok)) && Separate(s.layout)
    ensures TxStored(s, Apply(s, Complete(slot, ok)), slot, TxAt(s, slot).(own := false, ok := ok))
  {
    WithStateEffect(s.mem, TxAddr(s, slot), ok, INT);
    TxStoreFramed(s, Apply(s, Complete(slot, ok)), slot);
  }

  lemma ClearStores(s: State)
    requires Enabled(s, Clear) && Separate(s.layout)
    ensures TxStored(s, Apply(s, Clear), s.head, TxAt(s, s.head).(own := false, ok := false))
  {
    WithStateEffect(s.mem, TxAddr(s, s.head), false, INT);
    TxStoreFramed(s, Apply(s, Clear), s.head);
  }

  lemma GiveRxStores(s: State)
    requires Enabled(s, GiveRx) && Separate(s.layout)
    ensures RxStored(s, Apply(s, GiveRx), s.rxHead, RxAt(s, s.rxHead).(own := true, ok := false))
  {
    WithStateEffect(s.mem, RxAddr(s, s.rxHead), false, OWN + INT);
    RxStoreFramed(s, Apply(s, GiveRx), s.rxHead);
  }

  lemma FillEffect(s: State, p: Packet, ok: bool)
    requires Enabled(s, Fill(p, ok)) && Separate(s.layout)
    ensures var s', slot := Apply(s, Fill(p, ok)), Slot(|s.frames|);
      && Framed(s, s', -1, slot, -1, slot) && RxAt(s', slot) == Desc(false, |p|, ok)
      && forall j: nat | j < BUFFER_SIZE :: RxByte(s', slot, j) == if j < |p| then p[j] else RxByte(s, slot, j)
  {
    var s', slot := Apply(s, Fill(p, ok)), Slot(|s.frames|);
    var s1 := s.(mem := WithBytes(s.mem, s.layout.rxBuffers[slot], p));
    FillBuffered(s, s1, slot, p);
    FillStores(s1, s', slot, |p|, ok);
    BothFramed(s, s1, s', slot, p, Desc(false, |p|, ok));
  }

  lemma FillBuffered(s: State, s1: State, slot: nat, p: Packet)
    requires Shape(s) && Separate(s.layout) && slot < RING_SIZE && |p| <= BUFFER_SIZE
    requires s1 == s.(mem := WithBytes(s.mem, s.layout.rxBuffers[slot], p))
    ensures Framed(s, s1, -1, -1, -1, slot)
    ensures forall j: nat | j < BUFFER_SIZE :: RxByte(s1, slot, j) == if j < |p| then p[j] else RxByte(s, slot, j)
  {
    StoredBytes(s.mem, s.layout.rxBuffers[slot], p);
    RxBufferFramed(s, s1, slot);
    FillBytes(s, s1, slot, p);
  }

  /** First the buffer of a frame, then its descriptor. */
  lemma BothFramed(s: State, s1: State, s': State, slot: nat, p: Packet, d: Desc)
    requires Shape(s) && Shape(s1) && slot < RING_SIZE && |p| <= BUFFER_SIZE
    requires Framed(s, s1, -1, -1, -1, slot) && RxStored(s1, s', slot, d)
    requires forall j: nat | j < BUFFER_SIZE :: RxByte(s1, slot, j) == if j < |p| then p[j] else RxByte(s, slot, j)
    ensures Framed(s, s', -1, slot, -1, slot) && RxAt(s', slot) == d
    ensures forall j: nat | j < BUFFER_SIZE :: RxByte(s', slot, j) == if j < |p| then p[j] else RxByte(s, slot, j)
  {
  }

  lemma FillBytes(s: State, s1: State, slot: nat, p: Packet)
    requires Shape(s) && slot < RING_SIZE && |p| <= BUFFER_SIZE && s1.layout == s.layout
    requires s1.mem == WithBytes(s.mem, s.layout.rxBuffers[slot], p)
    ensures forall j: nat | j < BUFFER_SIZE :: RxByte(s1, slot, j) == if j < |p| then p[j] else RxByte(s, slot, j)
  {
    StoredBytes(s.mem, s.layout.rxBuffers[slot], p);
    var b := s.layout.rxBuffers[slot];
    forall j: nat | j < BUFFER_SIZE ensures RxByte(s1, slot, j) == if j < |p| then p[j] else RxByte(s, slot, j) {
      if j < |p| {
        assert Byte(s1.mem, b + j) == p[j];
      }
    }
  }

  /** The device's stores to the descriptor of a frame. */
  lemma FillStores(s: State, s': State, slot: nat, n: nat, ok: bool)
    requires Shape(s) && Separate(s.layout) && slot < RING_SIZE && n <= BUFFER_SIZE && s'.layout == s.layout
    requires s'.mem == WithState(Store32(s.mem, RxAddr(s, slot) + LEN, n), RxAddr(s, slot), ok, INT)
    ensures RxStored(s, s', slot, Desc(false, n, ok))
  {
    var a := RxAddr(s, slot);
    var mem1 := Store32(s.mem, a + LEN, n);
    FieldStored(s.mem, a, LEN, n);
    WithStateEffect(mem1, a, ok, INT);
    SameTwice(s.mem, mem1, s'.mem, a, DESC_SIZE);
    RxStoreFramed(s, s', slot);
  }

  predicate OfTx(a: Action) {
    !(a.Fill? || a.SeeRx? || a.GiveRx? || a.AdvanceRx?)
  }

  /** The receive ring and its buffers are as they were. */
  ghost predicate RxSame(s: State, s': State)
    requires Shape(s)
  {
    && s'.layout == s.layout && (forall i: nat | i < RING_SIZE :: RxAt(s', i) == RxAt(s, i))
    && (forall i: nat, j: nat | i < RING_SIZE && j < BUFFER_SIZE :: RxByte(s', i, j) == RxByte(s, i, j))
  }

  ghost predicate TxSame(s: State, s': State)
    requires Shape(s)
  {
    && s'.layout == s.layout && (forall i: nat | i < RING_SIZE :: TxAt(s', i) == TxAt(s, i))
    && (forall i: nat, j: nat | i < RING_SIZE && j < BUFFER_SIZE :: TxByte(s', i, j) == TxByte(s, i, j))
  }

  lemma TxStepKeepsRx(s: State, a: Action)
    requires Enabled(s, a) && OfTx(a) && Separate(s.layout)
    ensures RxSame(s, Apply(s, a))
  {
    match a
    case CopyByte => CopyEffect(s);
    case Describe => DescribeStores(s);
    case Give => GiveStores(s);
    case Complete(slot, ok) => CompleteStores(s, slot, ok);
    case Clear => ClearStores(s);
    case _ =>
  }

  lemma RxStepKeepsTx(s: State, a: Action)
    requires Enabled(s, a) && !OfTx(a) && Separate(s.layout)
    ensures TxSame(s, Apply(s, a))
  {
    match a
    case Fill(p, ok) => FillEffect(s, p, ok);
    case GiveRx => GiveRxStores(s);
    case _ =>
  }

  lemma BeginSafe(s: State, a: Action)
    requires Inv(s) && Enabled(s, a) && a.Begin?
    ensures TxInv(Apply(s, a))
  {
    var s' := Apply(s, a);
    FullMeans(|s.retired|, |s.accepted|);
    forall k: nat | |s.retired| <= k < |s.accepted| ensures Stored(s', k) {
      assert Stored(s, k);
    }
    forall k: nat | |s.retired| <= k < |s.retired| + RING_SIZE ensures Window(s', k) {
      assert Window(s, k);
    }
  }

  lemma CopySafe(s: State)
    requires Inv(s) && Enabled(s, CopyByte) && Separate(s.layout)
    ensures TxInv(Apply(s, CopyByte))
  {
    var s' := Apply(s, CopyByte);
    CopyEffect(s);
    forall k: nat | |s.retired| <= k < |s.accepted| ensures Stored(s', k) {
      SlotsDiffer(k, |s.accepted|);
      assert Stored(s, k);
    }
    forall k: nat | |s.retired| <= k < |s.retired| + RING_SIZE ensures Window(s', k) {
      assert Window(s, k);
    }
  }

  lemma DescribeSafe(s: State)
    requires Inv(s) && Enabled(s, Describe) && Separate(s.layout)
    ensures TxInv(Apply(s, Describe))
  {
    var s' := Apply(s, Describe);
    DescribeStores(s);
    FullMeans(|s.retired|, |s.accepted|);
    forall k: nat | |s.retired| <= k < |s.accepted| ensures Stored(s', k) {
      SlotsDiffer(k, |s.accepted|);
      assert Stored(s, k);
    }
    forall k: nat | |s.retired| <= k < |s.retired| + RING_SIZE ensures Window(s', k) {
      assert Window(s, k);
    }
  }

  lemma GiveSafe(s: State)
    requires Inv(s) && Enabled(s, Give) && Separate(s.layout)
    ensures TxInv(Apply(s, Give))
  {
    var s' := Apply(s, Give);
    GiveStores(s);
    var h, t := |s.retired|, |s.accepted|;
    forall k: nat | h <= k < t ensures Stored(s', k) {
      SlotsDiffer(k, t);
      assert Stored(s, k);
    }
    forall k: nat | h <= k < h + RING_SIZE ensures Window(s', k) {
      assert Window(s, k);
      if k < t {
        SlotsDiffer(k, t);
      } else if k > t {
        SlotsDiffer(t, k);
      }
    }
    FullMeans(h, t);
  }

  lemma PublishQueue(s: State, s': State)
    requires Inv(s) && Enabled(s, Publish) && s' == Apply(s, Publish)
    ensures Shape(s')
    ensures forall k: nat {:trigger Stored(s', k)} | |s.retired| <= k < |s.accepted| + 1 :: Stored(s', k)
    ensures forall k: nat {:trigger Window(s', k)} | |s.retired| <= k < |s.retired| + RING_SIZE :: Window(s', k)
  {
    forall k: nat | |s.retired| <= k < |s.accepted| + 1 ensures Stored(s', k) {
      assert k < |s.accepted| ==> Stored(s, k);
    }
    forall k: nat | |s.retired| <= k < |s.retired| + RING_SIZE ensures Window(s', k) {
      assert Window(s, k);
    }
  }

  lemma PublishSafe(s: State)
    requires Inv(s) && Enabled(s, Publish)
    ensures TxInv(Apply(s, Publish))
  {
    FullMeans(|s.retired|, |s.accepted|);
    PublishQueue(s, Apply(s, Publish));
  }

  /** A store that takes a descriptor from the device, or leaves it with the driver, and keeps its length. */
  lemma ReleaseQueue(s: State, s': State, i: nat, d: Desc)
    requires TxInv(s) && i < RING_SIZE && TxStored(s, s', i, d) && !d.own && d.len == TxAt(s, i).len
    requires s'.accepted == s.accepted && s'.retired == s.retired && s'.driver == s.driver
    requires s'.head == s.head && s'.tail == s.tail && s'.rxHead == s.rxHead
    ensures Shape(s') && Prepared(s')
    ensures forall k: nat {:trigger Stored(s', k)} | |s.retired| <= k < |s.accepted| :: Stored(s', k)
    ensures forall k: nat {:trigger Window(s', k)} | |s.retired| <= k < |s.retired| + RING_SIZE :: Window(s', k)
  {
    forall k: nat | |s.retired| <= k < |s.accepted| ensures Stored(s', k) {
      assert Stored(s, k);
    }
    forall k: nat | |s.retired| <= k < |s.retired| + RING_SIZE ensures Window(s', k) {
      assert Window(s, k);
    }
  }

  lemma CompleteSafe(s: State, a: Action)
    requires Inv(s) && Enabled(s, a) && a.Complete? && Separate(s.layout)
    ensures TxInv(Apply(s, a))
  {
    CompleteStores(s, a.slot, a.ok);
    ReleaseQueue(s, Apply(s, a), a.slot, TxAt(s, a.slot).(own := false, ok := a.ok));
  }

  lemma CountStep(n: nat)
    ensures (n % U32_SPAN + 1) % U32_SPAN == (n + 1) % U32_SPAN
  {
  }

  lemma SlotNext(k: nat)
    ensures (Slot(k) + 1) % RING_SIZE == Slot(k + 1) && Slot(k + RING_SIZE) == Slot(k)
  {
    SlotAdd(k, 1);
    DivUnique(k + RING_SIZE, RING_SIZE, k / RING_SIZE + 1, Slot(k));
  }

  lemma SeeSafe(s: State)
    requires Inv(s) && Enabled(s, See)
    ensures TxInv(Apply(s, See))
  {
    SameQueue(s, Apply(s, See));
    FullMeans(|s.retired|, |s.accepted|);
  }

  lemma CountSafe(s: State)
    requires Inv(s) && Enabled(s, Count)
    ensures TxInv(Apply(s, Count))
  {
    var s' := Apply(s, Count);
    SameQueue(s, s');
    if TxAt(s, s.head).ok {
      CountStep(s.good);
    } else {
      CountStep(s.bad);
    }
  }

  lemma SameQueue(s: State, s': State)
    requires TxInv(s) && s'.layout == s.layout && s'.mem == s.mem
    requires s'.accepted == s.accepted && s'.retired == s.retired
    requires s'.driver == s.driver && s'.head == s.head && s'.tail == s.tail && s'.rxHead == s.rxHead
    ensures Shape(s') && Prepared(s')
    ensures forall k: nat {:trigger Stored(s', k)} | |s.retired| <= k < |s.accepted| :: Stored(s', k)
    ensures forall k: nat {:trigger Window(s', k)} | |s.retired| <= k < |s.retired| + RING_SIZE :: Window(s', k)
  {
    forall k: nat | |s.retired| <= k < |s.accepted| ensures Stored(s', k) {
      assert Stored(s, k);
    }
    forall k: nat | |s.retired| <= k < |s.retired| + RING_SIZE ensures Window(s', k) {
      assert Window(s, k);
    }
  }

  lemma ClearSafe(s: State)
    requires Inv(s) && Enabled(s, Clear) && Separate(s.layout)
    ensures TxInv(Apply(s, Clear))
  {
    ClearStores(s);
    ReleaseQueue(s, Apply(s, Clear), s.head, TxAt(s, s.head).(own := false, ok := false));
  }

  /** What the handler takes off the ring is the packet that was accepted. */
  lemma HeadIsStored(s: State)
    requires TxInv(s) && InFlight(s) > 0
    ensures Slice(s.mem, s.layout.txBuffers[s.head], TxAt(s, s.head).len) == s.accepted[|s.retired|]
  {
    var p := s.accepted[|s.retired|];
    assert Stored(s, |s.retired|);
    assert forall j | 0 <= j < |p| :: TxByte(s, s.head, j) == p[j];
  }

  lemma AdvanceStored(s: State, s': State)
    requires Inv(s) && s'.layout == s.layout && s'.mem == s.mem && s'.accepted == s.accepted && Shape(s')
    ensures forall k: nat {:trigger Stored(s', k)} | |s.retired| < k < |s.accepted| :: Stored(s', k)
  {
    forall k: nat | |s.retired| < k < |s.accepted| ensures Stored(s', k) {
      assert Stored(s, k);
    }
  }

  lemma AdvanceWindow(s: State, s': State)
    requires Inv(s) && InTx(s.handler) && s'.layout == s.layout && s'.mem == s.mem
    requires s'.accepted == s.accepted && s'.driver == s.driver
    ensures forall k: nat {:trigger Window(s', k)} | |s.retired| < k <= |s.retired| + RING_SIZE :: Window(s', k)
  {
    var h := |s.retired|;
    SlotNext(h);
    forall k: nat | h < k <= h + RING_SIZE ensures Window(s', k) {
      if k < h + RING_SIZE {
        assert Window(s, k);
      } else {
        assert Slot(k) == Slot(h);
      }
    }
  }

  lemma AdvanceKeeps(s: State, s': State)
    requires Inv(s) && s.handler.Cleared?
    requires s' == s.(head := Slot(|s.retired| + 1), handler := Waiting, retired := s.accepted[..|s.retired| + 1])
    ensures TxInv(s')
  {
    AdvanceStored(s, s');
    AdvanceWindow(s, s');
  }

  lemma AdvanceSafe(s: State)
    requires Inv(s) && Enabled(s, Advance)
    ensures TxInv(Apply(s, Advance))
  {
    var s' := Apply(s, Advance);
    HeadIsStored(s);
    SlotNext(|s.retired|);
    assert s'.retired == s.accepted[..|s.retired| + 1];
    AdvanceKeeps(s, s');
  }

  /** Nothing that the transmit side depends on changed. */
  lemma TxInvKept(s: State, s': State)
    requires TxInv(s) && TxSame(s, s') && |s.layout.rxBuffers| == RING_SIZE && s'.rxHead < RING_SIZE
    requires s == s'.(mem := s.mem, rxHead := s.rxHead, handler := s.handler, frames := s.frames, taken := s.taken)
    requires s'.handler == s.handler || (!InTx(s.handler) && !InTx(s'.handler))
    ensures TxInv(s')
  {
    forall k: nat | |s.retired| <= k < |s.accepted| ensures Stored(s', k) {
      assert Stored(s, k);
    }
    forall k: nat | |s.retired| <= k < |s.retired| + RING_SIZE ensures Window(s', k) {
      assert Window(s, k);
    }
  }

  /** The steps on the receive ring do not touch the transmit side. */
  lemma RxLeavesTx(s: State, a: Action)
    requires Inv(s) && Enabled(s, a) && !OfTx(a) && Separate(s.layout)
    ensures TxInv(Apply(s, a))
  {
    RxStepKeepsTx(s, a);
    TxInvKept(s, Apply(s, a));
  }

  lemma TxLeavesRx(s: State, a: Action)
    requires Inv(s) && Enabled(s, a) && OfTx(a) && Separate(s.layout)
    ensures RxInv(Apply(s, a))
  {
    var s' := Apply(s, a);
    TxStepKeepsRx(s, a);
    forall k: nat | |s.taken| <= k < |s.frames| ensures Arrived(s', k) {
      assert Arrived(s, k);
    }
    forall k: nat | |s.frames| <= k < |s.taken| + RING_SIZE ensures Awaited(s', k) {
      assert Awaited(s, k);
    }
  }

  /** A frame arrived in slot `slot`, behind those that are waiting. */
  lemma FrameKept(s: State, s': State, p: Packet, slot: nat)
    requires RxInv(s) && slot == Slot(|s.frames|) && RxAt(s, slot).own && |p| <= BUFFER_SIZE
    requires s' == s.(mem := s'.mem, frames := s.frames + [p])
    requires Framed(s, s', -1, slot, -1, slot) && !RxAt(s', slot).own && RxAt(s', slot).len == |p|
    requires forall j: nat | j < |p| :: RxByte(s', slot, j) == p[j]
    ensures RxInv(s')
  {
    var g, f := |s.taken|, |s.frames|;
    SlotNext(g);
    assert g < f ==> Arrived(s, g);
    forall k: nat | g <= k < f + 1 ensures Arrived(s', k) {
      if k < f {
        SlotsDiffer(k, f);
        assert Arrived(s, k);
      }
    }
    forall k: nat | f + 1 <= k < g + RING_SIZE ensures Awaited(s', k) {
      SlotsDiffer(f, k);
      assert Awaited(s, k);
    }
  }

  lemma FillSafe(s: State, a: Action)
    requires Inv(s) && Enabled(s, a) && a.Fill? && Separate(s.layout)
    ensures RxInv(Apply(s, a))
  {
    FillEffect(s, a.p, a.ok);
    FrameKept(s, Apply(s, a), a.p, Slot(|s.frames|));
  }

  lemma SeeRxSafe(s: State)
    requires Inv(s) && Enabled(s, SeeRx) && Separate(s.layout)
    ensures RxInv(Apply(s, SeeRx))
  {
    var s' := Apply(s, SeeRx);
    assert |s.taken| == |s.frames| ==> Awaited(s, |s.taken|);
    forall k: nat | |s.taken| <= k < |s.frames| ensures Arrived(s', k) {
      assert Arrived(s, k);
    }
    forall k: nat | |s.frames| <= k < |s.taken| + RING_SIZE ensures Awaited(s', k) {
      assert Awaited(s, k);
    }
  }

  lemma HeadHasArrived(s: State)
    requires RxInv(s) && |s.taken| < |s.frames| && !s.handler.RxGiven?
    ensures Slice(s.mem, s.layout.rxBuffers[s.rxHead], RxAt(s, s.rxHead).len) == s.frames[|s.taken|]
  {
    var p := s.frames[|s.taken|];
    assert Arrived(s, |s.taken|);
    assert forall j | 0 <= j < |p| :: RxByte(s, s.rxHead, j) == p[j];
  }

  lemma GiveRxQueue(s: State, s': State, d: Desc)
    requires RxInv(s) && s.handler.RxSeen? && RxStored(s, s', s.rxHead, d) && d.own
    requires s'.frames == s.frames && Shape(s')
    ensures forall k: nat {:trigger Arrived(s', k)} | |s.taken| < k < |s.frames| :: Arrived(s', k)
    ensures forall k: nat {:trigger Awaited(s', k)} | |s.frames| <= k <= |s.taken| + RING_SIZE :: Awaited(s', k)
  {
    var g := |s.taken|;
    SlotNext(g);
    forall k: nat | g < k < |s.frames| ensures Arrived(s', k) {
      SlotsDiffer(g, k);
      assert Arrived(s, k);
    }
    forall k: nat | |s.frames| <= k <= g + RING_SIZE ensures Awaited(s', k) {
      if k < g + RING_SIZE {
        SlotsDiffer(g, k);
        assert Awaited(s, k);
      }
    }
  }

  lemma GiveRxSafe(s: State)
    requires Inv(s) && Enabled(s, GiveRx) && Separate(s.layout)
    ensures RxInv(Apply(s, GiveRx))
  {
    var s' := Apply(s, GiveRx);
    GiveRxStores(s);
    HeadHasArrived(s);
    GiveRxQueue(s, s', RxAt(s, s.rxHead).(own := true, ok := false));
    assert s'.taken == s.frames[..|s.taken| + 1];
  }

  lemma AdvanceRxSafe(s: State)
    requires Inv(s) && Enabled(s, AdvanceRx) && Separate(s.layout)
    ensures RxInv(Apply(s, AdvanceRx))
  {
    var s' := Apply(s, AdvanceRx);
    SlotNext(|s.taken| - 1);
    forall k: nat | |s.taken| <= k < |s.frames| ensures Arrived(s', k) {
      assert Arrived(s, k);
    }
    forall k: nat | |s.frames| <= k < |s.taken| + RING_SIZE ensures Awaited(s', k) {
      assert Awaited(s, k);
    }
  }

  lemma TxStepSafe(s: State, a: Action)
    requires Inv(s) && Enabled(s, a) && OfTx(a) && Separate(s.layout)
    ensures TxInv(Apply(s, a))
  {
    match a
    case Give => GiveSafe(s);
    case Publish => PublishSafe(s);
    case Complete(_, _) => CompleteSafe(s, a);
    case Advance => AdvanceSafe(s);
    case See => SeeSafe(s);
    case Count => CountSafe(s);
    case Clear => ClearSafe(s);
    case CopyByte => CopySafe(s);
    case Describe => DescribeSafe(s);
    case Begin(_) => BeginSafe(s, a);
  }

  lemma RxStepSafe(s: State, a: Action)
    requires Inv(s) && Enabled(s, a) && !OfTx(a) && Separate(s.layout)
    ensures RxInv(Apply(s, a))
  {
    match a
    case SeeRx => SeeRxSafe(s);
    case GiveRx => GiveRxSafe(s);
    case AdvanceRx => AdvanceRxSafe(s);
    case _ => FillSafe(s, a);
  }

  /** Every step of every party keeps the invariant, as long as nothing overlaps. */
  lemma StepSafe(s: State, a: Action)
    requires Inv(s) && Enabled(s, a) && Separate(s.layout)
    ensures Inv(Apply(s, a))
  {
    if OfTx(a) {
      TxStepSafe(s, a);
      TxLeavesRx(s, a);
    } else {
      RxLeavesTx(s, a);
      RxStepSafe(s, a);
    }
  }

  predicate Linked(states: seq<State>, actions: seq<Action>, i: nat)
    requires i < |actions| && i + 1 < |states|
  {
    Enabled(states[i], actions[i]) && states[i + 1] == Apply(states[i], actions[i])
  }

  /** A run: states linked by steps of any of the parties in any order. */
  ghost predicate IsRun(l: Layout, mem: Memory, states: seq<State>, actions: seq<Action>) {
    && |states| == |actions| + 1 && states[0] == Init(l, mem)
    && forall i: nat {:trigger Linked(states, actions, i)} | i < |actions| :: Linked(states, actions, i)
  }

  lemma SameLayout(s: State, a: Action)
    requires Enabled(s, a)
    ensures Apply(s, a).layout == s.layout
  {
  }

  lemma {:induction false} RunKeeps(l: Layout, mem: Memory, states: seq<State>, actions: seq<Action>, i: nat)
    requires Separate(l) && IsRun(l, mem, states, actions) && i < |states|
    ensures Inv(states[i]) && states[i].layout == l
  {
    if i == 0 {
      InitSafe(l, mem);
    } else {
      RunKeeps(l, mem, states, actions, i - 1);
      assert Linked(states, actions, i - 1);
      StepSafe(states[i - 1], actions[i - 1]);
      SameLayout(states[i - 1], actions[i - 1]);
    }
  }

  /** Some run of the device with this layout, from some memory, leads to `s`. */
  ghost predicate Reachable(l: Layout, s: State) {
    exists mem: Memory, states: seq<State>, actions: seq<Action> ::
      IsRun(l, mem, states, actions) && states[|actions|] == s
  }

  lemma Begins(l: Layout, mem: Memory)
    ensures Reachable(l, Init(l, mem))
  {
    var states, actions: seq<Action> := [Init(l, mem)], [];
    assert IsRun(l, mem, states, actions) && states[|actions|] == Init(l, mem);
  }

  lemma Next(l: Layout, s: State, a: Action) returns (s': State)
    requires Reachable(l, s) && Enabled(s, a)
    ensures s' == Apply(s, a) && Reachable(l, s') && s'.layout == s.layout
  {
    s' := Apply(s, a);
    SameLayout(s, a);
    var mem: Memory, states: seq<State>, actions: seq<Action> :|
      IsRun(l, mem, states, actions) && states[|actions|] == s;
    var states', actions' := states + [s'], actions + [a];
    forall i: nat | i < |actions'| ensures Linked(states', actions', i) {
      if i < |actions| {
        assert Linked(states, actions, i);
      }
    }
    assert IsRun(l, mem, states', actions') && states'[|actions'|] == s';
  }

  /** The first `n` bytes of the first packet are in transmit buffer 0. */
  lemma {:induction false} FirstBytes(l: Layout, mem: Memory, p: Packet, n: nat) returns (s: State)
    requires Ascending(l) && n <= |p| <= BUFFER_SIZE
    ensures Reachable(l, s) && s == Init(l, mem).(driver := Copying(p, n), mem := s.mem) && Shape(s)
    ensures forall j: nat | j < n :: Byte(s.mem, l.txBuffers[0] + j) == p[j]
  {
    if n == 0 {
      Begins(l, mem);
      s := Next(l, Init(l, mem), Begin(p));
    } else {
      s := FirstBytes(l, mem, p, n - 1);
      s := Next(l, s, CopyByte);
    }
  }

  /** When the first transmit buffer is the page after the receive ring, the first packet that is sent writes receive
      descriptors from 128 on: sixteen zeros take the first of them from the device. */
  lemma FirstPacketHits(l: Layout, mem: Memory) returns (s: State)
    requires Ascending(l) && l.txBuffers[0] == l.rx + PAGE_SIZE
    ensures Reachable(l, s) && s.frames == [] && !RxAt(s, 128).own && !Inv(s)
  {
    var p: Packet := seq(16, i => 0);
    s := FirstBytes(l, mem, p, 16);
    var flags := RxAddr(s, 128) + FLAGS;
    assert flags == l.txBuffers[0] + 12;
    assert Byte(s.mem, flags) == p[12] && Byte(s.mem, flags + 1) == p[13];
    assert Byte(s.mem, flags + 2) == p[14] && Byte(s.mem, flags + 3) == p[15];
    assert Slice(s.mem, flags, 4) == [0, 0, 0, 0];
    ZeroValue(Slice(s.mem, flags, 4));
    assert Slot(128) == 128 && !Awaited(s, 128);
  }

  /** And a frame received through descriptor 128 then writes its length into transmit buffer 0. */
  lemma FrameHits(s: State, p: Packet, ok: bool)
    requires Enabled(s, Fill(p, ok)) && Slot(|s.frames|) == 128
    requires s.layout.txBuffers[0] == s.layout.rx + PAGE_SIZE
    ensures Word(Apply(s, Fill(p, ok)).mem, s.layout.txBuffers[0] + LEN) == |p|
  {
    var a := RxAddr(s, 128);
    var mem1 := WithBytes(s.mem, s.layout.rxBuffers[128], p);
    FieldStored(mem1, a, LEN, |p|);
    WithStateEffect(Store32(mem1, a + LEN, |p|), a, ok, INT);
    assert RxAt(Apply(s, Fill(p, ok)), 128).len == |p|;
  }

  /** The invariant holds in all states of all runs, under every interleaving, exactly if rings and buffers do not
      overlap. */
  lemma RunSafe(l: Layout)
    requires Ascending(l)
    ensures (forall s: State | Reachable(l, s) :: Inv(s)) <==> StorageApart(l)
  {
    ApartMeans(l);
    if StorageApart(l) {
      forall s: State | Reachable(l, s) ensures Inv(s) {
        var mem: Memory, states: seq<State>, actions: seq<Action> :|
          IsRun(l, mem, states, actions) && states[|actions|] == s;
        RunKeeps(l, mem, states, actions, |actions|);
      }
    } else if RingsApart(l) {
      var s := FirstPacketHits(l, map[]);
    } else {
      Begins(l, map[]);
      InitSafe(l, map[]);
    }
  }

  /** A descriptor the device owns belongs to a packet in [head, tail), or to the one just being published. */
  lemma OwnedInWindow(s: State, i: nat) returns (k: nat)
    requires TxInv(s) && i < RING_SIZE && TxAt(s, i).own
    ensures Slot(k) == i && |s.retired| <= k
    ensures k < |s.accepted| || (k == |s.accepted| && s.driver.Flagged?)
    ensures Holds(s, k, if k < |s.accepted| then s.accepted[k] else s.driver.p)
  {
    k := RoundFrom(|s.retired|, i);
    assert Window(s, k);
    assert k < |s.accepted| ==> Stored(s, k);
  }

  /** No step of any party touches the buffer or the length of a transmit descriptor the device owns, and only the
      device gives one up. */
  lemma OwnedUntouched(s: State, a: Action, i: nat)
    requires Inv(s) && Enabled(s, a) && Separate(s.layout) && i < RING_SIZE && TxAt(s, i).own
    ensures var s' := Apply(s, a);
      && s'.layout == s.layout && (forall j: nat | j < BUFFER_SIZE :: TxByte(s', i, j) == TxByte(s, i, j))
      && TxAt(s', i).len == TxAt(s, i).len && (TxAt(s', i).own || (a.Complete? && a.slot == i))
  {
    assert Window(s, |s.accepted|);
    match a
    case CopyByte => CopyEffect(s);
    case Describe => DescribeStores(s);
    case Give => GiveStores(s);
    case Complete(slot, ok) => CompleteStores(s, slot, ok);
    case Clear => ClearStores(s);
    case Fill(_, _) => RxStepKeepsTx(s, a);
    case GiveRx => RxStepKeepsTx(s, a);
    case _ =>
  }

  /** Nor does any step but the arrival of a frame touch the buffer or descriptor of a receive descriptor the device
      owns; and the frame goes into the buffer behind those that are waiting. */
  lemma OwnedReceiveUntouched(s: State, a: Action, i: nat)
    requires Inv(s) && Enabled(s, a) && Separate(s.layout) && i < RING_SIZE && RxAt(s, i).own
    ensures var s' := Apply(s, a);
      && s'.layout == s.layout
      && ((RxAt(s', i) == RxAt(s, i) && forall j: nat | j < BUFFER_SIZE :: RxByte(s', i, j) == RxByte(s, i, j))
          || (a.Fill? && i == Slot(|s.frames|)))
  {
    if OfTx(a) {
      TxStepKeepsRx(s, a);
    } else if a.Fill? {
      FillEffect(s, a.p, a.ok);
    } else if a.GiveRx? {
      GiveRxStores(s);
      HeadIsNotOwned(s);
    }
  }

  lemma HeadIsNotOwned(s: State)
    requires RxInv(s) && s.handler.RxSeen?
    ensures !RxAt(s, s.rxHead).own
  {
    assert Arrived(s, |s.taken|);
  }

  /** Packets leave the ring in the order they were accepted, and each is counted once: outside the three steps in
      which the handler deals with one packet, accepted = tx_packets + tx_errors + in flight, modulo 2^32. */
  lemma Conserved(s: State)
    requires TxInv(s) && !s.handler.Counted? && !s.handler.Cleared?
    ensures s.retired == s.accepted[..|s.retired|]
    ensures |s.accepted| == s.good + s.bad + InFlight(s)
    ensures |s.accepted| % U32_SPAN == (s.packets + s.errors + InFlight(s)) % U32_SPAN
  {
    AddMod(s.good, s.bad, InFlight(s));
  }

  /** Frames leave the receive ring in the order they arrived; the device finds no descriptor for another one exactly
      when 256 are waiting. */
  lemma ReceivedInOrder(s: State, p: Packet, ok: bool)
    requires RxInv(s) && |p| <= BUFFER_SIZE
    ensures s.taken == s.frames[..|s.taken|]
    ensures Enabled(s, Fill(p, ok)) <==> |s.frames| - |s.taken| < RING_SIZE
  {
    SlotNext(|s.taken|);
    if |s.frames| == |s.taken| + RING_SIZE {
      assert Arrived(s, |s.taken|);
    } else {
      assert Awaited(s, |s.frames|);
    }
  }

  lemma AddMod(a: nat, b: nat, c: nat)
    ensures (a + b + c) % U32_SPAN == (a % U32_SPAN + b % U32_SPAN + c) % U32_SPAN
  {
    var p, q := a / U32_SPAN, b / U32_SPAN;
    var x := a % U32_SPAN + b % U32_SPAN + c;
    assert a + b + c == x + (p + q) * U32_SPAN;
  }

  /** wifi_transmit_packet refuses a packet of legal size exactly when 255 packets are in flight. */
  lemma RefusedMeansFull(s: State, p: Packet)
    requires TxInv(s) && s.driver.Idle? && |p| <= BUFFER_SIZE
    ensures Enabled(s, Begin(p)) <==> InFlight(s) < RING_SIZE - 1
  {
    FullMeans(|s.retired|, |s.accepted|);
  }

  /** The number of descriptors the device does not own. */
  function NotOwned(own: seq<bool>): nat {
    if own == [] then 0 else (if own[0] then 0 else 1) + NotOwned(own[1..])
  }

  lemma {:induction false} GivenBack(own: seq<bool>, i: nat)
    requires i < |own| && !own[i]
    ensures NotOwned(own[i := true]) == NotOwned(own) - 1
  {
    if i > 0 {
      GivenBack(own[1..], i - 1);
      assert own[i := true][1..] == own[1..][i - 1 := true];
    } else {
      assert own[i := true][1..] == own[1..];
    }
  }

  lemma {:induction false} NotOwnedBound(own: seq<bool>)
    ensures NotOwned(own) <= |own|
  {
    if own != [] {
      NotOwnedBound(own[1..]);
    }
  }

  /** The receive side. */
  class Receiver {
    const own: array<bool>
    var head: nat

    ghost predicate Valid()
      reads this
    {
      own.Length == RING_SIZE && head < RING_SIZE
    }

    constructor ()
      ensures Valid() && head == 0 && forall i | 0 <= i < RING_SIZE :: own[i]
    {
      own := new bool[RING_SIZE](i => true);
      head := 0;
    }

    /** The receive loop of wifi_handle_interrupt while the device is quiet. It ends after at most as many turns as
        the device does not own descriptors, having given back exactly those from head up to the first owned one. */
    method Drain() returns (taken: nat)
      requires Valid()
      modifies this`head, own
      ensures Valid() && own[head] && head == Slot(old(head) + taken)
      ensures taken <= NotOwned(old(own[..])) <= RING_SIZE
      ensures Drained(old(own[..]), own[..], old(head), taken)
    {
      ghost var own0, head0 := own[..], head;
      NotOwnedBound(own0);
      taken := 0;
      while !own[head]
        invariant Valid() && taken + NotOwned(own[..]) == NotOwned(own0)
        invariant head == Slot(head0 + taken) && Drained(own0, own[..], head0, taken)
        decreases NotOwned(own[..])
      {
        DrainedNext(own0, own[..], head0, taken);
        DrainOne();
        taken := taken + 1;
      }
    }

    /** One turn of the loop. */
    method DrainOne()
      requires Valid() && !own[head]
      modifies this`head, own
      ensures Valid() && own[..] == old(own[..])[old(head) := true] && head == (old(head) + 1) % RING_SIZE
      ensures NotOwned(own[..]) == NotOwned(old(own[..])) - 1
    {
      GivenBack(own[..], head);
      own[head] := true;
      assert own[..] == old(own[..])[head := true];
      head := (head + 1) % RING_SIZE;
    }
  }

  /** The first `taken` descriptors from `head` on were not owned and are now; the others are as before. */
  ghost predicate Drained(own0: seq<bool>, own: seq<bool>, head: nat, taken: nat) {
    && |own| == |own0| == RING_SIZE
    && (forall k: nat {:trigger Slot(k)} | head <= k < head + RING_SIZE ::
         own[Slot(k)] == (own0[Slot(k)] || k < head + taken))
    && (forall k: nat {:trigger Slot(k)} | head <= k < head + taken :: !own0[Slot(k)])
  }

  lemma DrainedNext(own0: seq<bool>, own: seq<bool>, head: nat, taken: nat)
    requires Drained(own0, own, head, taken) && taken < RING_SIZE && !own[Slot(head + taken)]
    ensures Drained(own0, own[Slot(head + taken) := true], head, taken + 1)
    ensures (Slot(head + taken) + 1) % RING_SIZE == Slot(head + taken + 1)
  {
    var n := head + taken;
    SlotNext(n);
    forall k: nat | head <= k < head + RING_SIZE && k != n ensures Slot(k) != Slot(n) {
      if k < n {
        SlotsDiffer(k, n);
      } else {
        SlotsDiffer(n, k);
      }
    }
  }
}
