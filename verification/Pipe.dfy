/** The pipe of kernel/src/core/drivers/tty/pipe.c: a circular buffer, and the protocol of one reader and one writer
    that work on it byte by byte. */
module Pipe {
  import opened Machine
  import opened Arith

  const BUFFER_SIZE: nat := 4096
  const COUNT_SPAN: nat := 0x1_0000_0000    // count is 32 bits wide

  /** PIPE_STATE_READABLE, PIPE_STATE_WRITABLE and PIPE_STATE_EOF, and the numbers of readers and writers. */
  datatype Ends = Ends(readable: bool, writable: bool, eof: bool, readers: nat, writers: nat)

  function AddReader(e: Ends): Ends {
    e.(readers := e.readers + 1, readable := true)
  }

  function AddWriter(e: Ends): Ends {
    e.(writers := e.writers + 1, writable := true)
  }

  function RemoveReader(e: Ends): Ends {
    if e.readers == 0 then e
    else e.(readers := e.readers - 1, readable := e.readable && e.readers != 1)
  }

  function RemoveWriter(e: Ends): Ends {
    if e.writers == 0 then e
    else e.(writers := e.writers - 1, writable := e.writable && e.writers != 1, eof := e.eof || e.writers == 1)
  }

  /** The i-th place from `pos` on. */
  function Place(pos: nat, i: nat): (p: nat)
    ensures p < BUFFER_SIZE
  {
    (pos + i) % BUFFER_SIZE
  }

  lemma PlacesDiffer(pos: nat, i: nat, j: nat)
    requires i < j < i + BUFFER_SIZE
    ensures Place(pos, i) != Place(pos, j)
  {
    ModDiffers(pos + i, pos + j, BUFFER_SIZE);
  }

  lemma PlaceShifts(pos: nat, i: nat)
    ensures Place((pos + 1) % BUFFER_SIZE,
                  i) == Place(pos, i + 1) && (Place(pos, i) + 1) % BUFFER_SIZE == Place(pos, i + 1)
  {
    ModAdd(pos + 1, i);
    ModAdd(pos + i, 1);
  }

  lemma ModAdd(x: nat, i: nat)
    ensures (x % BUFFER_SIZE + i) % BUFFER_SIZE == (x + i) % BUFFER_SIZE
  {
    var q, r := x / BUFFER_SIZE, x % BUFFER_SIZE;
    DivUnique(x + i, BUFFER_SIZE, q + (r + i) / BUFFER_SIZE, (r + i) % BUFFER_SIZE);
  }

  /** The circular buffer of pipe_t. */
  datatype Ring = Ring(buffer: seq<byte>, readPos: nat, writePos: nat, count: nat)

  predicate InRange(r: Ring) {
    |r.buffer| == BUFFER_SIZE && r.readPos < BUFFER_SIZE && r.writePos < BUFFER_SIZE
  }

  /** The bytes from read_pos on are `contents`, and write_pos is count places further, modulo the size. */
  ghost predicate RingHolds(r: Ring, contents: seq<byte>) {
    && InRange(r) && r.writePos == (r.readPos + r.count) % BUFFER_SIZE
    && |contents| == r.count <= BUFFER_SIZE && Stored(r.buffer, r.readPos, contents)
  }

  function StepRead(r: Ring): Ring {
    r.(readPos := (r.readPos + 1) % BUFFER_SIZE)
  }

  function StoreByte(r: Ring, b: byte): Ring
    requires InRange(r)
  {
    r.(buffer := r.buffer[r.writePos := b])
  }

  function StepWrite(r: Ring): Ring {
    r.(writePos := (r.writePos + 1) % BUFFER_SIZE)
  }

  /** The body of the loop of pipe_read, but for the byte itself. */
  function TakeOf(r: Ring): Ring
    requires r.count > 0
  {
    StepRead(r).(count := r.count - 1)
  }

  /** The body of the loop of pipe_write. */
  function PutOf(r: Ring, b: byte): Ring
    requires InRange(r)
  {
    StepWrite(StoreByte(r, b)).(count := r.count + 1)
  }

  /** pipe_t */
  class Buffer {
    const buffer: array<byte>
    var readPos: nat
    var writePos: nat
    var count: nat
    var ends: Ends
    ghost var contents: seq<byte>

    function Viewed(): Ring
      reads this, buffer
    {
      Ring(buffer[..], readPos, writePos, count)
    }

    ghost predicate Valid()
      reads this, buffer
    {
      RingHolds(Viewed(), contents)
    }

    /** pipe_create */
    constructor ()
      ensures Valid() && contents == [] && ends == Ends(true, true, false, 0, 0) && fresh(buffer)
    {
      buffer := new byte[BUFFER_SIZE](i => 0);
      readPos, writePos, count := 0, 0, 0;
      ends := Ends(true, true, false, 0, 0);
      contents := [];
    }

    /** The body of the loop of pipe_read. */
    method TakeByte() returns (b: byte)
      requires Valid() && count > 0
      modifies this`readPos, this`count, this`contents
      ensures Valid() && old(contents) == [b] + contents
      ensures Viewed() == TakeOf(old(Viewed()))
    {
      b := buffer[readPos];
      TakenShifts(buffer[..], readPos, contents);
      PlaceShifts(readPos, count - 1);
      readPos := (readPos + 1) % BUFFER_SIZE;
      count := count - 1;
      contents := contents[1..];
    }

    /** The body of the loop of pipe_write. */
    method PutByte(b: byte)
      requires Valid() && count < BUFFER_SIZE
      modifies this`writePos, this`count, this`contents, buffer
      ensures Valid() && contents == old(contents) + [b]
      ensures Viewed() == PutOf(old(Viewed()), b)
    {
      PutStores(buffer[..], readPos, contents, b);
      PlaceShifts(readPos, count);
      buffer[writePos] := b;
      writePos := (writePos + 1) % BUFFER_SIZE;
      count := count + 1;
      contents := contents + [b];
    }

    /** pipe_read without a writer at work in between; `blocked` if it would wait for one. */
    method Read(dest: array<byte>, size: nat) returns (r: int, blocked: bool)
      requires Valid() && size <= dest.Length && dest != buffer
      modifies this`readPos, this`count, this`contents, dest
      ensures Valid() && ends == old(ends)
      ensures r == -1 <==> !ends.readable
      ensures blocked <==> ends.readable && old(contents) == [] && ends.writers != 0 && !ends.eof
      ensures ends.readable ==> r == if size < |old(contents)| then size else |old(contents)|
      ensures r >= 0 ==> dest[..r] + contents == old(contents)
      ensures r == -1 ==> contents == old(contents)
    {
      blocked := false;
      if !ends.readable {
        return -1, false;
      }
      if count == 0 {
        return 0, ends.writers != 0 && !ends.eof;
      }
      r := 0;
      ghost var before := contents;
      var toRead := if size < count then size else count;
      while r < toRead
        invariant Valid() && 0 <= r <= toRead && |before| == r + count
        invariant dest[..r] + contents == before
      {
        var b := TakeByte();
        dest[r] := b;
        r := r + 1;
      }
    }

    /** pipe_write without a reader at work in between, up to the point where it would wait for room. */
    method Write(src: array<byte>, size: nat) returns (r: int)
      requires Valid() && size <= src.Length && src != buffer
      modifies this`writePos, this`count, this`contents, buffer
      ensures Valid() && ends == old(ends)
      ensures r == -1 <==> !ends.writable || ends.readers == 0
      ensures r >= 0 ==> r == if size <= BUFFER_SIZE - |old(contents)| then size else BUFFER_SIZE - |old(contents)|
      ensures contents == if r >= 0 then old(contents) + src[..r] else old(contents)
    {
      if !ends.writable || ends.readers == 0 {
        return -1;
      }
      r := 0;
      ghost var before := contents;
      while r < size && count < BUFFER_SIZE
        invariant Valid() && 0 <= r <= size && count == |before| + r
        invariant contents == before + src[..r] && src[..] == old(src[..])
      {
        PutByte(src[r]);
        r := r + 1;
      }
    }
  }

  ghost predicate Stored(buffer: seq<byte>, pos: nat, contents: seq<byte>) {
    |buffer| == BUFFER_SIZE && forall i: nat {:trigger Place(pos, i)} | i < |contents| ::
      buffer[Place(pos, i)] == contents[i]
  }

  lemma TakenShifts(buffer: seq<byte>, pos: nat, contents: seq<byte>)
    requires Stored(buffer, pos, contents) && contents != [] && pos < BUFFER_SIZE
    ensures buffer[pos] == contents[0] && Stored(buffer, (pos + 1) % BUFFER_SIZE, contents[1..])
  {
    assert Place(pos, 0) == pos;
    forall i: nat | i < |contents| - 1 ensures buffer[Place((pos + 1) % BUFFER_SIZE, i)] == contents[1..][i] {
      PlaceShifts(pos, i);
    }
  }

  lemma PutStores(buffer: seq<byte>, pos: nat, contents: seq<byte>, b: byte)
    requires Stored(buffer, pos, contents) && |contents| < BUFFER_SIZE
    ensures Stored(buffer[Place(pos, |contents|) := b], pos, contents + [b])
  {
    var n := |contents|;
    forall i: nat | i < n + 1 ensures buffer[Place(pos, n) := b][Place(pos, i)] == (contents + [b])[i] {
      if i < n {
        PlacesDiffer(pos, i, n);
      }
    }
  }

  /** How far the reader is in the body of its loop. */
  datatype ReadPhase = ReadHead | Loaded | ReadMoved

  /** Where the reader is in pipe_read: about to read count; having seen it 0, about to read writers, and then state;
      having seen it positive, about to compare it with the size, and then to choose the smaller of the two; and in the
      copy loop, which it began when `from` bytes had been delivered. */
  datatype Reader = NotReading | Waiting(size: nat) | Empty(size: nat) | Attended(size: nat)
    | Ready(size: nat) | Compared(size: nat, less: bool)
    | Reading(size: nat, toRead: nat, got: nat, from: nat, phase: ReadPhase)

  /** How far the writer is in the body of its loop: at its head, having seen the pipe full, having seen room, and after
      each of the first two writes. */
  datatype WritePhase = WriteHead | Full | HasRoom | ByteStored | WriteMoved

  /** Where the writer is in pipe_write: about to read readers, or in a loop that it began when `from` bytes had been
      written. */
  datatype Writer = NotWriting | Opening(data: seq<byte>)
    | Writing(data: seq<byte>, put: nat, from: nat, phase: WritePhase)

  /** The pipe and its two users. `written` and `delivered` are the history: the bytes stored by the writer and loaded
      by the reader. */
  datatype State = State(ring: Ring, ends: Ends, reader: Reader, writer: Writer,
                         written: seq<byte>, delivered: seq<byte>)

  /** A step of reader or writer makes one access to what others may change: buffer, count, state, readers or writers.
      ChangeEnds is any change of the last three, and so covers what opening and closing the ends does, in steps of any
      size. */
  datatype Action =
    | StartRead(size: nat) | Look | LookWriters | LookEof | Compare | Choose | Load | MoveRead | CountDown | EndRead
    | StartWrite(data: seq<byte>) | LookReaders | Check | CheckReaders | Store | MoveWrite | CountUp | EndWrite
    | ChangeEnds(ends: Ends)

  predicate Enabled(s: State, a: Action) {
    InRange(s.ring) &&
    match a
    case StartRead(_) => s.reader.NotReading?
    case Look => s.reader.Waiting?
    case LookWriters => s.reader.Empty?
    case LookEof => s.reader.Attended?
    case Compare => s.reader.Ready?
    case Choose => s.reader.Compared?
    case Load => s.reader.Reading? && s.reader.phase.ReadHead? && s.reader.got < s.reader.toRead
    case MoveRead => s.reader.Reading? && s.reader.phase.Loaded?
    case CountDown => s.reader.Reading? && s.reader.phase.ReadMoved?
    case EndRead => s.reader.Reading? && s.reader.phase.ReadHead? && s.reader.got >= s.reader.toRead
    case StartWrite(_) => s.writer.NotWriting?
    case LookReaders => s.writer.Opening?
    case Check => s.writer.Writing? && s.writer.phase.WriteHead? && s.writer.put < |s.writer.data|
    case CheckReaders => s.writer.Writing? && s.writer.phase.Full?
    case Store => s.writer.Writing? && s.writer.phase.HasRoom? && s.writer.put < |s.writer.data|
    case MoveWrite => s.writer.Writing? && s.writer.phase.ByteStored?
    case CountUp => s.writer.Writing? && s.writer.phase.WriteMoved?
    case EndWrite => s.writer.Writing? && s.writer.phase.WriteHead? && s.writer.put >= |s.writer.data|
    case ChangeEnds(_) => true
  }

  function Apply(s: State, a: Action): State
    requires Enabled(s, a)
  {
    match a
    case StartRead(size) => if s.ends.readable then s.(reader := Waiting(size)) else s
    case Look => if s.ring.count == 0 then s.(reader := Empty(s.reader.size)) else s.(reader := Ready(s.reader.size))
    case LookWriters =>
      if s.ends.writers == 0 then s.(reader := NotReading) else s.(reader := Attended(s.reader.size))
    case LookEof => if s.ends.eof then s.(reader := NotReading) else s.(reader := Waiting(s.reader.size))
    case Compare => s.(reader := Compared(s.reader.size, s.reader.size < s.ring.count))
    case Choose =>
      var toRead := if s.reader.less then s.reader.size else s.ring.count;
      s.(reader := Reading(s.reader.size, toRead, 0, |s.delivered|, ReadHead))
    case Load =>
      s.(delivered := s.delivered + [s.ring.buffer[s.ring.readPos]],
         reader := s.reader.(got := s.reader.got + 1, phase := Loaded))
    case MoveRead => s.(ring := StepRead(s.ring), reader := s.reader.(phase := ReadMoved))
    case CountDown =>
      s.(ring := s.ring.(count := if s.ring.count == 0 then COUNT_SPAN - 1 else s.ring.count - 1),
         reader := s.reader.(phase := ReadHead))
    case EndRead => s.(reader := NotReading)
    case StartWrite(data) => if s.ends.writable then s.(writer := Opening(data)) else s
    case LookReaders =>
      if s.ends.readers == 0 then s.(writer := NotWriting)
      else s.(writer := Writing(s.writer.data, 0, |s.written|, WriteHead))
    case Check => s.(writer := s.writer.(phase := if s.ring.count == BUFFER_SIZE then Full else HasRoom))
    case CheckReaders =>
      if s.ends.readers == 0 then s.(writer := NotWriting) else s.(writer := s.writer.(phase := WriteHead))
    case Store =>
      var b := s.writer.data[s.writer.put];
      s.(ring := StoreByte(s.ring, b), written := s.written + [b],
         writer := s.writer.(put := s.writer.put + 1, phase := ByteStored))
    case MoveWrite => s.(ring := StepWrite(s.ring), writer := s.writer.(phase := WriteMoved))
    case CountUp =>
      s.(ring := s.ring.(count := (s.ring.count + 1) % COUNT_SPAN), writer := s.writer.(phase := WriteHead))
    case EndWrite => s.(writer := NotWriting)
    case ChangeEnds(ends) => s.(ends := ends)
  }

  datatype Outcome = Nothing | Returns(value: int)

  /** What pipe_read or pipe_write returns in this step, if it returns. */
  function Returned(s: State, a: Action): Outcome
    requires Enabled(s, a)
  {
    match a
    case StartRead(_) => if s.ends.readable then Nothing else Returns(-1)
    case LookWriters => if s.ends.writers == 0 then Returns(0) else Nothing
    case LookEof => if s.ends.eof then Returns(0) else Nothing
    case EndRead => Returns(s.reader.got)
    case StartWrite(_) => if s.ends.writable then Nothing else Returns(-1)
    case LookReaders => if s.ends.readers == 0 then Returns(-1) else Nothing
    case CheckReaders =>
      if s.ends.readers == 0 then Returns(if s.writer.put > 0 then s.writer.put else -1) else Nothing
    case EndWrite => Returns(s.writer.put)
    case _ => Nothing
  }

  /** The place of the k-th byte of the stream. */
  function Slot(k: nat): (p: nat)
    ensures p < BUFFER_SIZE
  {
    k % BUFFER_SIZE
  }

  /** The reader has loaded a byte that it has not yet subtracted from count. */
  function ReadPending(s: State): nat {
    if s.reader.Reading? && !s.reader.phase.ReadHead? then 1 else 0
  }

  /** The writer has stored a byte that it has not yet added to count. */
  function WritePending(s: State): nat {
    if s.writer.Writing? && (s.writer.phase.ByteStored? || s.writer.phase.WriteMoved?) then 1 else 0
  }

  /** The bytes stored and not loaded. */
  function Contents(s: State): seq<byte>
    requires |s.delivered| <= |s.written|
  {
    s.written[|s.delivered|..]
  }

  predicate ReaderInv(s: State) {
    match s.reader
    case Ready(_) => s.ring.count > 0
    case Compared(size, less) => s.ring.count > 0 && if less then size < s.ring.count else size > 0
    case Reading(size, toRead, got, from, phase) =>
      && ReadPending(s) <= got <= toRead <= BUFFER_SIZE && from + got == |s.delivered|
      && toRead + ReadPending(s) <= got + s.ring.count
      && (toRead == 0 <==> size == 0) && (toRead <= size || 0 < size < BUFFER_SIZE)
    case _ => true
  }

  predicate WriterInv(s: State) {
    match s.writer
    case Writing(data, put, from, phase) =>
      && WritePending(s) <= put <= |data| && from + put == |s.written| && s.written[from..] == data[..put]
      && (phase.Full? ==> put < |data|)
      && (phase.HasRoom? ==> s.ring.count < BUFFER_SIZE && put < |data|)
    case _ => true
  }

  /** Byte `k` of the stream is at its place. */
  predicate InPlace(s: State, k: nat)
    requires InRange(s.ring) && k < |s.written|
  {
    s.ring.buffer[Slot(k)] == s.written[k]
  }

  /** The invariant: the bytes loaded are the first of those stored, the others stand in the buffer, and the positions
      and the count follow the two numbers of bytes up to the steps that are still to be done. */
  ghost predicate Inv(s: State) {
    && InRange(s.ring) && s.delivered <= s.written
    && s.ring.count + |s.delivered| + WritePending(s) == |s.written| + ReadPending(s)
    && s.ring.count + WritePending(s) <= BUFFER_SIZE
    && ReaderInv(s) && WriterInv(s)
    && s.ring.readPos == Slot(|s.delivered| - if s.reader.Reading? && s.reader.phase.Loaded? then 1 else 0)
    && s.ring.writePos == Slot(|s.written| - if s.writer.Writing? && s.writer.phase.ByteStored? then 1 else 0)
    && forall k: nat {:trigger InPlace(s, k)} | |s.delivered| <= k < |s.written| :: InPlace(s, k)
  }

  /** pipe_create */
  function Init(): State {
    State(Ring(seq(BUFFER_SIZE, i => 0), 0, 0, 0), Ends(true, true, false, 0, 0), NotReading, NotWriting, [], [])
  }

  lemma SlotNext(k: nat)
    ensures (Slot(k) + 1) % BUFFER_SIZE == Slot(k + 1)
  {
    ModAdd(k, 1);
  }

  lemma SlotsDiffer(k: nat, m: nat)
    requires k < m < k + BUFFER_SIZE
    ensures Slot(k) != Slot(m)
  {
    ModDiffers(k, m, BUFFER_SIZE);
  }

  /** A byte that is loaded is the next one of the stream: the reader never runs out of the bytes it decided on. */
  lemma LoadsNext(s: State)
    requires Inv(s) && Enabled(s, Load)
    ensures |s.delivered| < |s.written| && s.ring.buffer[s.ring.readPos] == s.written[|s.delivered|]
  {
    assert InPlace(s, |s.delivered|);
  }

  /** A byte that is stored overwrites none that is still to be read. */
  lemma StoresInRoom(s: State)
    requires Inv(s) && Enabled(s, Store)
    ensures s.ring.writePos == Slot(|s.written|)
    ensures forall k: nat | |s.delivered| <= k < |s.written| :: Slot(k) != s.ring.writePos
  {
    forall k: nat | |s.delivered| <= k < |s.written| ensures Slot(k) != s.ring.writePos {
      SlotsDiffer(k, |s.written|);
    }
  }

  /** Undisturbed, the three steps of the reader's loop body are TakeByte. */
  lemma ReaderBody(s: State)
    requires Enabled(s, Load) && s.ring.count > 0
    ensures Enabled(Apply(s, Load), MoveRead) && Enabled(Apply(Apply(s, Load), MoveRead), CountDown)
    ensures Apply(Apply(Apply(s, Load), MoveRead), CountDown).ring == TakeOf(s.ring)
  {
  }

  /** And those of the writer's loop body are PutByte. */
  lemma WriterBody(s: State)
    requires Enabled(s, Store) && s.ring.count < BUFFER_SIZE
    ensures Enabled(Apply(s, Store), MoveWrite) && Enabled(Apply(Apply(s, Store), MoveWrite), CountUp)
    ensures Apply(Apply(Apply(s, Store), MoveWrite), CountUp).ring == PutOf(s.ring, s.writer.data[s.writer.put])
  {
  }

  lemma LoadSafe(s: State)
    requires Inv(s) && Enabled(s, Load)
    ensures Inv(Apply(s, Load))
  {
    var s' := Apply(s, Load);
    LoadsNext(s);
    assert s'.delivered == s.written[..|s.delivered| + 1];
    forall k: nat | |s'.delivered| <= k < |s.written| ensures InPlace(s', k) {
      assert InPlace(s, k);
    }
  }

  lemma MoveReadSafe(s: State)
    requires Inv(s) && Enabled(s, MoveRead)
    ensures Inv(Apply(s, MoveRead))
  {
    var s' := Apply(s, MoveRead);
    SlotNext(|s.delivered| - 1);
    forall k: nat | |s.delivered| <= k < |s.written| ensures InPlace(s', k) {
      assert InPlace(s, k);
    }
  }

  lemma CountDownSafe(s: State)
    requires Inv(s) && Enabled(s, CountDown)
    ensures Inv(Apply(s, CountDown))
  {
    var s' := Apply(s, CountDown);
    forall k: nat | |s.delivered| <= k < |s.written| ensures InPlace(s', k) {
      assert InPlace(s, k);
    }
  }

  lemma StoreSafe(s: State)
    requires Inv(s) && Enabled(s, Store)
    ensures Inv(Apply(s, Store))
  {
    var s' := Apply(s, Store);
    StoresInRoom(s);
    assert s'.written[s.writer.from..] == s.written[s.writer.from..] + [s.writer.data[s.writer.put]];
    forall k: nat | |s.delivered| <= k < |s'.written| ensures InPlace(s', k) {
      assert k < |s.written| ==> InPlace(s, k);
    }
  }

  lemma MoveWriteSafe(s: State)
    requires Inv(s) && Enabled(s, MoveWrite)
    ensures Inv(Apply(s, MoveWrite))
  {
    var s' := Apply(s, MoveWrite);
    SlotNext(|s.written| - 1);
    forall k: nat | |s.delivered| <= k < |s.written| ensures InPlace(s', k) {
      assert InPlace(s, k);
    }
  }

  lemma CountUpSafe(s: State)
    requires Inv(s) && Enabled(s, CountUp)
    ensures Inv(Apply(s, CountUp))
  {
    var s' := Apply(s, CountUp);
    forall k: nat | |s.delivered| <= k < |s.written| ensures InPlace(s', k) {
      assert InPlace(s, k);
    }
  }

  /** The steps of the reader that change nothing but where it is. */
  predicate OfReader(a: Action) {
    a.StartRead? || a.Look? || a.LookWriters? || a.LookEof? || a.Compare? || a.Choose? || a.EndRead?
  }

  lemma ReaderCallSafe(s: State, a: Action)
    requires Inv(s) && Enabled(s, a) && OfReader(a)
    ensures Inv(Apply(s, a))
  {
    var s' := Apply(s, a);
    assert s' == s.(reader := s'.reader);
    forall k: nat | |s.delivered| <= k < |s.written| ensures InPlace(s', k) {
      assert InPlace(s, k);
    }
  }

  predicate OfWriter(a: Action) {
    a.StartWrite? || a.LookReaders? || a.Check? || a.CheckReaders? || a.EndWrite?
  }

  lemma WriterCallSafe(s: State, a: Action)
    requires Inv(s) && Enabled(s, a) && OfWriter(a)
    ensures Inv(Apply(s, a))
  {
    var s' := Apply(s, a);
    assert s' == s.(writer := s'.writer);
    forall k: nat | |s.delivered| <= k < |s.written| ensures InPlace(s', k) {
      assert InPlace(s, k);
    }
  }

  /** Every step of reader and writer keeps the invariant, and so does every change of the ends. */
  lemma StepSafe(s: State, a: Action)
    requires Inv(s) && Enabled(s, a)
    ensures Inv(Apply(s, a))
  {
    match a
    case Load => LoadSafe(s);
    case MoveRead => MoveReadSafe(s);
    case CountDown => CountDownSafe(s);
    case Store => StoreSafe(s);
    case MoveWrite => MoveWriteSafe(s);
    case CountUp => CountUpSafe(s);
    case ChangeEnds(_) => EndsSafe(s, a);
    case _ =>
      if OfReader(a) {
        ReaderCallSafe(s, a);
      } else {
        WriterCallSafe(s, a);
      }
  }

  lemma EndsSafe(s: State, a: Action)
    requires Inv(s) && Enabled(s, a) && a.ChangeEnds?
    ensures Inv(Apply(s, a))
  {
    var s' := Apply(s, a);
    forall k: nat | |s.delivered| <= k < |s.written| ensures InPlace(s', k) {
      assert InPlace(s, k);
    }
  }

  predicate Linked(states: seq<State>, actions: seq<Action>, i: nat)
    requires i < |actions| && i + 1 < |states|
  {
    Enabled(states[i], actions[i]) && states[i + 1] == Apply(states[i], actions[i])
  }

  ghost predicate IsRun(states: seq<State>, actions: seq<Action>) {
    && |states| == |actions| + 1 && states[0] == Init()
    && forall i: nat {:trigger Linked(states, actions, i)} | i < |actions| :: Linked(states, actions, i)
  }

  /** The invariant holds throughout every run, under every interleaving of the accesses of one reader and one
      writer. */
  lemma {:induction false} RunSafe(states: seq<State>, actions: seq<Action>, i: nat)
    requires IsRun(states, actions) && i < |states|
    ensures Inv(states[i])
  {
    if i > 0 {
      RunSafe(states, actions, i - 1);
      assert Linked(states, actions, i - 1);
      StepSafe(states[i - 1], actions[i - 1]);
    }
  }

  /** Bytes are conserved in order: those delivered, followed by those in the buffer, are those written. At most 4096
      are stored; and whenever both users are outside the bodies of their loops, count is their number and write_pos is
      count places behind read_pos. */
  lemma Conserved(states: seq<State>, actions: seq<Action>, i: nat)
    requires IsRun(states, actions) && i < |states|
    ensures var s := states[i];
      && |s.delivered| <= |s.written| <= |s.delivered| + BUFFER_SIZE
      && s.written == s.delivered + Contents(s)
      && (ReadPending(s) == 0 && WritePending(s) == 0 ==> RingHolds(s.ring, Contents(s)))
  {
    RunSafe(states, actions, i);
    var s := states[i];
    if ReadPending(s) == 0 && WritePending(s) == 0 {
      Quiet(s);
    }
  }

  lemma Quiet(s: State)
    requires Inv(s) && ReadPending(s) == 0 && WritePending(s) == 0
    ensures RingHolds(s.ring, Contents(s))
  {
    var n := |s.delivered|;
    ModAdd(n, s.ring.count);
    forall i: nat | i < |Contents(s)| ensures s.ring.buffer[Place(s.ring.readPos, i)] == Contents(s)[i] {
      assert InPlace(s, n + i);
      ModAdd(n, i);
    }
  }

  /** In every run, the byte a read in progress loads is the next one of the stream. */
  lemma NeverUnderruns(states: seq<State>, actions: seq<Action>, i: nat)
    requires IsRun(states, actions) && i < |actions| && actions[i].Load?
    ensures |states[i].delivered| < |states[i].written|
    ensures states[i + 1].delivered == states[i].delivered + [states[i].written[|states[i].delivered|]]
  {
    RunSafe(states, actions, i);
    assert Linked(states, actions, i);
    LoadsNext(states[i]);
  }

  /** In every run, a read that gets to its copy loop returns the number of bytes it delivered, which is 0 only for size
      0; it is at most the size, or the size is below 4096. */
  lemma ReadReturns(states: seq<State>, actions: seq<Action>, i: nat)
    requires IsRun(states, actions) && i < |actions| && actions[i].EndRead? && Enabled(states[i], EndRead)
    ensures var s, r := states[i], Returned(states[i], EndRead).value;
      && |s.delivered| == s.reader.from + r && (r == 0 <==> s.reader.size == 0)
      && (r <= s.reader.size || 0 < s.reader.size < BUFFER_SIZE)
  {
    RunSafe(states, actions, i);
  }

  /** The reader is between its two tests of an empty pipe. */
  predicate Testing(s: State) {
    s.reader.Empty? || s.reader.Attended?
  }

  /** The number of times count was raised by the steps [lo, hi). */
  function CountUps(actions: seq<Action>, lo: nat, hi: nat): (n: nat)
    requires lo <= hi <= |actions|
    ensures n > 0 <==> exists k :: lo <= k < hi && actions[k].CountUp?
    decreases hi - lo
  {
    if lo == hi then 0 else CountUps(actions, lo, hi - 1) + if actions[hi - 1].CountUp? then 1 else 0
  }

  /** While the reader is between its tests, count is the number of bytes counted since it saw 0. */
  lemma {:induction false} CountedMeanwhile(states: seq<State>, actions: seq<Action>, j: nat, i: nat)
    requires IsRun(states, actions) && j < i <= |actions| && actions[j].Look?
    requires forall k | j < k <= i :: Testing(states[k])
    ensures states[i].ring.count == CountUps(actions, j + 1, i)
    decreases i
  {
    assert Linked(states, actions, i - 1) && Testing(states[i]);
    RunSafe(states, actions, i - 1);
    if i > j + 1 {
      CountedMeanwhile(states, actions, j, i - 1);
      TestingStep(states[i - 1], actions[i - 1]);
    }
  }

  lemma TestingStep(s: State, a: Action)
    requires Inv(s) && Enabled(s, a) && Testing(s) && Testing(Apply(s, a))
    ensures Apply(s, a).ring.count == s.ring.count + if a.CountUp? then 1 else 0
  {
  }

  /** In every run, a read that saw count 0 in step `j` and returns 0 in step `i` leaves counted bytes behind exactly if
      one was counted between the two. */
  lemma ZeroLeavesBytes(states: seq<State>, actions: seq<Action>, j: nat, i: nat)
    requires IsRun(states, actions) && j < i < |actions| && actions[j].Look?
    requires forall k | j < k <= i :: Testing(states[k])
    requires Enabled(states[i], actions[i]) && Returned(states[i], actions[i]) == Returns(0)
    requires actions[i].LookWriters? || actions[i].LookEof?
    ensures states[j].ring.count == 0 && (states[i].ends.writers == 0 || states[i].ends.eof)
    ensures states[i].ring.count > 0 <==> exists k :: j < k < i && actions[k].CountUp?
  {
    assert Linked(states, actions, j) && Testing(states[j + 1]);
    CountedMeanwhile(states, actions, j, i);
  }

  /** In every run, a write returns the number of its bytes that went into the stream, in order and without a gap, or
      -1 if there are none. A short one has found no reader, after it found the pipe full. */
  lemma WriteReturns(states: seq<State>, actions: seq<Action>, i: nat)
    requires IsRun(states, actions) && i < |actions|
    requires Enabled(states[i], actions[i]) && Returned(states[i], actions[i]).Returns?
    requires actions[i].CheckReaders? || actions[i].EndWrite?
    ensures var s, r := states[i], Returned(states[i], actions[i]).value;
      && -1 <= r <= |s.writer.data| && s.writer.from <= |s.written|
      && s.written[s.writer.from..] == s.writer.data[..if r < 0 then 0 else r]
      && (r < |s.writer.data| <==> actions[i].CheckReaders?)
      && (r < |s.writer.data| ==> s.ends.readers == 0)
  {
    RunSafe(states, actions, i);
  }

  predicate SawFull(s: State) {
    s.writer.Writing? && s.writer.phase.Full?
  }

  function CountDowns(actions: seq<Action>, lo: nat, hi: nat): (n: nat)
    requires lo <= hi <= |actions|
    ensures n > 0 <==> exists k :: lo <= k < hi && actions[k].CountDown?
    decreases hi - lo
  {
    if lo == hi then 0 else CountDowns(actions, lo, hi - 1) + if actions[hi - 1].CountDown? then 1 else 0
  }

  lemma {:induction false} DrainedMeanwhile(states: seq<State>, actions: seq<Action>, j: nat, i: nat)
    requires IsRun(states, actions) && j < i <= |actions| && actions[j].Check?
    requires forall k | j < k <= i :: SawFull(states[k])
    ensures states[i].ring.count == BUFFER_SIZE - CountDowns(actions, j + 1, i)
    decreases i
  {
    assert Linked(states, actions, i - 1) && SawFull(states[i]);
    RunSafe(states, actions, i - 1);
    if i > j + 1 {
      DrainedMeanwhile(states, actions, j, i - 1);
      FullStep(states[i - 1], actions[i - 1]);
    }
  }

  lemma FullStep(s: State, a: Action)
    requires Inv(s) && Enabled(s, a) && SawFull(s) && SawFull(Apply(s, a))
    ensures Apply(s, a).ring.count == s.ring.count - if a.CountDown? then 1 else 0
  {
  }

  /** In every run, a write that saw the pipe full in step `j` and returns short in step `i` returns on a full pipe
      exactly if no byte was taken from the count between the two. */
  lemma ShortOnFullPipe(states: seq<State>, actions: seq<Action>, j: nat, i: nat)
    requires IsRun(states, actions) && j < i < |actions| && actions[j].Check?
    requires forall k | j < k <= i :: SawFull(states[k])
    requires actions[i].CheckReaders? && Enabled(states[i], CheckReaders) && Returned(states[i], CheckReaders).Returns?
    ensures states[i].ring.count == BUFFER_SIZE <==> !exists k :: j < k < i && actions[k].CountDown?
  {
    DrainedMeanwhile(states, actions, j, i);
  }

  /** Some run leads to `s`. */
  ghost predicate Reachable(s: State) {
    exists states: seq<State>, actions: seq<Action> :: IsRun(states, actions) && states[|actions|] == s
  }

  lemma ReachableSafe(s: State)
    requires Reachable(s)
    ensures Inv(s)
  {
    var states: seq<State>, actions: seq<Action> :| IsRun(states, actions) && states[|actions|] == s;
    RunSafe(states, actions, |actions|);
  }

  lemma Begins()
    ensures Reachable(Init())
  {
    assert IsRun([Init()], []);
  }

  lemma Next(s: State, a: Action) returns (s': State)
    requires Reachable(s) && Enabled(s, a)
    ensures s' == Apply(s, a) && Reachable(s') && InRange(s'.ring)
  {
    s' := Apply(s, a);
    var states: seq<State>, actions: seq<Action> :| IsRun(states, actions) && states[|actions|] == s;
    var states', actions' := states + [s'], actions + [a];
    forall i: nat | i < |actions'| ensures Linked(states', actions', i) {
      if i < |actions| {
        assert Linked(states, actions, i);
      }
    }
    assert IsRun(states', actions');
    ReachableSafe(s');
  }

  const OPEN: Ends := Ends(true, true, false, 1, 1)

  /** One process has opened the pipe for reading and one for writing, and the second has called pipe_write. */
  lemma WriteStarted(data: seq<byte>) returns (s: State)
    ensures Reachable(s) && InRange(s.ring) && s.reader == NotReading && s.writer == Writing(data, 0, 0, WriteHead)
    ensures s.ends == OPEN && s.ring.count == 0
  {
    s := Init();
    Begins();
    s := Next(s, ChangeEnds(AddReader(s.ends)));
    s := Next(s, ChangeEnds(AddWriter(s.ends)));
    s := Next(s, StartWrite(data));
    s := Next(s, LookReaders);
  }

  /** One turn of the writer. */
  lemma PutOne(s0: State) returns (s: State)
    requires Reachable(s0) && s0.writer.Writing? && s0.writer.phase.WriteHead? && s0.writer.put < |s0.writer.data|
    requires s0.ring.count < BUFFER_SIZE && InRange(s0.ring)
    ensures Reachable(s) && InRange(s.ring) && s.reader == s0.reader && s.ends == s0.ends
    ensures s.writer == s0.writer.(put := s0.writer.put + 1) && s.ring.count == s0.ring.count + 1
  {
    s := Next(s0, Check);
    s := Next(s, Store);
    s := Next(s, MoveWrite);
    s := Next(s, CountUp);
  }

  lemma {:induction false} PutMany(s0: State, n: nat) returns (s: State)
    requires Reachable(s0) && s0.writer.Writing? && s0.writer.phase.WriteHead? && s0.writer.put + n <= |s0.writer.data|
    requires s0.ring.count + n <= BUFFER_SIZE && InRange(s0.ring)
    ensures Reachable(s) && InRange(s.ring) && s.reader == s0.reader && s.ends == s0.ends
    ensures s.writer == s0.writer.(put := s0.writer.put + n) && s.ring.count == s0.ring.count + n
    decreases n
  {
    s := s0;
    if n > 0 {
      s := PutOne(s0);
      s := PutMany(s, n - 1);
    }
  }

  /** One turn of the reader. */
  lemma TakeOne(s0: State) returns (s: State)
    requires Reachable(s0) && s0.reader.Reading? && s0.reader.phase.ReadHead? && s0.reader.got < s0.reader.toRead
    ensures Reachable(s) && InRange(s.ring) && s.writer == s0.writer && s.ends == s0.ends
    ensures s.reader == s0.reader.(got := s0.reader.got + 1) && s.ring.count == s0.ring.count - 1
  {
    ReachableSafe(s0);
    s := Next(s0, Load);
    s := Next(s, MoveRead);
    s := Next(s, CountDown);
  }

  lemma {:induction false} TakeAll(s0: State) returns (s: State)
    requires Reachable(s0) && s0.reader.Reading? && s0.reader.phase.ReadHead? && s0.reader.got <= s0.reader.toRead
    ensures Reachable(s) && InRange(s.ring) && s.reader == s0.reader.(got := s0.reader.toRead)
    decreases s0.reader.toRead - s0.reader.got
  {
    s := s0;
    ReachableSafe(s0);
    if s0.reader.got < s0.reader.toRead {
      s := TakeOne(s0);
      s := TakeAll(s);
    }
  }

  /** pipe_read is called and finds the pipe non-empty. */
  lemma ReadStarted(s0: State, size: nat) returns (s: State)
    requires Reachable(s0) && s0.reader.NotReading? && s0.ends.readable && InRange(s0.ring)
    ensures Reachable(s) && InRange(s.ring) && s.reader == if s0.ring.count == 0 then Empty(size) else Ready(size)
    ensures s.writer == s0.writer && s.ends == s0.ends && s.ring == s0.ring
  {
    s := Next(s0, StartRead(size));
    s := Next(s, Look);
  }

  /** A read of `size` bytes is about to return more than it was asked for, having stored as many at its destination. */
  ghost predicate Overruns(s: State, size: nat) {
    Reachable(s) && Enabled(s, EndRead) && s.reader.size == size && s.reader.got > size
  }

  /** Between the comparison with count and the second look at it the writer counts one more byte. */
  lemma SecondLook(size: nat) returns (s: State)
    requires 0 < size < BUFFER_SIZE
    ensures Overruns(s, size) && Returned(s, EndRead) == Returns(size + 1)
  {
    s := WriteStarted(seq(size + 1, i => 0));
    s := PutMany(s, size);
    s := ReadStarted(s, size);
    s := Next(s, Compare);
    s := PutOne(s);
    s := Next(s, Choose);
    s := TakeAll(s);
  }

  /** A read stays within its size in every run exactly for size 0 and for sizes from that of the buffer on. */
  lemma OverrunExactly(size: nat)
    ensures (exists s: State :: Overruns(s, size)) <==> 0 < size < BUFFER_SIZE
  {
    if s: State :| Overruns(s, size) {
      ReachableSafe(s);
    }
    if 0 < size < BUFFER_SIZE {
      var s := SecondLook(size);
    }
  }

  /** A read can return 0 with a byte in the pipe: it saw count 0, then the byte was written and the writer left. */
  lemma EarlyEnd(b: byte) returns (s: State)
    ensures Reachable(s) && Enabled(s, LookWriters) && Returned(s, LookWriters) == Returns(0)
    ensures s.reader.size == 1 && s.ring.count == 1 && |s.delivered| < |s.written|
  {
    s := WriteStarted([b]);
    s := ReadStarted(s, 1);
    s := PutOne(s);
    s := Next(s, EndWrite);
    s := Next(s, ChangeEnds(RemoveWriter(s.ends)));
    ReachableSafe(s);
  }

  /** A write can return short with room in the pipe: it saw the pipe full, then a byte was read and the reader left. */
  lemma ShortWithRoom() returns (s: State)
    ensures Reachable(s) && Enabled(s, CheckReaders) && Returned(s, CheckReaders) == Returns(BUFFER_SIZE)
    ensures |s.writer.data| == BUFFER_SIZE + 1 && s.ring.count == BUFFER_SIZE - 1
  {
    s := WriteStarted(seq(BUFFER_SIZE + 1, i => 0));
    s := PutMany(s, BUFFER_SIZE);
    s := Next(s, Check);
    s := ReadStarted(s, 1);
    s := Next(s, Compare);
    s := Next(s, Choose);
    s := TakeOne(s);
    s := Next(s, EndRead);
    s := Next(s, ChangeEnds(RemoveReader(s.ends)));
  }
}
