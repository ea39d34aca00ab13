/** The ready queue and the round robin of kernel/src/core/process.c. */
module Scheduler {

  const TICK_SPAN: nat := 0x1_0000_0000     // time_used is 32 bits wide

  type Word = n: nat | n < TICK_SPAN

  datatype State = New | Ready

  /** The fields of process_t that the scheduler uses. */
  class Process {
    var state: State
    var next: Process?
    var timeUsed: Word
    const timeSlice: Word

    constructor (slice: Word)
      ensures timeSlice == slice && timeUsed == 0 && next == null && state == New
    {
      timeSlice, timeUsed, next, state := slice, 0, null, New;
    }
  }

  function At(queue: seq<Process>, i: int): Process? {
    if 0 <= i < |queue| then queue[i] else null
  }

  /** The i-th process links to the one behind it, the last one to none. */
  ghost predicate Link(queue: seq<Process>, i: nat)
    requires i < |queue|
    reads queue[i]
  {
    queue[i].next == At(queue, i + 1)
  }

  ghost predicate Linked(queue: seq<Process>)
    reads queue
  {
    forall i: nat {:trigger Link(queue, i)} | i < |queue| :: Link(queue, i)
  }

  predicate NoDuplicates(queue: seq<Process>) {
    forall i, j | 0 <= i < j < |queue| :: queue[i] != queue[j]
  }

  /** The queue without process `p`. */
  function Without(queue: seq<Process>, p: Process): seq<Process> {
    if queue == [] then []
    else if queue[0] == p then queue[1..]
    else [queue[0]] + Without(queue[1..], p)
  }

  lemma {:induction false} WithoutAt(queue: seq<Process>, k: nat)
    requires NoDuplicates(queue) && k < |queue|
    ensures Without(queue, queue[k]) == queue[..k] + queue[k + 1..]
  {
    if k > 0 {
      var rest := queue[1..];
      WithoutAt(rest, k - 1);
      assert rest[..k - 1] == queue[1..k] && rest[k..] == queue[k + 1..];
      assert [queue[0]] + queue[1..k] == queue[..k];
    }
  }

  lemma {:induction false} WithoutNone(queue: seq<Process>, p: Process)
    requires p !in queue
    ensures Without(queue, p) == queue
  {
    if queue != [] {
      WithoutNone(queue[1..], p);
    }
  }

  lemma DropKeepsDistinct(queue: seq<Process>, k: nat)
    requires NoDuplicates(queue) && k < |queue|
    ensures NoDuplicates(queue[..k] + queue[k + 1..])
    ensures var rest := queue[..k] + queue[k + 1..];
      && (forall i | 0 <= i < k :: rest[i] == queue[i]) && (forall i | k <= i < |rest| :: rest[i] == queue[i + 1])
      && forall p: Process | p in rest :: p in queue && p != queue[k]
  {
    var rest := queue[..k] + queue[k + 1..];
    assert forall i | 0 <= i < |rest| :: rest[i] == queue[if i < k then i else i + 1];
  }

  class Scheduler {
    var current: Process?
    var head: Process?
    var tail: Process?
    ghost var queue: seq<Process>

    /** The linked ready queue represents `queue`. */
    ghost predicate Valid()
      reads this, queue
    {
      && NoDuplicates(queue) && Linked(queue)
      && head == At(queue, 0) && tail == At(queue, |queue| - 1)
      && (current != null ==> current !in queue)
    }

    /** Queued processes have a fresh slice. */
    ghost predicate Fresh()
      reads this, queue
    {
      forall p | p in queue :: p.timeUsed == 0
    }

    ghost function Viewed(): View
      requires current != null
      reads this, current
    {
      View(current, current.timeUsed, queue)
    }

    constructor ()
      ensures Valid() && queue == [] && current == null
    {
      current, head, tail, queue := null, null, null, [];
    }

    /** scheduler_add, of a process that is not queued and does not run. */
    method Add(p: Process)
      requires Valid() && p !in queue && p != current
      modifies this`head, this`tail, this`queue, p`state, p`next, queue`next
      ensures Valid() && queue == old(queue) + [p] && p.state == Ready
      ensures old(Fresh()) && p.timeUsed == 0 ==> Fresh()
      ensures current != null ==> Viewed() == Step(old(Viewed()), Arrive(p))
    {
      Append(p);
    }

    method Append(p: Process)
      requires NoDuplicates(queue) && Linked(queue) && head == At(queue, 0) && tail == At(queue, |queue| - 1)
      requires p !in queue
      modifies this`head, this`tail, this`queue, p`state, p`next, queue`next
      ensures NoDuplicates(queue) && Linked(queue) && head == At(queue, 0) && tail == At(queue, |queue| - 1)
      ensures queue == old(queue) + [p] && p.state == Ready
    {
      p.state := Ready;
      p.next := null;
      ghost var before := queue;
      if tail == null {
        head := p;
        tail := p;
      } else {
        tail.next := p;
        tail := p;
      }
      queue := queue + [p];
      forall i: nat | i < |queue| ensures Link(queue, i) {
        if i < |before| {
          assert old(Link(before, i));
        }
      }
    }

    /** scheduler_next. */
    method Next() returns (p: Process?)
      requires Valid()
      modifies this`head, this`tail, this`queue, queue`next
      ensures Valid() && p == At(old(queue), 0)
      ensures queue == if p == null then old(queue) else old(queue)[1..]
    {
      if head == null {
        return null;
      }
      p := head;
      ghost var before := queue;
      assert Link(queue, 0);
      head := head.next;
      if head == null {
        tail := null;
      }
      p.next := null;
      queue := queue[1..];
      forall i: nat | i < |queue| ensures Link(queue, i) {
        assert old(Link(before, i + 1));
      }
    }

    /** scheduler_remove. A process that is not queued only loses its link. */
    method Remove(p: Process)
      requires Valid()
      modifies this`head, this`tail, this`queue, p`next, queue`next
      ensures Valid() && queue == Without(old(queue), p) && p.next == null
    {
      if head == p {
        RemoveHead(p);
      } else {
        var prev, k := FindBefore(p);
        if prev != null {
          RemoveAfter(prev, p, k);
        } else {
          WithoutNone(queue, p);
          p.next := null;
          forall i: nat | i < |queue| ensures Link(queue, i) {
            assert old(Link(queue, i));
          }
        }
      }
    }

    method RemoveHead(p: Process)
      requires Valid() && head == p
      modifies this`head, this`tail, this`queue, p`next, queue`next
      ensures Valid() && queue == Without(old(queue), p) && p.next == null
    {
      ghost var before := queue;
      assert Link(queue, 0);
      head := p.next;
      if head == null {
        tail := null;
      }
      queue := queue[1..];
      p.next := null;
      forall i: nat | i < |queue| ensures Link(queue, i) {
        assert old(Link(before, i + 1));
      }
    }

    method RemoveAfter(prev: Process, p: Process, ghost k: nat)
      requires Valid() && k + 1 < |queue| && queue[k] == prev && queue[k + 1] == p
      modifies this`head, this`tail, this`queue, p`next, queue`next
      ensures Valid() && queue == Without(old(queue), p) && p.next == null
    {
      ghost var before := queue;
      assert Link(queue, k) && Link(queue, k + 1);
      WithoutAt(queue, k + 1);
      DropKeepsDistinct(queue, k + 1);
      prev.next := p.next;
      if tail == p {
        tail := prev;
      }
      queue := queue[..k + 1] + queue[k + 2..];
      p.next := null;
      forall i: nat | i < |queue| ensures Link(queue, i) {
        if i < k {
          assert old(Link(before, i)) && queue[i] == before[i] && before[i] != prev && before[i] != p;
        } else if i == k {
          assert queue[i] == prev && At(queue, i + 1) == At(before, k + 2);
        } else {
          assert old(Link(before, i + 1)) && queue[i] == before[i + 1] && before[i + 1] != prev && before[i + 1] != p;
        }
      }
    }

    /** The loop of scheduler_remove: the process in front of `p`, if `p` is queued. */
    method FindBefore(p: Process) returns (prev: Process?, ghost k: nat)
      requires Valid() && head != p
      ensures prev == null <==> p !in queue
      ensures prev != null ==> k + 1 < |queue| && queue[k] == prev && queue[k + 1] == p
    {
      prev := head;
      k := 0;
      while prev != null && prev.next != p
        invariant k <= |queue| && prev == At(queue, k) && forall i | 0 <= i <= k && i < |queue| :: queue[i] != p
        decreases |queue| - k
      {
        assert Link(queue, k);
        prev := prev.next;
        k := k + 1;
      }
      if prev != null {
        assert Link(queue, k);
      }
    }

    /** process_switch, apart from the switch of the processor state. */
    method Switch(next: Process?)
      modifies this`current
      ensures current == if next == null then old(current) else next
    {
      if next == null || next == current {
        return;
      }
      current := next;
    }

    /** scheduler_tick. */
    method Tick()
      requires Valid()
      modifies this, current, queue
      ensures Valid()
      ensures old(current) == null ==> current == null && queue == old(queue)
      ensures old(current) != null ==> var u := (old(current.timeUsed) + 1) % TICK_SPAN;
        if u >= old(current).timeSlice && old(queue) != [] then
          && current == old(queue)[0] && queue == old(queue)[1..] + [old(current)]
          && old(current).timeUsed == 0
        else
          current == old(current) && queue == old(queue) && current.timeUsed == u
      ensures forall p | p in old(queue) :: p.timeUsed == old(p.timeUsed)
      ensures old(current) != null && old(Fresh()) ==> Fresh() && Viewed() == TickOf(old(Viewed()))
    {
      if current == null {
        return;
      }
      current.timeUsed := (current.timeUsed + 1) % TICK_SPAN;
      if current.timeUsed >= current.timeSlice {
        var next := Next();
        if next != null {
          current.timeUsed := 0;
          Append(current);
          Switch(next);
        }
      }
    }
  }

  /** What the round robin is about: who runs, how much of its slice it has used, and who waits with a fresh slice. */
  datatype View = View(current: Process, used: Word, queue: seq<Process>)

  /** The next tick ends the turn of the running process. */
  predicate Switches(v: View) {
    (v.used + 1) % TICK_SPAN >= v.current.timeSlice && v.queue != []
  }

  /** A timer tick. */
  function TickOf(v: View): View {
    if Switches(v) then View(v.queue[0], 0, v.queue[1..] + [v.current]) else v.(used := (v.used + 1) % TICK_SPAN)
  }

  datatype Event = Tick | Arrive(p: Process)

  function Step(v: View, e: Event): View {
    match e
    case Tick => TickOf(v)
    case Arrive(p) => v.(queue := v.queue + [p])
  }

  function Run(v: View, events: seq<Event>): View
    decreases |events|
  {
    if events == [] then v else Run(Step(v, events[0]), events[1..])
  }

  function Ticks(events: seq<Event>): nat {
    if events == [] then 0 else (if events[0].Tick? then 1 else 0) + Ticks(events[1..])
  }

  function Arrivals(events: seq<Event>): multiset<Process> {
    if events == [] then multiset{}
    else (if events[0].Arrive? then multiset{events[0].p} else multiset{}) + Arrivals(events[1..])
  }

  function Everyone(v: View): multiset<Process> {
    multiset{v.current} + multiset(v.queue)
  }

  lemma StepLosesNobody(v: View, e: Event)
    ensures Everyone(Step(v, e)) == Everyone(v) + Arrivals([e])
  {
    assert Arrivals([e]) == if e.Arrive? then multiset{e.p} else multiset{};
    if e.Tick? && Switches(v) {
      assert v.queue == [v.queue[0]] + v.queue[1..];
    }
  }

  /** No process is lost or duplicated over any run. */
  lemma {:induction false} NobodyLost(v: View, events: seq<Event>)
    ensures Everyone(Run(v, events)) == Everyone(v) + Arrivals(events)
    decreases |events|
  {
    if events != [] {
      StepLosesNobody(v, events[0]);
      NobodyLost(Step(v, events[0]), events[1..]);
    }
  }

  /** The ticks after which the running process is replaced: the rest of its slice, at least one. When time_used is
      at its maximum, the next tick wraps it to zero and a whole slice follows. */
  function FirstWait(v: View): nat {
    if v.used == TICK_SPAN - 1 then 1 + v.current.timeSlice
    else if v.current.timeSlice > v.used + 1 then v.current.timeSlice - v.used
    else 1
  }

  function Slices(queue: seq<Process>): nat {
    if queue == [] then 0 else queue[0].timeSlice + Slices(queue[1..])
  }

  /** The exact wait of the process at position `i`. */
  function Wait(v: View, i: nat): nat
    requires i < |v.queue|
  {
    FirstWait(v) + Slices(v.queue[..i])
  }

  ghost predicate SlicesPositive(v: View, i: nat)
    requires i < |v.queue|
  {
    v.current.timeSlice > 0 && forall k | 0 <= k < i :: v.queue[k].timeSlice > 0
  }

  /** One tick shortens the wait of a process by one, or makes it the running one when that was the last tick. */
  lemma TickWait(v: View, i: nat)
    requires i < |v.queue| && SlicesPositive(v, i)
    ensures var v' := TickOf(v);
      if Wait(v, i) == 1 then i == 0 && v'.current == v.queue[i]
      else
        var j := if Switches(v) then i - 1 else i;
        && 0 <= j < |v'.queue| && v'.queue[j] == v.queue[i] && SlicesPositive(v', j) && Wait(v', j) == Wait(v, i) - 1
  {
    var v' := TickOf(v);
    if Switches(v) && i > 0 {
      assert v.queue[..i][1..] == v'.queue[..i - 1];
      assert forall k | 0 <= k < i - 1 :: v'.queue[k] == v.queue[k + 1];
    }
  }

  /** Without ticks nobody's turn comes. */
  lemma {:induction false} NoTicks(v: View, events: seq<Event>)
    requires Ticks(events) == 0
    ensures Run(v, events).current == v.current && forall p | p in v.queue :: p in Run(v, events).queue
    decreases |events|
  {
    if events != [] {
      NoTicks(Step(v, events[0]), events[1..]);
    }
  }

  /** Round robin has exact bounded waiting, whatever arrives meanwhile: the process at position `i` is still queued
      as long as fewer than Wait ticks have passed, and it runs after exactly that many. */
  lemma {:induction false} ExactWait(v: View, i: nat, events: seq<Event>)
    requires i < |v.queue| && SlicesPositive(v, i)
    ensures Ticks(events) < Wait(v, i) ==> v.queue[i] in Run(v, events).queue
    ensures Ticks(events) == Wait(v, i) ==> Run(v, events).current == v.queue[i]
    decreases |events|
  {
    if events != [] {
      var v', rest := Step(v, events[0]), events[1..];
      if events[0].Arrive? {
        assert v'.queue[..i] == v.queue[..i];
        ExactWait(v', i, rest);
      } else {
        TickWait(v, i);
        if Wait(v, i) > 1 {
          ExactWait(v', if Switches(v) then i - 1 else i, rest);
        } else if Ticks(rest) == 0 {
          NoTicks(v', rest);
        }
      }
    }
  }

  /** With equal slices S the wait is max(1, S - used) + i * S, exactly unless the running process has used all
      2^32 - 1 ticks its counter can hold; then it is 1 + S + i * S. */
  lemma EqualSlices(v: View, i: nat, s: nat)
    requires i < |v.queue| && s > 0 && v.current.timeSlice == s && forall k | 0 <= k < i :: v.queue[k].timeSlice == s
    ensures Wait(v, i) == (if v.used == TICK_SPAN - 1 then 1 + s else if s - v.used > 1 then s - v.used else 1) + i * s
    ensures Wait(v, i) == (if s - v.used > 1 then s - v.used else 1) + i * s <==> v.used != TICK_SPAN - 1
  {
    SlicesAdd(v.queue[..i], s);
  }

  /** With slices of 10 ticks and a running process that has used 2^32 - 1, the next one waits 11 ticks instead of 1. */
  lemma CounterLimitWaits(v: View)
    requires v.used == TICK_SPAN - 1 && v.queue != []
    requires v.current.timeSlice == 10 && v.queue[0].timeSlice == 10
    ensures Wait(v, 0) == 11
  {
    EqualSlices(v, 0, 10);
  }

  lemma {:induction false} SlicesAdd(queue: seq<Process>, s: nat)
    requires forall k | 0 <= k < |queue| :: queue[k].timeSlice == s
    ensures Slices(queue) == |queue| * s
  {
    if queue != [] {
      SlicesAdd(queue[1..], s);
      assert |queue| * s == (|queue| - 1) * s + s;
    }
  }
}
