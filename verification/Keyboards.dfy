/** The keyboard ring buffer of kernel/drivers/keyboard.c: the interrupt handler produces, getc consumes, and the
    handler may run between any two statements of getc. */
module Keyboards {
  import opened Arith
  import opened Bytes

  const KEY_BUFFER_SIZE := 256

  /** Where getc stands: in its wait loop, behind it, or holding a key after tail++, after the wrap of tail, after
      size--. */
  datatype Phase = Waiting | Ready | Taken(key: byte) | Wrapped(key: byte) | Released(key: byte)

  datatype State = State(buffer: seq<byte>, head: nat, tail: nat, size: nat, shift: bool, phase: Phase)

  /** The three counters are unsigned chars. */
  ghost predicate WellTyped(s: State) {
    |s.buffer| == KEY_BUFFER_SIZE && s.head < 256 && s.tail < 256 && s.size < 256
  }

  /** x as an unsigned char */
  function Uchar(x: nat): (u: nat)
    ensures u < 256
  {
    Rem(x, 256)
  }

  /** size-- on an unsigned char */
  function Decremented(x: nat): (u: nat)
    ensures u < 256
  {
    Uchar(x + 255)
  }

  type Keymap = (byte, bool) -> byte

  /** The scan codes that reach the buffer: a pressed key other than shift, with the status register not zero. */
  predicate IsKey(status: byte, scan: byte) {
    status != 0 && scan < 0x80 && scan != 0x2a && scan != 0x36
  }

  /** keyboard_handler. The overflow guard compares an unsigned char with 256. */
  function Handler(keymap: Keymap, s: State, status: byte, scan: byte): (r: State)
    requires WellTyped(s)
    ensures WellTyped(r)
  {
    if status == 0 then s
    else if scan >= 0x80 then
      if scan == 0xaa || scan == 0xb6 then s.(shift := false) else s
    else if scan == 0x2a || scan == 0x36 then s.(shift := true)
    else if s.size >= KEY_BUFFER_SIZE then s
    else s.(buffer := s.buffer[s.head := keymap(scan, s.shift)], head := Uchar(s.head + 1), size := Uchar(s.size + 1))
  }

  /** The next statement of getc. */
  function GetcStep(s: State): (r: State)
    requires WellTyped(s)
    ensures WellTyped(r)
  {
    match s.phase
    case Waiting => if s.size == 0 then s else s.(phase := Ready)
    case Ready => s.(phase := Taken(s.buffer[s.tail]), tail := Uchar(s.tail + 1))
    case Taken(key) => s.(phase := Wrapped(key), tail := Rem(s.tail, KEY_BUFFER_SIZE))
    case Wrapped(key) => s.(phase := Released(key), size := Decremented(s.size))
    case Released(_) => s.(phase := Waiting)
  }

  // ----- the queue behind the ring -----

  /** A key has left the ring and size does not say so yet. */
  function InProgress(s: State): nat {
    if s.phase.Taken? || s.phase.Wrapped? then 1 else 0
  }

  function Held(s: State): seq<byte> {
    if s.phase.Waiting? || s.phase.Ready? then [] else [s.phase.key]
  }

  /** The slots from tail on hold the keys q. */
  ghost predicate RingHolds(s: State, q: seq<byte>)
    requires WellTyped(s)
  {
    forall i {:trigger q[i]} :: 0 <= i < |q| ==> s.buffer[Uchar(s.tail + i)] == q[i]
  }

  /** The ring holds the keys q, oldest first; getc leaves its wait loop only when there is one. */
  ghost predicate Refines(s: State, q: seq<byte>) {
    && WellTyped(s)
    && |q| <= 255
    && (s.phase == Ready ==> q != [])
    && s.head == Uchar(s.tail + |q|)
    && s.size == Uchar(|q| + InProgress(s))
    && RingHolds(s, q)
  }

  lemma SlotsDiffer(tail: nat, i: nat, n: nat)
    requires tail < 256 && i < n <= 255
    ensures Uchar(tail + i) != Uchar(tail + n)
  {
    QuotRem(tail + i, 256);
    QuotRem(tail + n, 256);
    var a, b := Quot(tail + i, 256), Quot(tail + n, 256);
    TimesIsProduct(a, 256);
    TimesIsProduct(b, 256);
  }

  lemma UcharAdd(x: nat, y: nat)
    ensures Uchar(Uchar(x) + y) == Uchar(x + y)
  {
    QuotRem(x, 256);
    QuotRem(Uchar(x) + y, 256);
    TimesAdd(Quot(x, 256), Quot(Uchar(x) + y, 256), 256);
    QuotRemUnique(x + y, 256, Quot(x, 256) + Quot(Uchar(x) + y, 256), Uchar(Uchar(x) + y));
  }

  /** A key goes into the slot behind the keys q, of which there are at most 255. */
  lemma HandlerStores(keymap: Keymap, s: State, q: seq<byte>, status: byte, scan: byte)
    requires Refines(s, q) && IsKey(status, scan)
    ensures var r := Handler(keymap, s, status, scan);
            && RingHolds(r, q + [keymap(scan, s.shift)])
            && r.head == Uchar(s.tail + |q| + 1) && r.size == Uchar(s.size + 1)
  {
    var r, longer := Handler(keymap, s, status, scan), q + [keymap(scan, s.shift)];
    UcharAdd(s.tail + |q|, 1);
    forall i {:trigger longer[i]} | 0 <= i < |longer| ensures r.buffer[Uchar(s.tail + i)] == longer[i] {
      if i < |q| {
        SlotsDiffer(s.tail, i, |q|);
        assert longer[i] == q[i];
      }
    }
  }

  /** A key that arrives with room left goes to the end of the queue, wherever getc stands; other codes leave the
      queue alone. */
  lemma HandlerRefines(keymap: Keymap, s: State, q: seq<byte>, status: byte, scan: byte)
    requires Refines(s, q)
    requires IsKey(status, scan) ==> |q| < 255
    ensures Refines(Handler(keymap, s, status, scan), if IsKey(status, scan) then q + [keymap(scan, s.shift)] else q)
  {
    if IsKey(status, scan) {
      HandlerStores(keymap, s, q, status, scan);
      UcharAdd(|q| + InProgress(s), 1);
    }
  }

  lemma TakeMovesRing(s: State, q: seq<byte>)
    requires WellTyped(s) && q != [] && RingHolds(s, q) && s.phase == Ready
    ensures GetcStep(s).phase == Taken(q[0]) && RingHolds(GetcStep(s), q[1..])
  {
    var rest := q[1..];
    assert s.buffer[Uchar(s.tail + 0)] == q[0];
    forall i {:trigger rest[i]} | 0 <= i < |rest| ensures s.buffer[Uchar(Uchar(s.tail + 1) + i)] == rest[i] {
      UcharAdd(s.tail + 1, i);
      assert rest[i] == q[i + 1];
    }
  }

  lemma TakeRefines(s: State, q: seq<byte>)
    requires Refines(s, q) && s.phase == Ready
    ensures GetcStep(s).phase == Taken(q[0]) && Refines(GetcStep(s), q[1..])
  {
    TakeMovesRing(s, q);
    UcharAdd(s.tail + 1, |q[1..]|);
  }

  /** getc takes the oldest key once it has left its wait loop, which it does when there is a key; its other
      statements leave the queue alone. */
  lemma GetcRefines(s: State, q: seq<byte>)
    requires Refines(s, q)
    ensures s.phase == Waiting ==> GetcStep(s) == if q == [] then s else s.(phase := Ready)
    ensures s.phase == Ready ==> GetcStep(s).phase == Taken(q[0]) && Refines(GetcStep(s), q[1..])
    ensures s.phase != Ready ==> Refines(GetcStep(s), q)
  {
    if s.phase == Ready {
      TakeRefines(s, q);
    }
    if s.phase.Wrapped? {
      UcharAdd(|q| + 1, 255);
      UcharAdd(|q| + 256, 0);
    }
  }

  // ----- the 256th key -----

  function StatementsLeft(phase: Phase): nat {
    match phase
    case Waiting => 0
    case Ready => 4
    case Taken(_) => 3
    case Wrapped(_) => 2
    case Released(_) => 1
  }

  /** getc run alone up to its next test of size. */
  function Finish(s: State): (r: State)
    requires WellTyped(s)
    ensures WellTyped(r) && r.phase == Waiting
    decreases StatementsLeft(s.phase)
  {
    if s.phase == Waiting then s else Finish(GetcStep(s))
  }

  /** The keys left when a getc that holds the keys q in the ring is finished. */
  function AfterFinish(s: State, q: seq<byte>): seq<byte>
    requires s.phase == Ready ==> q != []
  {
    if s.phase == Ready then q[1..] else q
  }

  lemma {:induction false} FinishRefines(s: State, q: seq<byte>)
    requires Refines(s, q)
    ensures Refines(Finish(s), AfterFinish(s, q))
    decreases StatementsLeft(s.phase)
  {
    if s.phase != Waiting {
      GetcRefines(s, q);
      FinishRefines(GetcStep(s), AfterFinish(s, q));
    }
  }

  /** What finishing getc does to tail and size; the slots keep their keys. */
  lemma FinishCounts(s: State)
    requires WellTyped(s)
    ensures var w := Finish(s);
            && w.buffer == s.buffer
            && w.tail == (if s.phase == Ready then Uchar(s.tail + 1) else s.tail)
            && w.size == (if s.phase == Waiting || s.phase.Released? then s.size else Decremented(s.size))
  {
    if s.phase == Ready {
      FinishTaken(GetcStep(s));
    } else if s.phase.Taken? {
      FinishTaken(s);
    } else if s.phase.Wrapped? {
      FinishWrapped(s);
    }
  }

  lemma FinishWrapped(s: State)
    requires WellTyped(s) && s.phase.Wrapped?
    ensures var w := Finish(s); w.buffer == s.buffer && w.tail == s.tail && w.size == Decremented(s.size)
  {
    var u := GetcStep(s);
    assert Finish(u) == GetcStep(u);
    assert Finish(s) == Finish(u);
  }

  lemma FinishTaken(s: State)
    requires WellTyped(s) && s.phase.Taken?
    ensures var w := Finish(s); w.buffer == s.buffer && w.tail == s.tail && w.size == Decremented(s.size)
  {
    FinishWrapped(GetcStep(s));
  }

  /** A getc that has left its wait loop makes room for the 256th key in time. */
  lemma ReadyAbsorbs(keymap: Keymap, s: State, q: seq<byte>, status: byte, scan: byte)
    requires Refines(s, q) && s.phase == Ready && |q| == 255 && IsKey(status, scan)
    ensures Refines(Finish(Handler(keymap, s, status, scan)), q[1..] + [keymap(scan, s.shift)])
  {
    var r, longer := Handler(keymap, s, status, scan), q + [keymap(scan, s.shift)];
    HandlerStores(keymap, s, q, status, scan);
    TakeMovesRing(r, longer);
    var t := GetcStep(r);
    assert longer[1..] == q[1..] + [keymap(scan, s.shift)];
    UcharAdd(s.tail + 1, 255);
    assert t.size == Uchar(255 + InProgress(t));
    assert Refines(t, longer[1..]);
    FinishRefines(t, longer[1..]);
  }

  lemma OverflowSticks(keymap: Keymap, s: State, q: seq<byte>, status: byte, scan: byte)
    requires Refines(s, q) && s.phase != Ready && |q| == 255 && IsKey(status, scan)
    ensures var w := Finish(Handler(keymap, s, status, scan));
            w.size == 0 && RingHolds(w, q + [keymap(scan, s.shift)])
  {
    var r := Handler(keymap, s, status, scan);
    HandlerStores(keymap, s, q, status, scan);
    FinishCounts(r);
  }

  /** The overflow guard never fires. Run getc alone after a key arrives, up to its next test of size: it waits there
      although the ring holds keys if and only if the ring was holding 255 keys and getc had not left its wait loop.
      In every other case the queue is intact and the key at its end. */
  lemma OverflowExactly(keymap: Keymap, s: State, q: seq<byte>, status: byte, scan: byte)
    requires Refines(s, q) && IsKey(status, scan)
    ensures !(s.size >= KEY_BUFFER_SIZE)
    ensures var w, longer := Finish(Handler(keymap, s, status, scan)), q + [keymap(scan, s.shift)];
            var full := |q| == 255 && s.phase != Ready;
            && RingHolds(w, AfterFinish(s, longer)) && AfterFinish(s, longer) != []
            && (GetcStep(w) == w <==> full)
            && (!full ==> Refines(w, AfterFinish(s, longer)))
  {
    var r, longer := Handler(keymap, s, status, scan), q + [keymap(scan, s.shift)];
    if |q| < 255 {
      HandlerRefines(keymap, s, q, status, scan);
      FinishRefines(r, longer);
    } else if s.phase == Ready {
      ReadyAbsorbs(keymap, s, q, status, scan);
      assert longer[1..] == q[1..] + [keymap(scan, s.shift)];
    } else {
      OverflowSticks(keymap, s, q, status, scan);
    }
  }

  // ----- whole runs -----

  datatype Event = Interrupt(status: byte, scan: byte) | GetcStatement

  /** A state with the keys that arrived and the keys getc returned so far. */
  datatype Log = Log(state: State, arrived: seq<byte>, delivered: seq<byte>)

  function LogStep(keymap: Keymap, log: Log, e: Event): (r: Log)
    requires WellTyped(log.state)
    ensures WellTyped(r.state)
  {
    match e
    case Interrupt(status, scan) =>
      Log(Handler(keymap, log.state, status, scan),
          if IsKey(status, scan) then log.arrived + [keymap(scan, log.state.shift)] else log.arrived,
          log.delivered)
    case GetcStatement =>
      Log(GetcStep(log.state), log.arrived,
          if log.state.phase.Released? then log.delivered + [log.state.phase.key] else log.delivered)
  }

  function Play(keymap: Keymap, log: Log, events: seq<Event>): (r: Log)
    requires WellTyped(log.state)
    ensures WellTyped(r.state)
  {
    if events == [] then log
    else LogStep(keymap, Play(keymap, log, events[..|events| - 1]), events[|events| - 1])
  }

  /** Keys that arrived and that getc has not yet taken out of the ring. */
  function Backlog(log: Log): int {
    |log.arrived| - |log.delivered| - |Held(log.state)|
  }

  function Pending(log: Log): seq<byte>
    requires 0 <= Backlog(log)
  {
    log.arrived[|log.arrived| - Backlog(log)..]
  }

  /** What has been returned, what getc holds and what the ring holds are together what arrived, in order. */
  ghost predicate Fifo(log: Log) {
    && 0 <= Backlog(log)
    && log.arrived == log.delivered + Held(log.state) + Pending(log)
    && Refines(log.state, Pending(log))
  }

  lemma FifoWith(log: Log, q: seq<byte>)
    requires log.arrived == log.delivered + Held(log.state) + q && Refines(log.state, q)
    ensures Fifo(log) && Pending(log) == q
  {}

  lemma FifoInterrupt(keymap: Keymap, log: Log, status: byte, scan: byte)
    requires Fifo(log) && Backlog(LogStep(keymap, log, Interrupt(status, scan))) <= 255
    ensures Fifo(LogStep(keymap, log, Interrupt(status, scan)))
  {
    var q, next := Pending(log), LogStep(keymap, log, Interrupt(status, scan));
    HandlerRefines(keymap, log.state, q, status, scan);
    if IsKey(status, scan) {
      var key := keymap(scan, log.state.shift);
      assert next.arrived == log.delivered + Held(log.state) + (q + [key]);
      FifoWith(next, q + [key]);
    } else {
      FifoWith(next, q);
    }
  }

  lemma FifoTake(keymap: Keymap, log: Log, q: seq<byte>)
    requires log.state.phase == Ready && Refines(log.state, q) && log.arrived == log.delivered + q
    ensures Fifo(LogStep(keymap, log, GetcStatement))
  {
    TakeRefines(log.state, q);
    var next := LogStep(keymap, log, GetcStatement);
    assert q == [q[0]] + q[1..];
    assert next.arrived == log.delivered + [q[0]] + q[1..];
    FifoWith(next, q[1..]);
  }

  /** getc returns the key it holds. */
  lemma FifoReturn(keymap: Keymap, log: Log, q: seq<byte>)
    requires log.state.phase.Released? && Refines(log.state, q)
    requires log.arrived == log.delivered + [log.state.phase.key] + q
    ensures Fifo(LogStep(keymap, log, GetcStatement))
  {
    GetcRefines(log.state, q);
    var next := LogStep(keymap, log, GetcStatement);
    assert next.arrived == next.delivered + Held(next.state) + q;
    FifoWith(next, q);
  }

  /** getc neither takes nor returns a key. */
  lemma FifoStay(keymap: Keymap, log: Log, q: seq<byte>)
    requires !log.state.phase.Ready? && !log.state.phase.Released? && Refines(log.state, q)
    requires log.arrived == log.delivered + Held(log.state) + q
    ensures Fifo(LogStep(keymap, log, GetcStatement))
  {
    GetcRefines(log.state, q);
    var next := LogStep(keymap, log, GetcStatement);
    assert next.delivered == log.delivered && Held(next.state) == Held(log.state);
    FifoWith(next, q);
  }

  lemma FifoGetc(keymap: Keymap, log: Log)
    requires Fifo(log)
    ensures Fifo(LogStep(keymap, log, GetcStatement))
  {
    var q := Pending(log);
    match log.state.phase
    case Ready =>
      assert log.arrived == log.delivered + q;
      FifoTake(keymap, log, q);
    case Released(_) => FifoReturn(keymap, log, q);
    case _ => FifoStay(keymap, log, q);
  }

  lemma FifoStep(keymap: Keymap, log: Log, e: Event)
    requires Fifo(log) && Backlog(LogStep(keymap, log, e)) <= 255
    ensures Fifo(LogStep(keymap, log, e))
  {
    match e
    case Interrupt(status, scan) => FifoInterrupt(keymap, log, status, scan);
    case GetcStatement => FifoGetc(keymap, log);
  }

  lemma FifoDelivers(log: Log)
    requires Fifo(log)
    ensures log.delivered <= log.arrived
    ensures log.state.size == Uchar(Backlog(log) + InProgress(log.state))
  {
    assert log.arrived == log.delivered + (Held(log.state) + Pending(log));
  }

  /** At no point of the run are there more than 255 keys that getc has not taken. */
  ghost predicate Bounded(keymap: Keymap, log: Log, events: seq<Event>)
    requires WellTyped(log.state)
  {
    && Backlog(Play(keymap, log, events)) <= 255
    && (events != [] ==> Bounded(keymap, log, events[..|events| - 1]))
  }

  lemma {:induction false} RunKeepsFifo(keymap: Keymap, log: Log, events: seq<Event>)
    requires Fifo(log) && Bounded(keymap, log, events)
    ensures Fifo(Play(keymap, log, events))
  {
    if events != [] {
      var n := |events| - 1;
      RunKeepsFifo(keymap, log, events[..n]);
      FifoStep(keymap, Play(keymap, log, events[..n]), events[n]);
    }
  }

  /** Over any interleaving in which the backlog never exceeds 255, keys come out in arrival order, none lost and none
      repeated, and size is the number of keys in the ring but for a getc in progress. */
  lemma RunIsFifo(keymap: Keymap, log: Log, events: seq<Event>)
    requires Fifo(log) && Bounded(keymap, log, events)
    ensures var end := Play(keymap, log, events);
            && Fifo(end)
            && end.delivered <= end.arrived
            && end.state.size == Uchar(Backlog(end) + InProgress(end.state))
  {
    RunKeepsFifo(keymap, log, events);
    FifoDelivers(Play(keymap, log, events));
  }

  // ----- what the user typed -----

  predicate PressesShift(e: Event) {
    e.Interrupt? && e.status != 0 && (e.scan == 0x2a || e.scan == 0x36)
  }

  predicate ReleasesShift(e: Event) {
    e.Interrupt? && e.status != 0 && (e.scan == 0xaa || e.scan == 0xb6)
  }

  /** Shift is down after the events: it was pressed, or down before, and not released since. */
  ghost predicate ShiftDown(before: bool, events: seq<Event>) {
    || (before && forall j :: 0 <= j < |events| ==> !ReleasesShift(events[j]))
    || exists k :: 0 <= k < |events| && PressesShift(events[k]) &&
         forall j :: k < j < |events| ==> !ReleasesShift(events[j])
  }

  /** The characters the events stand for: of every key other than shift, as shift was down before it. */
  ghost function Typed(keymap: Keymap, before: bool, events: seq<Event>): seq<byte> {
    if events == [] then []
    else
      var earlier, e := events[..|events| - 1], events[|events| - 1];
      Typed(keymap, before, earlier) +
      (if e.Interrupt? && e.status != 0 && e.scan < 0x80 && e.scan != 0x2a && e.scan != 0x36
       then [keymap(e.scan, ShiftDown(before, earlier))] else [])
  }

  lemma ShiftAfter(before: bool, earlier: seq<Event>, e: Event)
    ensures ShiftDown(before, earlier + [e]) == (PressesShift(e) || (!ReleasesShift(e) && ShiftDown(before, earlier)))
  {
    var events := earlier + [e];
    assert forall j :: 0 <= j < |earlier| ==> events[j] == earlier[j];
    assert events[|earlier|] == e;
    if k :| 0 <= k < |earlier| && PressesShift(earlier[k]) && !ReleasesShift(e) &&
            forall j :: k < j < |earlier| ==> !ReleasesShift(earlier[j]) {
      assert PressesShift(events[k]);
    }
  }

  lemma EventTypes(keymap: Keymap, log: Log, e: Event)
    requires WellTyped(log.state)
    ensures var next := LogStep(keymap, log, e);
            && next.state.shift == (PressesShift(e) || (!ReleasesShift(e) && log.state.shift))
            && next.arrived ==
               log.arrived +
               (if e.Interrupt? && e.status != 0 && e.scan < 0x80 && e.scan != 0x2a && e.scan != 0x36
                then [keymap(e.scan, log.state.shift)] else [])
  {}

  /** Over any run, the driver's shift is the user's, and what arrives is what was typed. */
  lemma {:induction false} RunTypes(keymap: Keymap, log: Log, events: seq<Event>)
    requires WellTyped(log.state)
    ensures Play(keymap, log, events).state.shift == ShiftDown(log.state.shift, events)
    ensures Play(keymap, log, events).arrived == log.arrived + Typed(keymap, log.state.shift, events)
  {
    if events != [] {
      var earlier, e := events[..|events| - 1], events[|events| - 1];
      RunTypes(keymap, log, earlier);
      ShiftAfter(log.state.shift, earlier, e);
      EventTypes(keymap, Play(keymap, log, earlier), e);
      assert events == earlier + [e];
    }
  }

  /** So from the initial state on getc returns what was typed, in that order, as long as at most 255 keys wait. */
  lemma GetcReturnsTyped(keymap: Keymap, log: Log, events: seq<Event>)
    requires Untaken(log, 0) && !log.state.shift && Bounded(keymap, log, events)
    ensures Play(keymap, log, events).delivered <= Typed(keymap, false, events)
    ensures var end := Play(keymap, log, events);
            && Fifo(end)
            && Typed(keymap, false, events) == end.delivered + Held(end.state) + Pending(end)
  {
    RunIsFifo(keymap, log, events);
    RunTypes(keymap, log, events);
    assert log.arrived == [];
  }

  // ----- the overflow happens -----

  datatype Press = Press(status: byte, scan: byte)

  /** n arrivals of the same scan code. */
  function Presses(press: Press, n: nat): (events: seq<Event>)
    ensures |events| == n
  {
    if n == 0 then [] else Presses(press, n - 1) + [Interrupt(press.status, press.scan)]
  }

  /** getc waits and has returned nothing: all that arrived is in the ring. */
  ghost predicate Untaken(log: Log, n: nat) {
    Fifo(log) && log.state.phase == Waiting && log.delivered == [] && |log.arrived| == n
  }

  lemma UntakenPending(log: Log, n: nat)
    requires Untaken(log, n)
    ensures Refines(log.state, log.arrived)
  {
    assert Pending(log) == log.arrived;
  }

  lemma PressOne(keymap: Keymap, log: Log, press: Press, n: nat)
    requires Untaken(log, n) && n < 255 && IsKey(press.status, press.scan)
    ensures Untaken(LogStep(keymap, log, Interrupt(press.status, press.scan)), n + 1)
  {
    FifoInterrupt(keymap, log, press.status, press.scan);
  }

  /** While getc waits, n keys that nobody takes fill the ring. */
  lemma {:induction false} PressesFill(keymap: Keymap, log: Log, press: Press, n: nat)
    requires Untaken(log, 0) && IsKey(press.status, press.scan) && n <= 255
    ensures Untaken(Play(keymap, log, Presses(press, n)), n)
  {
    if n > 0 {
      PressesFill(keymap, log, press, n - 1);
      var events := Presses(press, n);
      assert events[..|events| - 1] == Presses(press, n - 1);
      PressOne(keymap, Play(keymap, log, Presses(press, n - 1)), press, n - 1);
    }
  }

  /** One key more than limit, which is 255: getc then waits although all of them are there. */
  lemma PressesStick(keymap: Keymap, log: Log, press: Press, limit: nat)
    requires Untaken(log, 0) && IsKey(press.status, press.scan) && limit == 255
    ensures var l := Play(keymap, log, Presses(press, limit + 1));
            && l.state.phase == Waiting && GetcStep(l.state) == l.state
            && l.delivered == [] && |l.arrived| == limit + 1 && RingHolds(l.state, l.arrived)
  {
    PressesFill(keymap, log, press, limit);
    var l := Play(keymap, log, Presses(press, limit));
    UntakenPending(l, limit);
    var events := Presses(press, limit + 1);
    assert events[..|events| - 1] == Presses(press, limit);
    OverflowExactly(keymap, l.state, l.arrived, press.status, press.scan);
  }

  /** A driver that starts anew and receives 256 presses of a key before getc runs is stuck. */
  lemma OverflowHappens(keymap: Keymap, log: Log)
    requires Untaken(log, 0)
    ensures exists events: seq<Event> ::
              && |events| == 256
              && var l := Play(keymap, log, events);
                 && l.state.phase == Waiting && GetcStep(l.state) == l.state
                 && l.delivered == [] && |l.arrived| == 256
  {
    PressesStick(keymap, log, Press(1, 0x1e), 255);
    assert |Presses(Press(1, 0x1e), 255 + 1)| == 256;
  }

  /** keyboard_init: head, tail and shift are reset, size is not. */
  function Reset(s: State): (r: State)
    requires WellTyped(s)
    ensures WellTyped(r)
  {
    s.(head := 0, tail := 0, shift := false)
  }

  /** So a driver initialised again has an empty ring if and only if size said so before, but for a getc in progress. */
  lemma ResetEmptiesExactly(s: State)
    requires WellTyped(s) && s.phase != Ready
    ensures Refines(Reset(s), []) <==> s.size == InProgress(s)
  {
    assert Uchar(0) == 0 && Uchar(1) == 1;
  }

  /** The state after keyboard_init, the ring zeroed as static storage. */
  lemma InitialIsFifo(buffer: seq<byte>)
    requires |buffer| == KEY_BUFFER_SIZE
    ensures Untaken(Log(State(buffer, 0, 0, 0, false, Waiting), [], []), 0)
  {
    FifoWith(Log(State(buffer, 0, 0, 0, false, Waiting), [], []), []);
  }

  // ----- the driver itself -----

  class Keyboard {
    var fifoBuffer: array<byte>
    var head: nat
    var tail: nat
    var size: nat
    var shift: bool
    var phase: Phase

    ghost predicate Valid()
      reads this, fifoBuffer
    {
      fifoBuffer.Length == KEY_BUFFER_SIZE && head < 256 && tail < 256 && size < 256
    }

    ghost function Snapshot(): (s: State)
      requires Valid()
      reads this, fifoBuffer
      ensures WellTyped(s)
    {
      State(fifoBuffer[..], head, tail, size, shift, phase)
    }

    constructor Init()
      ensures Valid() && fresh(fifoBuffer) && !shift
      ensures Untaken(Log(Snapshot(), [], []), 0)
    {
      fifoBuffer := new byte[KEY_BUFFER_SIZE](_ => 0);
      head, tail, size, shift, phase := 0, 0, 0, false, Waiting;
      new;
      assert Snapshot() == State(fifoBuffer[..], 0, 0, 0, false, Waiting);
      InitialIsFifo(fifoBuffer[..]);
    }

    method KeyboardInit()
      requires Valid()
      modifies this
      ensures Valid() && fifoBuffer == old(fifoBuffer)
      ensures Snapshot() == Reset(old(Snapshot()))
      ensures head == 0 && tail == 0 && !shift
      ensures size == old(size) && phase == old(phase) && fifoBuffer[..] == old(fifoBuffer[..])
    {
      head := 0;
      tail := 0;
      shift := false;
    }

    method KeyboardHandler(keymap: Keymap, status: byte, scan: byte)
      requires Valid()
      modifies this, fifoBuffer
      ensures Valid() && fifoBuffer == old(fifoBuffer)
      ensures Snapshot() == Handler(keymap, old(Snapshot()), status, scan)
    {
      if status == 0 {
        return;
      }
      if scan >= 0x80 {
        if scan == 0xaa || scan == 0xb6 {
          shift := false;
        }
        return;
      }
      if scan == 0x2a || scan == 0x36 {
        shift := true;
        return;
      }
      if size >= KEY_BUFFER_SIZE {
        return;
      }
      fifoBuffer[head] := keymap(scan, shift);
      head := Uchar(head + 1);
      head := Rem(head, KEY_BUFFER_SIZE);
      size := Uchar(size + 1);
    }

    /** One statement of getc; key is what it returns when it is done. */
    method GetcStatement() returns (done: bool, key: byte)
      requires Valid()
      modifies this
      ensures Valid() && fifoBuffer == old(fifoBuffer)
      ensures Snapshot() == GetcStep(old(Snapshot()))
      ensures done == old(phase).Released? && (done ==> key == old(phase).key)
    {
      done, key := false, 0;
      match phase
      case Waiting =>
        if size != 0 {
          phase := Ready;
        }
      case Ready =>
        phase := Taken(fifoBuffer[tail]);
        tail := Uchar(tail + 1);
      case Taken(k) =>
        tail := Rem(tail, KEY_BUFFER_SIZE);
        phase := Wrapped(k);
      case Wrapped(k) =>
        size := Decremented(size);
        phase := Released(k);
      case Released(k) =>
        done, key := true, k;
        phase := Waiting;
    }
  }
}
