/** The telecommand ring shared by the UART and CAN interrupt handlers and the processing loop (sample/comms.c). */
module Comms {
  import opened Words

  const CAPACITY := 4
  const COUNT_LIMIT := 0x10000
  const RESET_ID: byte := 114

  datatype Source = Uart | Can

  datatype UartState = WaitForId | WaitForData

  datatype Slot = Slot(id: byte, len: nat, error: nat, processed: bool, params: seq<byte>)

  /** The statement of COMMS_processTCMD that is next. */
  datatype Pc = Test | Advance | CheckError | ClearError | Dispatch | Count | Mark | Resetting

  datatype Ring = Ring(slots: seq<Slot>, read: nat, write: nat, full: bool, uart: UartState, count: nat)

  /** What was taken into the ring, what was handed to its handler and what was turned away. */
  datatype History = History(accepted: seq<byte>, dispatched: seq<byte>, refused: seq<byte>)

  datatype State = State(ring: Ring, pc: Pc, hist: History)

  /** An interrupt with a byte received, or the next statement of the loop. */
  datatype Action = Receive(source: Source, data: byte) | Main

  ghost predicate Initial(s: State) {
    && |s.ring.slots| == CAPACITY && (forall i | 0 <= i < CAPACITY :: s.ring.slots[i].error == 0 && s.ring.slots[i].processed)
    && s.ring.read == s.ring.write == s.ring.count == 0 && !s.ring.full && s.ring.uart == WaitForId
    && s.pc == Test && s.hist == History([], [], [])
  }

  ghost predicate Shape(s: State) {
    |s.ring.slots| == CAPACITY && s.ring.read < CAPACITY && s.ring.write < CAPACITY
  }

  predicate IsTelemetry(data: byte) {
    data >= 0x80
  }

  /** The length of the parameters of a telecommand: none has any. */
  function IdentifyTcmd(id: byte): nat {
    0
  }

  /** Both handlers claim the next slot when it is free; the UART waits for parameters, if there are any. */
  function TakeId(s: State, source: Source, id: byte): (t: State)
    requires Shape(s)
    ensures Shape(t)
  {
    var State(r, pc, h) := s;
    var next := (r.write + 1) % CAPACITY;
    if !r.slots[next].processed then s.(ring := r.(full := true), hist := h.(refused := h.refused + [id]))
    else
      var len := IdentifyTcmd(id);
      var waiting := source == Uart && len > 0;
      var slot := r.slots[next].(id := id, len := len, params := if waiting then [] else r.slots[next].params, processed := waiting);
      State(r.(slots := r.slots[next := slot], write := next, full := false, uart := if waiting then WaitForData else r.uart), pc,
            h.(accepted := h.accepted + [id]))
  }

  /** A handler run; it is not interrupted itself. */
  function Handle(s: State, source: Source, data: byte): (t: State)
    requires Shape(s)
    ensures Shape(t)
  {
    var r := s.ring;
    if source == Uart && r.uart == WaitForData then
      if r.full then s
      else
        var params := r.slots[r.write].params + [data];
        var done := |params| == r.slots[r.write].len;
        var slot := r.slots[r.write].(params := params, processed := r.slots[r.write].processed && !done);
        s.(ring := r.(slots := r.slots[r.write := slot], uart := if done then WaitForId else WaitForData))
    else if IsTelemetry(data) then s
    else TakeId(s, source, data)
  }

  /** One statement of the processing loop; after a reset command it goes no further. */
  function MainStep(s: State): (t: State)
    requires Shape(s)
    ensures Shape(t)
  {
    var State(r, pc, h) := s;
    match pc
    case Test => if r.slots[(r.read + 1) % CAPACITY].processed then s else s.(pc := Advance)
    case Advance => s.(ring := r.(read := (r.read + 1) % CAPACITY), pc := CheckError)
    case CheckError => s.(pc := if r.slots[r.read].error != 0 then ClearError else Dispatch)
    case ClearError => s.(ring := r.(slots := r.slots[r.read := r.slots[r.read].(error := 0)]), pc := Mark)
    case Dispatch =>
      var id := r.slots[r.read].id;
      s.(hist := h.(dispatched := h.dispatched + [id]), pc := if id == RESET_ID then Resetting else Count)
    case Count => s.(ring := r.(count := (r.count + 1) % COUNT_LIMIT), pc := Mark)
    case Mark => s.(ring := r.(slots := r.slots[r.read := r.slots[r.read].(processed := true)]), pc := Test)
    case Resetting => s
  }

  function Step(s: State, a: Action): (t: State)
    requires Shape(s)
    ensures Shape(t)
  {
    match a
    case Receive(source, data) => Handle(s, source, data)
    case Main => MainStep(s)
  }

  function Run(s: State, actions: seq<Action>): (t: State)
    requires Shape(s)
    ensures Shape(t)
  {
    if actions == [] then s else Step(Run(s, actions[..|actions| - 1]), actions[|actions| - 1])
  }

  // ---------- The invariant ----------

  /** A command was handed to its handler, whose slot is still taken. */
  predicate Handed(pc: Pc) {
    pc == Count || pc == Mark || pc == Resetting
  }

  predicate SlotTaken(pc: Pc) {
    pc != Test && pc != Advance
  }

  /** Commands whose slot was released. */
  function Completed(s: State): int {
    |s.hist.dispatched| - One(Handed(s.pc))
  }

  /** The slot of the j-th command accepted. */
  function Home(j: nat): (i: nat)
    ensures i < CAPACITY
  {
    (j + 1) % CAPACITY
  }

  /** The commands from `done` to `accepted` are in their slots; the slots of the next ones are free. */
  ghost predicate Placed(slots: seq<Slot>, accepted: seq<byte>, done: nat) {
    && |slots| == CAPACITY && done <= |accepted| <= done + CAPACITY
    && (forall j: nat | done <= j < |accepted| :: !slots[Home(j)].processed && slots[Home(j)].id == accepted[j])
    && (forall j: nat | |accepted| <= j < done + CAPACITY :: slots[Home(j)].processed)
  }

  /** A command lives in its slot until it is completed; the indices follow the number of commands. */
  ghost predicate Invariant(s: State) {
    var State(r, pc, h) := s;
    && Shape(s) && r.uart == WaitForId && pc != ClearError
    && 0 <= Completed(s) && h.dispatched <= h.accepted
    && Placed(r.slots, h.accepted, Completed(s))
    && (pc == Test || Completed(s) < |h.accepted|)
    && r.read == (if SlotTaken(pc) then Completed(s) + 1 else Completed(s)) % CAPACITY
    && r.write == |h.accepted| % CAPACITY
    && r.count == (|h.dispatched| - One(pc == Count || pc == Resetting)) % COUNT_LIMIT
    && (forall i | 0 <= i < CAPACITY :: r.slots[i].error == 0)
  }

  lemma InitialInvariant(s: State)
    requires Initial(s)
    ensures Invariant(s)
  {
  }

  lemma Homes(a: nat, b: nat)
    requires a < b < a + CAPACITY
    ensures Home(a) != Home(b)
  {
  }

  lemma NextHome(index: nat, j: nat)
    requires index == j % CAPACITY
    ensures (index + 1) % CAPACITY == Home(j) == (j + 1) % CAPACITY
  {
  }

  lemma HomeAgain(j: nat)
    ensures Home(j + CAPACITY) == Home(j)
  {
  }

  /** Completing the first pending command frees its slot. */
  lemma FirstFreed(slots: seq<Slot>, accepted: seq<byte>, done: nat, slot: Slot)
    requires Placed(slots, accepted, done) && done < |accepted| && slot.processed
    ensures Placed(slots[Home(done) := slot], accepted, done + 1)
  {
    hide Home;
    HomeAgain(done);
    forall j: nat | done < j < done + CAPACITY ensures Home(j) != Home(done) { Homes(done, j); }
  }

  /** A command accepted goes into the slot after the last one. */
  lemma OneMorePlaced(slots: seq<Slot>, accepted: seq<byte>, done: nat, slot: Slot)
    requires Placed(slots, accepted, done) && |accepted| < done + CAPACITY && !slot.processed
    ensures Placed(slots[Home(|accepted|) := slot], accepted + [slot.id], done)
  {
    hide Home;
    forall j: nat | done <= j < done + CAPACITY && j != |accepted| ensures Home(j) != Home(|accepted|) {
      if j < |accepted| { Homes(j, |accepted|); } else { Homes(|accepted|, j); }
    }
  }

  /** The slot after the last command is taken exactly when four commands are pending. */
  lemma FullWhenFour(slots: seq<Slot>, accepted: seq<byte>, done: nat)
    requires Placed(slots, accepted, done)
    ensures !slots[Home(|accepted|)].processed <==> |accepted| == done + CAPACITY
  {
    hide Home;
    if |accepted| == done + CAPACITY {
      HomeAgain(done);
    }
  }

  /** The slot after the one read is taken exactly when a command is pending. */
  lemma FirstPending(slots: seq<Slot>, accepted: seq<byte>, done: nat)
    requires Placed(slots, accepted, done)
    ensures !slots[Home(done)].processed <==> done < |accepted|
  {
    hide Home;
  }

  lemma MainKeepsInvariant(s: State)
    requires Invariant(s)
    ensures Invariant(MainStep(s))
  {
    if s.pc == Mark {
      MarkKeepsInvariant(s);
    } else if s.pc == Test || s.pc == Advance {
      EntryKeepsInvariant(s);
    } else {
      InnerKeepsInvariant(s);
    }
  }

  lemma EntryKeepsInvariant(s: State)
    requires Invariant(s) && (s.pc == Test || s.pc == Advance)
    ensures Invariant(MainStep(s))
  {
    hide Home, Placed;
    PlacedShape(s.ring.slots, s.hist.accepted, Completed(s));
    NextHome(s.ring.read, Completed(s));
    FirstPending(s.ring.slots, s.hist.accepted, Completed(s));
  }

  lemma InnerKeepsInvariant(s: State)
    requires Invariant(s) && s.pc != Mark && s.pc != Test && s.pc != Advance
    ensures Invariant(MainStep(s))
  {
    hide Home, Placed;
    PlacedShape(s.ring.slots, s.hist.accepted, Completed(s));
    if s.pc == Dispatch { FirstSlot(s); }
  }

  lemma MarkKeepsInvariant(s: State)
    requires Invariant(s) && s.pc == Mark
    ensures Invariant(MainStep(s))
  {
    hide Home, Placed;
    var r, done := s.ring, Completed(s);
    PlacedShape(r.slots, s.hist.accepted, done);
    FirstSlot(s);
    FirstFreed(r.slots, s.hist.accepted, done, r.slots[r.read].(processed := true));
  }

  lemma PlacedShape(slots: seq<Slot>, accepted: seq<byte>, done: nat)
    requires Placed(slots, accepted, done)
    ensures |slots| == CAPACITY && done <= |accepted| <= done + CAPACITY
  {
  }

  /** While a command is worked on, the read index is at its slot. */
  lemma FirstSlot(s: State)
    requires Invariant(s) && SlotTaken(s.pc)
    ensures s.ring.read == Home(Completed(s)) && Completed(s) < |s.hist.accepted|
    ensures s.ring.slots[s.ring.read].id == s.hist.accepted[Completed(s)] && !s.ring.slots[s.ring.read].processed
  {
  }

  lemma HandleKeepsInvariant(s: State, source: Source, data: byte)
    requires Invariant(s)
    ensures Invariant(Handle(s, source, data))
  {
    hide Home, Placed;
    var r, accepted, done := s.ring, s.hist.accepted, Completed(s);
    PlacedShape(r.slots, accepted, done);
    NextHome(r.write, |accepted|);
    FullWhenFour(r.slots, accepted, done);
    if !IsTelemetry(data) && |accepted| < done + CAPACITY {
      var next := (r.write + 1) % CAPACITY;
      OneMorePlaced(r.slots, accepted, done, r.slots[next].(id := data, len := 0, processed := false));
    }
  }

  lemma {:induction false} RunKeepsInvariant(s: State, actions: seq<Action>)
    requires Invariant(s)
    ensures Invariant(Run(s, actions))
  {
    hide Handle, MainStep;
    if actions == [] {
    } else {
      var t := Run(s, actions[..|actions| - 1]);
      RunKeepsInvariant(s, actions[..|actions| - 1]);
      match actions[|actions| - 1]
      case Receive(source, data) => HandleKeepsInvariant(t, source, data);
      case Main => MainKeepsInvariant(t);
    }
  }

  // ---------- The ring is a queue of four ----------

  /** The commands accepted and not completed; the first may be in execution. */
  function Pending(s: State): seq<byte> {
    if 0 <= Completed(s) <= |s.hist.accepted| then s.hist.accepted[Completed(s)..] else []
  }

  datatype Fifo = Fifo(pending: seq<byte>, refused: seq<byte>)

  function Offered(f: Fifo, id: byte): Fifo {
    if |f.pending| < CAPACITY then f.(pending := f.pending + [id]) else f.(refused := f.refused + [id])
  }

  function Removed(f: Fifo): Fifo {
    if f.pending == [] then f else f.(pending := f.pending[1..])
  }

  function Queue(s: State): Fifo {
    Fifo(Pending(s), s.hist.refused)
  }

  /** Every step is an operation of a queue of four commands, or none. */
  lemma RefinesFifo(s: State, a: Action)
    requires Invariant(s)
    ensures Queue(Step(s, a))
         == if a.Receive? && a.data < 0x80 then Offered(Queue(s), a.data)
            else if a.Main? && s.pc == Mark then Removed(Queue(s))
            else Queue(s)
    ensures |Pending(s)| <= CAPACITY
  {
    hide Home, Placed, Handle, MainStep;
    PlacedShape(s.ring.slots, s.hist.accepted, Completed(s));
    match a
    case Receive(source, data) => ReceiveOffers(s, source, data);
    case Main => MainRemoves(s);
  }

  /** A command is refused exactly when four are pending. */
  lemma AcceptedUnlessFour(s: State, source: Source, data: byte)
    requires Invariant(s) && data < 0x80
    ensures Handle(s, source, data).pc == s.pc
    ensures Handle(s, source, data).hist
         == if |s.hist.accepted| < Completed(s) + CAPACITY then s.hist.(accepted := s.hist.accepted + [data])
            else s.hist.(refused := s.hist.refused + [data])
    ensures 0 <= Completed(s) <= |s.hist.accepted| <= Completed(s) + CAPACITY
  {
    hide Home, Placed;
    PlacedShape(s.ring.slots, s.hist.accepted, Completed(s));
    NextHome(s.ring.write, |s.hist.accepted|);
    FullWhenFour(s.ring.slots, s.hist.accepted, Completed(s));
  }

  lemma ReceiveOffers(s: State, source: Source, data: byte)
    requires Invariant(s)
    ensures Queue(Handle(s, source, data)) == if IsTelemetry(data) then Queue(s) else Offered(Queue(s), data)
  {
    hide Invariant, Handle;
    if IsTelemetry(data) {
      TelemetryIgnored(s, source, data);
    } else {
      AcceptedUnlessFour(s, source, data);
      var accepted, done := s.hist.accepted, Completed(s);
      assert (accepted + [data])[done..] == accepted[done..] + [data];
    }
  }

  lemma TelemetryIgnored(s: State, source: Source, data: byte)
    requires Invariant(s) && IsTelemetry(data)
    ensures Handle(s, source, data) == s
  {
  }

  lemma MainRemoves(s: State)
    requires Invariant(s)
    ensures Queue(MainStep(s)) == if s.pc == Mark then Removed(Queue(s)) else Queue(s)
  {
    hide Home, Placed;
    PlacedShape(s.ring.slots, s.hist.accepted, Completed(s));
  }

  /** A command is handed over from the head of the queue, once: what was handed over is a prefix of what was accepted. */
  lemma DispatchedInOrder(s: State, actions: seq<Action>)
    requires Initial(s)
    ensures var t := Run(s, actions);
            && t.hist.dispatched <= t.hist.accepted
            && |t.hist.accepted| - |t.hist.dispatched| <= CAPACITY
            && (t.pc == Dispatch ==> Pending(t) != [] && Step(t, Main).hist.dispatched == t.hist.dispatched + [Pending(t)[0]])
    ensures var t := Run(s, actions);
            t.pc == Test && Step(t, Main).pc == Test ==> t.hist.dispatched == t.hist.accepted
  {
    hide Home, Placed, Run;
    InitialInvariant(s);
    RunKeepsInvariant(s, actions);
    var t := Run(s, actions);
    PlacedShape(t.ring.slots, t.hist.accepted, Completed(t));
    if t.pc == Dispatch { FirstSlot(t); }
    NextHome(t.ring.read, if SlotTaken(t.pc) then Completed(t) + 1 else Completed(t));
    FirstPending(t.ring.slots, t.hist.accepted, Completed(t));
  }

  /** No step changes the slot of a pending command, except the loop its own when it is done with it. */
  lemma PendingKept(s: State, a: Action, j: nat)
    requires Invariant(s) && Completed(s) <= j < |s.hist.accepted| && Completed(Step(s, a)) <= j
    ensures Step(s, a).ring.slots[Home(j)] == s.ring.slots[Home(j)] && s.ring.slots[Home(j)].id == s.hist.accepted[j]
    ensures !s.ring.slots[Home(j)].processed
  {
    var r, accepted, done := s.ring, s.hist.accepted, Completed(s);
    hide Home;
    NextHome(r.write, |accepted|);
    FullWhenFour(r.slots, accepted, done);
    if a.Receive? && !IsTelemetry(a.data) && |accepted| < done + CAPACITY { Homes(j, |accepted|); }
    if a.Main? && s.pc == Mark {
      FirstSlot(s);
      Homes(done, j);
    }
  }

  /** The reset command 'r' is handed over at most once, last, and that is when the processor resets. */
  ghost predicate ResetLast(s: State) {
    var d := s.hist.dispatched;
    && (s.pc == Resetting <==> d != [] && d[|d| - 1] == 'r' as nat)
    && forall i | 0 <= i < |d| - 1 :: d[i] != 'r' as nat
  }

  /** In every run the loop goes on after every command but a reset, and a reset is the last command handed over. */
  lemma {:induction false} ResetsExactly(s: State, actions: seq<Action>)
    requires Initial(s)
    ensures ResetLast(Run(s, actions))
  {
    hide Handle, MainStep;
    if actions == [] {
    } else {
      var t := Run(s, actions[..|actions| - 1]);
      ResetsExactly(s, actions[..|actions| - 1]);
      match actions[|actions| - 1]
      case Receive(source, data) => HandleLeavesLoop(t, source, data);
      case Main => MainResets(t);
    }
  }

  lemma MainResets(s: State)
    requires Shape(s) && ResetLast(s)
    ensures ResetLast(MainStep(s))
  {
    var d, now := s.hist.dispatched, MainStep(s).hist.dispatched;
    if now != d { assert now[..|d|] == d; }
  }

  /** The number of commands reported is that of the commands handed over, in 16 bits, whenever the loop is between two. */
  lemma CountReported(s: State, actions: seq<Action>)
    requires Initial(s) && Run(s, actions).pc == Test
    ensures Run(s, actions).ring.count == |Run(s, actions).hist.dispatched| % 0x10000
  {
    hide Placed, Run;
    InitialInvariant(s);
    RunKeepsInvariant(s, actions);
  }

  /** The telemetry reply "telecommands processed": the conjunction of the flags. */
  method TelecommandsProcessed(slots: seq<Slot>) returns (processed: bool)
    requires |slots| == CAPACITY
    ensures processed <==> forall i | 0 <= i < CAPACITY :: slots[i].processed
  {
    processed := true;
    var i := 0;
    while i < CAPACITY && processed
      invariant 0 <= i <= CAPACITY && (processed <==> forall k | 0 <= k < i :: slots[k].processed)
    {
      processed := processed && slots[i].processed;
      i := i + 1;
    }
  }

  /** The reply says that nothing is pending exactly when nothing is. */
  lemma ReplyMeansEmpty(s: State)
    requires Invariant(s)
    ensures (forall i | 0 <= i < CAPACITY :: s.ring.slots[i].processed) <==> Pending(s) == []
  {
    var done := Completed(s);
    if Pending(s) == [] {
      assert {Home(done), Home(done + 1), Home(done + 2), Home(done + 3)} == {0, 1, 2, 3};
      forall i | 0 <= i < CAPACITY ensures s.ring.slots[i].processed {
        assert i in {Home(done), Home(done + 1), Home(done + 2), Home(done + 3)};
      }
    } else {
      FirstPending(s.ring.slots, s.hist.accepted, done);
    }
  }

  // ---------- The code ----------

  datatype Interrupt = Interrupt(source: Source, data: byte)

  function Receives(batch: seq<Interrupt>): seq<Action> {
    if batch == [] then [] else Receives(batch[..|batch| - 1]) + [Receive(batch[|batch| - 1].source, batch[|batch| - 1].data)]
  }

  function Interrupts(batches: seq<seq<Interrupt>>): nat {
    if batches == [] then 0 else |batches[0]| + Interrupts(batches[1..])
  }

  lemma {:induction false} RunSplit(s: State, a: seq<Action>, b: seq<Action>)
    requires Shape(s)
    ensures Run(s, a + b) == Run(Run(s, a), b)
  {
    hide Step;
    if b == [] {
      assert a + b == a;
    } else {
      RunSplit(s, a, b[..|b| - 1]);
      assert (a + b)[..|a + b| - 1] == a + b[..|b| - 1];
    }
  }

  lemma RunOne(s: State, trace: seq<Action>, a: Action)
    requires Shape(s)
    ensures Run(s, trace + [a]) == Step(Run(s, trace), a)
  {
    assert (trace + [a])[..|trace|] == trace;
  }

  /** What arrives in the first batch, if there is one. */
  function First(batches: seq<seq<Interrupt>>): seq<Action> {
    if batches == [] then [] else Receives(batches[0])
  }

  function Later(batches: seq<seq<Interrupt>>): seq<seq<Interrupt>> {
    if batches == [] then [] else batches[1..]
  }

  /** The batches not yet arrived after `n` statements. */
  function Remaining(batches: seq<seq<Interrupt>>, n: nat): seq<seq<Interrupt>> {
    if n == 0 then batches else Later(Remaining(batches, n - 1))
  }

  /** The first `n` statements of the loop, each followed by its batch of interrupts while there are batches. */
  function Schedule(batches: seq<seq<Interrupt>>, n: nat): seq<Action> {
    if n == 0 then [] else Schedule(batches, n - 1) + [Main] + First(Remaining(batches, n - 1))
  }

  /** The k-th batch arrives after the k-th statement. */
  lemma {:induction false} RemainingBatches(batches: seq<seq<Interrupt>>, n: nat)
    ensures Remaining(batches, n) == if n <= |batches| then batches[n..] else []
  {
    if n == 0 {
      assert batches[0..] == batches;
    } else {
      RemainingBatches(batches, n - 1);
    }
  }

  /** How much work is left: what is pending and what may still come. */
  lemma {:induction false} PendingBound(s: State, batch: seq<Interrupt>)
    requires Invariant(s)
    ensures Invariant(Run(s, Receives(batch))) && Run(s, Receives(batch)).pc == s.pc
    ensures Run(s, Receives(batch)).hist.dispatched == s.hist.dispatched
    ensures |Pending(Run(s, Receives(batch)))| <= |Pending(s)| + |batch|
  {
    hide Invariant, Handle, Pending;
    InvariantShape(s);
    RunKeepsInvariant(s, Receives(batch));
    if batch == [] {
    } else {
      var front := batch[..|batch| - 1];
      var last := batch[|batch| - 1];
      PendingBound(s, front);
      var t := Run(s, Receives(front));
      RunOne(s, Receives(front), Receive(last.source, last.data));
      ReceiveOffers(t, last.source, last.data);
      HandleLeavesLoop(t, last.source, last.data);
    }
  }

  lemma InvariantShape(s: State)
    requires Invariant(s)
    ensures Shape(s)
  {
  }

  lemma HandleLeavesLoop(s: State, source: Source, data: byte)
    requires Shape(s)
    ensures Handle(s, source, data).pc == s.pc && Handle(s, source, data).hist.dispatched == s.hist.dispatched
  {
  }

  class Device {
    const tcmdBuffer: array<Slot>
    var tcmdReadIndex: nat
    var tcmdWriteIndex: nat
    var tcmdBuffFull: bool
    var uartState: UartState
    var tcmdCount: nat
    ghost var pc: Pc
    ghost var hist: History

    ghost predicate Valid()
      reads this
    {
      tcmdBuffer.Length == CAPACITY && tcmdReadIndex < CAPACITY && tcmdWriteIndex < CAPACITY
    }

    ghost function View(): (s: State)
      reads this, tcmdBuffer
      requires Valid()
      ensures Shape(s)
    {
      State(Ring(tcmdBuffer[..], tcmdReadIndex, tcmdWriteIndex, tcmdBuffFull, uartState, tcmdCount), pc, hist)
    }

    /** The part of COMMS_Init about telecommands; the UART state has its initial value. */
    method Init()
      requires tcmdBuffer.Length == CAPACITY && uartState == WaitForId
      modifies this, tcmdBuffer
      ensures Valid() && Initial(View())
    {
      for i := 0 to CAPACITY
        invariant uartState == WaitForId
        invariant forall k | 0 <= k < i :: tcmdBuffer[k].error == 0 && tcmdBuffer[k].processed
      {
        tcmdBuffer[i] := tcmdBuffer[i].(error := 0);
        tcmdBuffer[i] := tcmdBuffer[i].(processed := true);
      }
      tcmdReadIndex, tcmdWriteIndex, tcmdBuffFull := 0, 0, false;
      tcmdCount := 0;
      pc, hist := Test, History([], [], []);
    }

    /** The UART handler for one byte received. */
    method UartHandler(data: byte)
      requires Valid()
      modifies this, tcmdBuffer
      ensures Valid() && View() == Handle(old(View()), Uart, data)
    {
      hide IdentifyTcmd;
      match uartState
      case WaitForId =>
        if !IsTelemetry(data) {
          if !tcmdBuffer[(tcmdWriteIndex + 1) % CAPACITY].processed {
            tcmdBuffFull := true;
            hist := hist.(refused := hist.refused + [data]);
          } else {
            tcmdWriteIndex := (tcmdWriteIndex + 1) % CAPACITY;
            tcmdBuffFull := false;
            hist := hist.(accepted := hist.accepted + [data]);
            tcmdBuffer[tcmdWriteIndex] := tcmdBuffer[tcmdWriteIndex].(id := data, len := IdentifyTcmd(data));
            if tcmdBuffer[tcmdWriteIndex].len > 0 {
              tcmdBuffer[tcmdWriteIndex] := tcmdBuffer[tcmdWriteIndex].(params := []);
              uartState := WaitForData;
            } else {
              tcmdBuffer[tcmdWriteIndex] := tcmdBuffer[tcmdWriteIndex].(processed := false);
            }
          }
        }
      case WaitForData =>
        if !tcmdBuffFull {
          tcmdBuffer[tcmdWriteIndex] := tcmdBuffer[tcmdWriteIndex].(params := tcmdBuffer[tcmdWriteIndex].params + [data]);
          if |tcmdBuffer[tcmdWriteIndex].params| == tcmdBuffer[tcmdWriteIndex].len {
            tcmdBuffer[tcmdWriteIndex] := tcmdBuffer[tcmdWriteIndex].(processed := false);
            uartState := WaitForId;
          }
        }
    }

    /** The CAN handler; `data` is the identifier of the frame received. No telecommand has parameters to copy. */
    method CanHandler(data: byte)
      requires Valid()
      modifies this, tcmdBuffer
      ensures Valid() && View() == Handle(old(View()), Can, data)
    {
      if !IsTelemetry(data) {
        if !tcmdBuffer[(tcmdWriteIndex + 1) % CAPACITY].processed {
          tcmdBuffFull := true;
          hist := hist.(refused := hist.refused + [data]);
        } else {
          tcmdWriteIndex := (tcmdWriteIndex + 1) % CAPACITY;
          tcmdBuffFull := false;
          hist := hist.(accepted := hist.accepted + [data]);
          tcmdBuffer[tcmdWriteIndex] := tcmdBuffer[tcmdWriteIndex].(id := data, len := IdentifyTcmd(data));
          tcmdBuffer[tcmdWriteIndex] := tcmdBuffer[tcmdWriteIndex].(processed := false);
        }
      }
    }

    /** The interrupts that arrive between two statements of the loop. */
    method Arrive(batches: seq<seq<Interrupt>>) returns (rest: seq<seq<Interrupt>>)
      requires Valid() && Invariant(View())
      modifies this, tcmdBuffer
      ensures Valid() && Invariant(View()) && View() == Run(old(View()), First(batches)) && rest == Later(batches)
      ensures pc == old(pc) && hist.dispatched == old(hist.dispatched)
      ensures |Pending(View())| + Interrupts(rest) <= |Pending(old(View()))| + Interrupts(batches)
    {
      hide Handle, Invariant, Pending;
      if batches == [] {
        return [];
      }
      var batch := batches[0];
      ghost var start := View();
      for i := 0 to |batch|
        invariant Valid() && View() == Run(start, Receives(batch[..i]))
      {
        var x := batch[i];
        assert batch[..i + 1][..i] == batch[..i];
        RunOne(start, Receives(batch[..i]), Receive(x.source, x.data));
        if x.source == Uart {
          UartHandler(x.data);
        } else {
          CanHandler(x.data);
        }
      }
      assert batch[..|batch|] == batch;
      PendingBound(start, batch);
      return batches[1..];
    }

    /** The n-th statement of the loop was executed; then its interrupts come. */
    method Then(batches: seq<seq<Interrupt>>, ghost start: State, ghost all: seq<seq<Interrupt>>, ghost n: nat)
      returns (rest: seq<seq<Interrupt>>)
      requires Valid() && Shape(start) && Invariant(View()) && View() == Step(Run(start, Schedule(all, n)), Main)
      requires batches == Remaining(all, n)
      modifies this, tcmdBuffer
      ensures Valid() && Invariant(View()) && View() == Run(start, Schedule(all, n + 1)) && rest == Remaining(all, n + 1)
      ensures pc == old(pc) && hist.dispatched == old(hist.dispatched)
      ensures |Pending(View())| + Interrupts(rest) <= |Pending(old(View()))| + Interrupts(batches)
    {
      hide Invariant, Pending, Step;
      RunOne(start, Schedule(all, n), Main);
      rest := Arrive(batches);
      RunSplit(start, Schedule(all, n) + [Main], First(batches));
    }

    /** The condition of the loop holds. */
    method EnterLoop()
      requires Valid() && Invariant(View()) && pc == Test && !tcmdBuffer[(tcmdReadIndex + 1) % CAPACITY].processed
      modifies this`pc
      ensures Valid() && Invariant(View()) && View() == Step(old(View()), Main) && pc == Advance
      ensures |Pending(View())| == |Pending(old(View()))|
    {
      hide Invariant, Pending;
      MainKeepsInvariant(View());
      MainRemoves(View());
      pc := Advance;
    }

    method NextIndex()
      requires Valid() && Invariant(View()) && pc == Advance
      modifies this`pc, this`tcmdReadIndex
      ensures Valid() && Invariant(View()) && View() == Step(old(View()), Main) && pc == CheckError
      ensures |Pending(View())| == |Pending(old(View()))|
    {
      hide Invariant, Pending;
      MainKeepsInvariant(View());
      MainRemoves(View());
      tcmdReadIndex := (tcmdReadIndex + 1) % CAPACITY;
      pc := CheckError;
    }

    method HasError() returns (error: bool)
      requires Valid() && Invariant(View()) && pc == CheckError
      modifies this`pc
      ensures Valid() && Invariant(View()) && View() == Step(old(View()), Main) && pc == (if error then ClearError else Dispatch)
      ensures |Pending(View())| == |Pending(old(View()))|
    {
      hide Invariant, Pending;
      MainKeepsInvariant(View());
      MainRemoves(View());
      error := tcmdBuffer[tcmdReadIndex].error != 0;
      pc := if error then ClearError else Dispatch;
    }

    /** The command is executed. */
    method HandOver() returns (id: byte)
      requires Valid() && Invariant(View()) && pc == Dispatch
      modifies this`pc, this`hist
      ensures Valid() && Invariant(View()) && View() == Step(old(View()), Main) && pc == (if id == RESET_ID then Resetting else Count)
      ensures |Pending(View())| == |Pending(old(View()))|
    {
      hide Invariant, Pending;
      MainKeepsInvariant(View());
      MainRemoves(View());
      id := tcmdBuffer[tcmdReadIndex].id;
      hist := hist.(dispatched := hist.dispatched + [id]);
      pc := if id == RESET_ID then Resetting else Count;
    }

    method CountOne()
      requires Valid() && Invariant(View()) && pc == Count
      modifies this`pc, this`tcmdCount
      ensures Valid() && Invariant(View()) && View() == Step(old(View()), Main) && pc == Mark
      ensures |Pending(View())| == |Pending(old(View()))|
    {
      hide Invariant, Pending;
      MainKeepsInvariant(View());
      MainRemoves(View());
      tcmdCount := (tcmdCount + 1) % COUNT_LIMIT;
      pc := Mark;
    }

    method Release()
      requires Valid() && Invariant(View()) && pc == Mark
      modifies this`pc, tcmdBuffer
      ensures Valid() && Invariant(View()) && View() == Step(old(View()), Main) && pc == Test
      ensures |Pending(View())| == |Pending(old(View()))| - 1
    {
      hide Invariant, Pending;
      MainKeepsInvariant(View());
      MainRemoves(View());
      SomethingPending(View());
      tcmdBuffer[tcmdReadIndex] := tcmdBuffer[tcmdReadIndex].(processed := true);
      pc := Test;
    }

    /** The body of the loop: the next command is taken, handed over and completed. */
    method ProcessNext(batches: seq<seq<Interrupt>>, ghost start: State, ghost all: seq<seq<Interrupt>>, ghost n: nat)
      returns (rest: seq<seq<Interrupt>>, reset: bool, ghost m: nat)
      requires Valid() && Shape(start) && Invariant(View()) && View() == Run(start, Schedule(all, n)) && batches == Remaining(all, n)
      requires pc == Test && !tcmdBuffer[(tcmdReadIndex + 1) % CAPACITY].processed
      modifies this, tcmdBuffer
      ensures Valid() && Invariant(View()) && View() == Run(start, Schedule(all, m)) && rest == Remaining(all, m)
      ensures pc == if reset then Resetting else Test
      ensures !reset ==> |Pending(View())| + Interrupts(rest) < |Pending(old(View()))| + Interrupts(batches)
    {
      hide Invariant, Pending, Handle, Run, Schedule, Remaining, Interrupts;
      m, reset := n, false;
      EnterLoop();
      rest := Then(batches, start, all, m);
      m := m + 1;
      NextIndex();
      rest := Then(rest, start, all, m);
      m := m + 1;
      var error := HasError();
      if error {
        NoErrors(View());
        assert false;
      }
      rest := Then(rest, start, all, m);
      m := m + 1;
      var id := HandOver();
      rest := Then(rest, start, all, m);
      m := m + 1;
      if id == RESET_ID {
        return rest, true, m;
      }
      CountOne();
      rest := Then(rest, start, all, m);
      m := m + 1;
      Release();
      rest := Then(rest, start, all, m);
      m := m + 1;
    }

    /**
      * COMMS_processTCMD, with the k-th batch of interrupts after the k-th of the statements it executes.
      * It ends with nothing pending and everything accepted handed over, unless a reset command was.
      */
    method ProcessTcmd(batches: seq<seq<Interrupt>>) returns (rest: seq<seq<Interrupt>>, ghost statements: nat)
      requires Valid() && Invariant(View()) && pc == Test
      modifies this, tcmdBuffer
      ensures Valid() && Invariant(View()) && View() == Run(old(View()), Schedule(batches, statements))
      ensures rest == if statements <= |batches| then batches[statements..] else []
      ensures pc == Resetting || (pc == Test && Pending(View()) == [] && hist.dispatched == hist.accepted)
    {
      hide Invariant, Pending, Handle, Run, Schedule, Remaining;
      ghost var start := View();
      statements := 0;
      rest := batches;
      StartOfRun(start, batches);
      while !tcmdBuffer[(tcmdReadIndex + 1) % CAPACITY].processed
        invariant Valid() && Invariant(View()) && View() == Run(start, Schedule(batches, statements)) && pc == Test
        invariant rest == Remaining(batches, statements)
        decreases |Pending(View())| + Interrupts(rest)
      {
        var reset;
        rest, reset, statements := ProcessNext(rest, start, batches, statements);
        if reset {
          RemainingBatches(batches, statements);
          return;
        }
      }
      NothingPending(View());
      RemainingBatches(batches, statements);
    }
  }

  lemma StartOfRun(s: State, batches: seq<seq<Interrupt>>)
    requires Shape(s)
    ensures Run(s, Schedule(batches, 0)) == s && Remaining(batches, 0) == batches
  {
  }

  lemma NoErrors(s: State)
    requires Invariant(s)
    ensures s.ring.slots[s.ring.read].error == 0
  {
  }

  lemma SomethingPending(s: State)
    requires Invariant(s) && s.pc == Mark
    ensures Pending(s) != []
  {
    FirstSlot(s);
  }

  lemma NothingPending(s: State)
    requires Invariant(s) && s.pc == Test && s.ring.slots[(s.ring.read + 1) % CAPACITY].processed
    ensures Pending(s) == [] && s.hist.dispatched == s.hist.accepted
  {
    NextHome(s.ring.read, Completed(s));
    FirstPending(s.ring.slots, s.hist.accepted, Completed(s));
  }
}
