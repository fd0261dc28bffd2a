/** The experiment controller (libs/experiments/experiments.cpp) as a transition system.

    The background task, the mission loop and the commanders interleave freely; each event-group call, each
    queue call, each locked section and each call into the experiment is one step. */
module Experiments {

  datatype Option<T> = None | Some(value: T)

  datatype StartResult = StartSuccess | StartFailure

  datatype IterationResult = NoIteration | Finished | LoopImmediately | WaitForNextCycle | Failure

  const COUNTER_LIMIT := 0x1_0000_0000

  /** Where the background task stands: the call it makes next. */
  datatype Pc =
    | PopQueue
    | Find(code: nat)
    | ClearAbort(code: nat)
    | SetInProgress(code: nat)
    | ResetRecord(code: nat)
    | Start
    | StoreStart(startResult: StartResult)
    | CheckAbort
    | ClearStarted
    | Iterate
    | StoreIteration(result: IterationResult)
    | RequestNotification
    | WaitForLoop
    | Stop(result: IterationResult)
    | DropCurrent
    | ClearInProgress

  /** Where the mission loop stands in NotifyLoopIterationStart. */
  datatype LoopPc = TakeRequest | SetStarted

  /**
    * Calls into an experiment: which one, what it answered or was told, whether "started" was set between the last two
    * clears before an iteration, and whether an abort was set during the run before a stop.
    */
  datatype Call =
    | Started(code: nat, ok: bool)
    | Iterated(code: nat, result: IterationResult, woken: bool)
    | Stopped(code: nat, result: IterationResult, aborted: bool)

  datatype Events = Events(inProgress: bool, abort: bool, started: bool, notify: bool)

  /** The fields under the lock that describe the running experiment. */
  datatype Record = Record(current: Option<nat>, lastStart: Option<StartResult>, lastIteration: Option<IterationResult>, counter: nat)

  /** What the properties speak of besides the fields. */
  datatype History = History(
    calls: seq<Call>,             // what the experiments were asked so far
    iterations: nat,              // iterations since the record was last reset
    setSinceClear: bool,          // "started" was set after its last clear
    woken: bool,                  // "started" was set between its last two clears
    sinceAbort: Option<nat>,      // iterations begun since an abort was set during this run
    asked: nat,                   // notifications requested so far
    notified: nat)                // times "started" was set so far

  datatype State = State(ev: Events, queue: Option<nat>, requested: Option<nat>, rec: Record, pc: Pc, loopPc: LoopPc, hist: History)

  /** The steps of all parties, with the results the experiment chooses. */
  datatype Action =
    | Background
    | StartReturns(startResult: StartResult)
    | IterationReturns(result: IterationResult)
    | Notify
    | StartExperiment(garbage: nat)
    | RequestExperiment(code: nat)
    | AbortExperiment

  const INITIAL := State(Events(false, false, false, false), None, None, Record(None, None, None, 0),
                         PopQueue, TakeRequest, History([], 0, false, false, None, 0, 0))

  predicate Awake(s: State) {
    s.ev.started || s.ev.abort
  }

  predicate Enabled(s: State, a: Action) {
    match a
    case Background =>
      !s.pc.Start? && !s.pc.Iterate? && (s.pc.PopQueue? ==> s.queue.Some?) && (s.pc.WaitForLoop? ==> Awake(s))
    case StartReturns(_) => s.pc.Start?
    case IterationReturns(_) => s.pc.Iterate?
    case StartExperiment(_) => s.loopPc.TakeRequest?
    case _ => true
  }

  /** The experiment that is running. */
  function Code(s: State): nat {
    if s.rec.current.Some? then s.rec.current.value else 0
  }

  /** Between clearing the abort request and being ready for the next experiment. */
  predicate DuringRun(pc: Pc) {
    !pc.PopQueue? && !pc.Find? && !pc.ClearAbort?
  }

  /** A step of the background task other than a call into the experiment. */
  function BackgroundStep(s: State, handlers: set<nat>): State
    requires Enabled(s, Background)
  {
    var State(ev, queue, requested, rec, pc, loopPc, hist) := s;
    match pc
    case PopQueue => s.(queue := None, pc := Find(queue.value))
    case Find(code) => s.(pc := if code in handlers then ClearAbort(code) else PopQueue)
    case ClearAbort(code) => s.(ev := ev.(abort := false), hist := hist.(sinceAbort := None), pc := SetInProgress(code))
    case SetInProgress(code) => s.(ev := ev.(inProgress := true), pc := ResetRecord(code))
    case ResetRecord(code) => s.(rec := Record(Some(code), None, None, 0), hist := hist.(iterations := 0), pc := Start)
    case StoreStart(r) =>
      s.(rec := rec.(lastStart := Some(r), counter := 0), pc := if r == StartSuccess then CheckAbort else DropCurrent)
    case CheckAbort =>
      if ev.abort then s.(ev := ev.(abort := false), pc := Stop(Failure)) else s.(pc := ClearStarted)
    case ClearStarted =>
      s.(ev := ev.(started := false), hist := hist.(setSinceClear := false, woken := hist.setSinceClear), pc := Iterate)
    case StoreIteration(r) =>
      s.(rec := rec.(lastIteration := Some(r), counter := (rec.counter + 1) % COUNTER_LIMIT),
         hist := hist.(iterations := hist.iterations + 1),
         pc := if r == Finished || r == Failure then Stop(r) else if r == WaitForNextCycle then RequestNotification else CheckAbort)
    case RequestNotification => s.(ev := ev.(notify := true), hist := hist.(asked := hist.asked + 1), pc := WaitForLoop)
    case WaitForLoop => s.(pc := CheckAbort)
    case Stop(r) => s.(hist := hist.(calls := hist.calls + [Stopped(Code(s), r, hist.sinceAbort.Some?)]), pc := DropCurrent)
    case DropCurrent => s.(rec := rec.(current := None), pc := ClearInProgress)
    case ClearInProgress => s.(ev := ev.(inProgress := false), pc := PopQueue)
    case _ => s
  }

  function Step(s: State, a: Action, handlers: set<nat>): State
    requires Enabled(s, a)
  {
    var State(ev, queue, requested, rec, pc, loopPc, hist) := s;
    match a
    case Background => BackgroundStep(s, handlers)
    case StartReturns(r) => s.(hist := hist.(calls := hist.calls + [Started(Code(s), r == StartSuccess)]), pc := StoreStart(r))
    case IterationReturns(r) =>
      s.(hist := hist.(calls := hist.calls + [Iterated(Code(s), r, hist.woken)],
                       sinceAbort := if hist.sinceAbort.Some? then Some(hist.sinceAbort.value + 1) else None),
         pc := StoreIteration(r))
    case Notify =>
      if loopPc == SetStarted then
        s.(ev := ev.(started := true), hist := hist.(setSinceClear := true, notified := hist.notified + 1), loopPc := TakeRequest)
      else if ev.notify then s.(ev := ev.(notify := false), loopPc := SetStarted)
      else s
    case StartExperiment(garbage) => s.(queue := Some(if requested.Some? then requested.value else garbage), requested := None)
    case RequestExperiment(code) => s.(requested := Some(code))
    case AbortExperiment =>
      s.(ev := ev.(abort := true),
         hist := hist.(sinceAbort := if hist.sinceAbort.None? && DuringRun(pc) then Some(0) else hist.sinceAbort))
  }

  // ---------- What the experiments see ----------

  datatype Phase = Idle | Running | Broken

  function Advance(p: Phase, c: Call): Phase {
    match (p, c)
    case (Idle, Started(_, ok)) => if ok then Running else Idle
    case (Running, Iterated(_, _, _)) => Running
    case (Running, Stopped(_, _, _)) => Idle
    case (_, _) => Broken
  }

  /** Reads the calls as (Started(false) | Started(true) Iterated* Stopped)*. */
  function Scan(calls: seq<Call>): Phase {
    if calls == [] then Idle else Advance(Scan(calls[..|calls| - 1]), calls[|calls| - 1])
  }

  function Starts(calls: seq<Call>): nat {
    if calls == [] then 0
    else Starts(calls[..|calls| - 1]) + (if calls[|calls| - 1].Started? && calls[|calls| - 1].ok then 1 else 0)
  }

  function Stops(calls: seq<Call>): nat {
    if calls == [] then 0 else Stops(calls[..|calls| - 1]) + (if calls[|calls| - 1].Stopped? then 1 else 0)
  }

  /** The iteration results after which an experiment is stopped. */
  predicate Final(r: IterationResult) {
    r == Finished || r == Failure
  }

  /** Which call may follow which: the experiment's answers and an abort decide. */
  predicate Follows(c: Call, d: Call) {
    match c
    case Started(code, ok) =>
      if ok then (d.Iterated? && d.code == code) || d == Stopped(code, Failure, true) else d.Started?
    case Iterated(code, r, _) =>
      if Final(r) then d.Stopped? && d.code == code && d.result == r
      else (d.Iterated? && d.code == code && (r == WaitForNextCycle ==> d.woken)) || d == Stopped(code, Failure, true)
    case Stopped(_, _, _) => d.Started?
  }

  /** Every call follows the one before it, and the first is a start. */
  predicate Orderly(calls: seq<Call>) {
    (calls != [] ==> calls[0].Started?) && forall i | 0 <= i < |calls| - 1 :: Follows(calls[i], calls[i + 1])
  }

  /** A start has succeeded and its stop is still to come. */
  predicate Owing(pc: Pc) {
    (pc.StoreStart? && pc.startResult == StartSuccess)
    || pc in {CheckAbort, ClearStarted, Iterate, RequestNotification, WaitForLoop} || pc.StoreIteration? || pc.Stop?
  }

  // ---------- The invariant ----------

  /** A waiting background task has a wakeup on its way. */
  predicate WakeupPending(s: State) {
    s.pc.WaitForLoop? ==> s.ev.notify || s.ev.started || s.ev.abort || s.loopPc.SetStarted?
  }

  /** After the clear of an iteration, "started" is only up because of a later set. */
  predicate FreshStarted(s: State) {
    s.pc == Iterate || s.pc.StoreIteration? || s.pc == RequestNotification || s.pc == WaitForLoop ==>
      s.ev.started ==> s.hist.setSinceClear
  }

  predicate RecordConsistent(s: State) {
    && s.rec.counter == s.hist.iterations % COUNTER_LIMIT
    && (s.rec.lastIteration.Some? <==> s.hist.iterations > 0)
    && (s.hist.iterations > 0 ==> s.rec.lastStart == Some(StartSuccess))
    && (s.pc == Start || s.pc.StoreStart? ==> s.hist.iterations == 0)
    && (Owing(s.pc) && !s.pc.StoreStart? ==> s.rec.lastStart == Some(StartSuccess))
  }

  predicate AbortBounded(s: State) {
    s.hist.sinceAbort.Some? ==>
      && s.hist.sinceAbort.value <= 1
      && (s.pc == ClearStarted || s.pc == Iterate ==> s.hist.sinceAbort.value == 0)
      && (s.ev.abort || s.pc.Stop? || s.pc == DropCurrent || s.pc == ClearInProgress || !DuringRun(s.pc))
  }

  predicate CallsOwed(s: State) {
    Scan(s.hist.calls) == if Owing(s.pc) then Running else Idle
  }

  /** The flags that others see: an experiment is in progress, and which one it is. */
  predicate Visible(s: State) {
    && (s.ev.inProgress <==> DuringRun(s.pc) && !s.pc.SetInProgress?)
    && (s.rec.current.Some? <==> DuringRun(s.pc) && !s.pc.SetInProgress? && !s.pc.ResetRecord? && !s.pc.ClearInProgress?)
  }

  /** An experiment was started or went through an iteration after which it goes on. */
  predicate GoesOn(s: State, c: Call) {
    && c.code == Code(s) && s.rec.current.Some?
    && (if c.Iterated? then !Final(c.result) && s.rec.lastIteration == Some(c.result) else c.Started? && c.ok)
  }

  /** The last call tells where the task stands, and the record shows what it answered. */
  predicate LastCall(s: State) {
    var calls := s.hist.calls;
    if Owing(s.pc) then
      && calls != []
      && var c := calls[|calls| - 1];
         match s.pc
         case StoreStart(r) => c == Started(Code(s), true) && r == StartSuccess && s.rec.current.Some?
         case StoreIteration(r) => c.Iterated? && c.code == Code(s) && c.result == r && s.rec.current.Some?
         case RequestNotification => GoesOn(s, c) && c.Iterated? && c.result == WaitForNextCycle
         case WaitForLoop => GoesOn(s, c) && c.Iterated? && c.result == WaitForNextCycle
         case CheckAbort => GoesOn(s, c) && (c.Iterated? && c.result == WaitForNextCycle ==> s.hist.setSinceClear || s.ev.abort)
         case ClearStarted => GoesOn(s, c) && (c.Iterated? && c.result == WaitForNextCycle ==> s.hist.setSinceClear)
         case Iterate => GoesOn(s, c) && (c.Iterated? && c.result == WaitForNextCycle ==> s.hist.woken)
         case Stop(r) =>
           && s.rec.current.Some?
           && ((c.Iterated? && c.code == Code(s) && c.result == r && Final(r))
               || (GoesOn(s, c) && r == Failure && s.hist.sinceAbort.Some?))
         case _ => false
    else calls == [] || calls[|calls| - 1].Stopped? || (calls[|calls| - 1].Started? && !calls[|calls| - 1].ok)
  }

  /** An abort that is up during a run was set during that run. */
  predicate AbortOfRun(s: State) {
    DuringRun(s.pc) && s.ev.abort ==> s.hist.sinceAbort.Some?
  }

  /** The calls were in order. */
  predicate CallsOrderly(s: State) {
    Orderly(s.hist.calls) && LastCall(s) && AbortOfRun(s)
  }

  /** Only known experiments run. */
  predicate Known(s: State, handlers: set<nat>) {
    && (s.pc.ClearAbort? || s.pc.SetInProgress? || s.pc.ResetRecord? ==> s.pc.code in handlers)
    && (s.rec.current.Some? ==> s.rec.current.value in handlers)
  }

  /** Each request for a notification sets "started" at most once. */
  predicate NotifiedWhenAsked(s: State) {
    s.hist.notified + (if s.ev.notify then 1 else 0) + (if s.loopPc == SetStarted then 1 else 0) <= s.hist.asked
  }

  predicate Invariant(s: State, handlers: set<nat>) {
    && WakeupPending(s) && FreshStarted(s) && RecordConsistent(s) && AbortBounded(s) && CallsOwed(s) && Visible(s)
    && CallsOrderly(s) && Known(s, handlers) && NotifiedWhenAsked(s)
  }

  lemma ScanSnoc(calls: seq<Call>, c: Call)
    ensures Scan(calls + [c]) == Advance(Scan(calls), c)
  {
    assert (calls + [c])[..|calls|] == calls;
  }

  lemma WakeupsKept(s: State, a: Action, handlers: set<nat>)
    requires WakeupPending(s) && FreshStarted(s) && Enabled(s, a)
    ensures WakeupPending(Step(s, a, handlers)) && FreshStarted(Step(s, a, handlers))
  {
  }

  lemma RecordKept(s: State, a: Action, handlers: set<nat>)
    requires RecordConsistent(s) && Enabled(s, a)
    ensures RecordConsistent(Step(s, a, handlers))
  {
  }

  lemma AbortKept(s: State, a: Action, handlers: set<nat>)
    requires AbortBounded(s) && Enabled(s, a)
    ensures AbortBounded(Step(s, a, handlers))
  {
  }

  lemma VisibleKept(s: State, a: Action, handlers: set<nat>)
    requires Visible(s) && Enabled(s, a)
    ensures Visible(Step(s, a, handlers))
  {
  }

  lemma CallsKept(s: State, a: Action, handlers: set<nat>)
    requires CallsOwed(s) && Enabled(s, a)
    ensures CallsOwed(Step(s, a, handlers))
  {
    hide Scan;
    match a {
      case Background => if s.pc.Stop? { ScanSnoc(s.hist.calls, Stopped(Code(s), s.pc.result, s.hist.sinceAbort.Some?)); }
      case StartReturns(r) => ScanSnoc(s.hist.calls, Started(Code(s), r == StartSuccess));
      case IterationReturns(r) => ScanSnoc(s.hist.calls, Iterated(Code(s), r, s.hist.woken));
      case _ =>
    }
  }

  lemma OneMoreCall(calls: seq<Call>, d: Call)
    requires Orderly(calls) && (if calls == [] then d.Started? else Follows(calls[|calls| - 1], d))
    ensures Orderly(calls + [d])
  {
    hide Follows;
    var all := calls + [d];
    forall i | 0 <= i < |all| - 1 ensures Follows(all[i], all[i + 1]) {
      if i == |calls| - 1 { assert all[i] == calls[|calls| - 1] && all[i + 1] == d; }
    }
  }

  lemma AbortOfRunKept(s: State, a: Action, handlers: set<nat>)
    requires AbortOfRun(s) && Enabled(s, a)
    ensures AbortOfRun(Step(s, a, handlers))
  {
  }

  lemma LastCallKept(s: State, a: Action, handlers: set<nat>)
    requires LastCall(s) && AbortOfRun(s) && WakeupPending(s) && FreshStarted(s) && Visible(s) && Enabled(s, a)
    ensures LastCall(Step(s, a, handlers))
  {
    if a == Background {
      BackgroundLastCall(s, handlers);
    } else if a.StartReturns? || a.IterationReturns? {
      ReturnLastCall(s, a, handlers);
    } else {
      OthersLastCall(s, a, handlers);
    }
  }

  lemma BackgroundLastCall(s: State, handlers: set<nat>)
    requires LastCall(s) && AbortOfRun(s) && FreshStarted(s) && Visible(s) && Enabled(s, Background)
    ensures LastCall(Step(s, Background, handlers))
  {
    hide WakeupPending;
  }

  lemma ReturnLastCall(s: State, a: Action, handlers: set<nat>)
    requires LastCall(s) && Visible(s) && Enabled(s, a) && (a.StartReturns? || a.IterationReturns?)
    ensures LastCall(Step(s, a, handlers))
  {
  }

  lemma OthersLastCall(s: State, a: Action, handlers: set<nat>)
    requires LastCall(s) && Enabled(s, a) && a != Background && !a.StartReturns? && !a.IterationReturns?
    ensures LastCall(Step(s, a, handlers))
  {
  }

  lemma OrderlyKept(s: State, a: Action, handlers: set<nat>)
    requires Orderly(s.hist.calls) && LastCall(s) && Enabled(s, a)
    ensures Orderly(Step(s, a, handlers).hist.calls)
  {
    var calls, now := s.hist.calls, Step(s, a, handlers).hist.calls;
    if |now| > |calls| { OneMoreCall(calls, now[|calls|]); }
    hide Orderly;
  }

  lemma OrderKept(s: State, a: Action, handlers: set<nat>)
    requires CallsOrderly(s) && WakeupPending(s) && FreshStarted(s) && Visible(s) && Enabled(s, a)
    ensures CallsOrderly(Step(s, a, handlers))
  {
    hide Orderly, LastCall, AbortOfRun, Step, WakeupPending, FreshStarted, Visible;
    AbortOfRunKept(s, a, handlers);
    LastCallKept(s, a, handlers);
    OrderlyKept(s, a, handlers);
  }

  lemma NotifiedKept(s: State, a: Action, handlers: set<nat>)
    requires NotifiedWhenAsked(s) && Enabled(s, a)
    ensures NotifiedWhenAsked(Step(s, a, handlers))
  {
    if a == Background {
      AskedInBackground(s, handlers);
    } else if a == Notify {
      NotifyCounts(s, handlers);
    } else {
      OthersNotNotified(s, a, handlers);
    }
  }

  lemma AskedInBackground(s: State, handlers: set<nat>)
    requires NotifiedWhenAsked(s) && Enabled(s, Background)
    ensures NotifiedWhenAsked(Step(s, Background, handlers))
  {
    if s.pc != RequestNotification { NothingAsked(s, handlers); }
    hide BackgroundStep;
    if s.pc == RequestNotification { Asked(s, handlers); }
  }

  lemma NothingAsked(s: State, handlers: set<nat>)
    requires Enabled(s, Background) && s.pc != RequestNotification
    ensures var t := BackgroundStep(s, handlers);
            && t.hist.asked == s.hist.asked && t.hist.notified == s.hist.notified
            && t.ev.notify == s.ev.notify && t.loopPc == s.loopPc
  {
  }

  lemma Asked(s: State, handlers: set<nat>)
    requires s.pc == RequestNotification
    ensures var t := BackgroundStep(s, handlers);
            && t.hist.asked == s.hist.asked + 1 && t.hist.notified == s.hist.notified && t.ev.notify && t.loopPc == s.loopPc
  {
  }

  lemma NotifyCounts(s: State, handlers: set<nat>)
    requires NotifiedWhenAsked(s)
    ensures NotifiedWhenAsked(Step(s, Notify, handlers))
  {
  }

  lemma OthersNotNotified(s: State, a: Action, handlers: set<nat>)
    requires Enabled(s, a) && a != Background && a != Notify
    ensures var t := Step(s, a, handlers);
            && t.hist.asked == s.hist.asked && t.hist.notified == s.hist.notified
            && t.ev.notify == s.ev.notify && t.loopPc == s.loopPc
  {
  }

  lemma KnownKept(s: State, a: Action, handlers: set<nat>)
    requires Known(s, handlers) && Enabled(s, a)
    ensures Known(Step(s, a, handlers), handlers)
  {
  }

  lemma StepKeepsInvariant(s: State, a: Action, handlers: set<nat>)
    requires Invariant(s, handlers) && Enabled(s, a)
    ensures Invariant(Step(s, a, handlers), handlers)
  {
    hide Step, WakeupPending, FreshStarted, RecordConsistent, AbortBounded, CallsOwed, Visible, CallsOrderly, Known, NotifiedWhenAsked;
    NotifiedKept(s, a, handlers);
    OrderKept(s, a, handlers);
    KnownKept(s, a, handlers);
    WakeupsKept(s, a, handlers);
    RecordKept(s, a, handlers);
    AbortKept(s, a, handlers);
    VisibleKept(s, a, handlers);
    CallsKept(s, a, handlers);
  }

  // ---------- Runs ----------

  /** The state after the actions, when each is enabled in its turn. */
  function Run(s: State, actions: seq<Action>, handlers: set<nat>): Option<State> {
    if actions == [] then Some(s)
    else match Run(s, actions[..|actions| - 1], handlers)
         case None => None
         case Some(t) => if Enabled(t, actions[|actions| - 1]) then Some(Step(t, actions[|actions| - 1], handlers)) else None
  }

  lemma {:induction false} RunKeepsInvariant(s: State, actions: seq<Action>, handlers: set<nat>)
    requires Invariant(s, handlers) && Run(s, actions, handlers).Some?
    ensures Invariant(Run(s, actions, handlers).value, handlers)
    decreases |actions|
  {
    if actions == [] {
    } else {
      RunKeepsInvariant(s, actions[..|actions| - 1], handlers);
      StepKeepsInvariant(Run(s, actions[..|actions| - 1], handlers).value, actions[|actions| - 1], handlers);
    }
  }

  /** No lost wakeup, in any interleaving from power-up. */
  lemma NoLostWakeup(actions: seq<Action>, handlers: set<nat>)
    requires Run(INITIAL, actions, handlers).Some?
    ensures var s := Run(INITIAL, actions, handlers).value;
      && (s.pc == WaitForLoop ==> s.ev.notify || s.ev.started || s.ev.abort || s.loopPc == SetStarted)
      && (s.pc == WaitForLoop && s.ev.started ==> s.hist.setSinceClear)
  {
    assert Scan([]) == Idle;
    RunKeepsInvariant(INITIAL, actions, handlers);
  }

  /** Every successful start is stopped exactly once, before anything else starts, and a failed one never. */
  lemma StopOncePerStart(actions: seq<Action>, handlers: set<nat>)
    requires Run(INITIAL, actions, handlers).Some?
    ensures var s := Run(INITIAL, actions, handlers).value;
      && Scan(s.hist.calls) != Broken
      && Starts(s.hist.calls) == Stops(s.hist.calls) + (if Owing(s.pc) then 1 else 0)
  {
    assert Scan([]) == Idle;
    RunKeepsInvariant(INITIAL, actions, handlers);
    ScanCounts(Run(INITIAL, actions, handlers).value.hist.calls);
  }

  lemma {:induction false} ScanCounts(calls: seq<Call>)
    requires Scan(calls) != Broken
    ensures Starts(calls) == Stops(calls) + (if Scan(calls) == Running then 1 else 0)
    decreases |calls|
  {
    if calls == [] {
    } else {
      ScanCounts(calls[..|calls| - 1]);
    }
  }

  /**
    * Over any run each call is the one that the answer to the call before it, or an abort, prescribes: a final result
    * is followed by a stop with that result, any other by the next iteration or, after an abort, a stop with a failure;
    * and after an iteration that asked to wait, the next one comes only once "started" was set.
    */
  lemma CallsFollow(actions: seq<Action>, handlers: set<nat>, i: nat)
    requires Run(INITIAL, actions, handlers).Some?
    requires i + 1 < |Run(INITIAL, actions, handlers).value.hist.calls|
    ensures var calls := Run(INITIAL, actions, handlers).value.hist.calls;
            var c, d := calls[i], calls[i + 1];
            && (c.Iterated? && (c.result == Finished || c.result == Failure) ==> d.Stopped? && d.result == c.result && d.code == c.code)
            && (c.Iterated? && c.result != Finished && c.result != Failure ==>
                  (d.Iterated? && d.code == c.code) || d == Stopped(c.code, Failure, true))
            && (c.Iterated? && c.result == WaitForNextCycle && d.Iterated? ==> d.woken)
            && (c.Started? && c.ok ==> (d.Iterated? && d.code == c.code) || d == Stopped(c.code, Failure, true))
            && (c.Stopped? || (c.Started? && !c.ok) ==> d.Started?)
  {
    assert Scan([]) == Idle;
    RunKeepsInvariant(INITIAL, actions, handlers);
    assert Follows(Run(INITIAL, actions, handlers).value.hist.calls[i], Run(INITIAL, actions, handlers).value.hist.calls[i + 1]);
  }

  /** The task waits for the mission loop only in an iteration that asked for it, and stops only for a final result or an abort. */
  lemma WaitsWhenAsked(actions: seq<Action>, handlers: set<nat>)
    requires Run(INITIAL, actions, handlers).Some?
    ensures var s := Run(INITIAL, actions, handlers).value;
            var calls := s.hist.calls;
            && (s.pc == RequestNotification || s.pc == WaitForLoop ==>
                  calls != [] && calls[|calls| - 1].Iterated? && calls[|calls| - 1].result == WaitForNextCycle)
            && (s.pc.Stop? ==>
                  calls != []
                  && ((calls[|calls| - 1].Iterated? && calls[|calls| - 1].result == s.pc.result && s.pc.result in {Finished, Failure})
                      || (s.pc.result == Failure && s.hist.sinceAbort.Some?)))
            && (s.pc == CheckAbort && calls != [] && calls[|calls| - 1].Iterated? ==>
                  s.rec.lastIteration == Some(calls[|calls| - 1].result) && calls[|calls| - 1].result !in {Finished, Failure})
            && (s.rec.current.Some? ==> s.rec.current.value in handlers)
  {
    assert Scan([]) == Idle;
    RunKeepsInvariant(INITIAL, actions, handlers);
  }

  /** The mission loop sets "started" only for a notification that was requested, and at most once for each. */
  lemma NotifiesWhenAsked(actions: seq<Action>, handlers: set<nat>)
    requires Run(INITIAL, actions, handlers).Some?
    ensures var s := Run(INITIAL, actions, handlers).value;
            && s.hist.notified <= s.hist.asked
            && (s.loopPc == SetStarted || s.ev.notify ==> s.hist.notified < s.hist.asked)
  {
    assert Scan([]) == Idle;
    RunKeepsInvariant(INITIAL, actions, handlers);
  }

  /** What was requested last is what a start queues, in place of anything queued before, and it is requested no more. */
  lemma StartsRequested(s: State, code: nat, garbage: nat, handlers: set<nat>)
    requires s.loopPc == TakeRequest
    ensures var t := Step(Step(s, RequestExperiment(code), handlers), StartExperiment(garbage), handlers);
            t == s.(queue := Some(code), requested := None)
  {
  }

  /** At most one further iteration begins after an abort is set during a run. */
  lemma AbortStopsSoon(actions: seq<Action>, handlers: set<nat>)
    requires Run(INITIAL, actions, handlers).Some?
    ensures var s := Run(INITIAL, actions, handlers).value; s.hist.sinceAbort.Some? ==> s.hist.sinceAbort.value <= 1
  {
    assert Scan([]) == Idle;
    RunKeepsInvariant(INITIAL, actions, handlers);
  }

  /** In a locked snapshot the counter is zero for no iteration result exactly unless 2^32 iterations wrapped it. */
  lemma SnapshotConsistent(actions: seq<Action>, handlers: set<nat>)
    requires Run(INITIAL, actions, handlers).Some?
    ensures var s := Run(INITIAL, actions, handlers).value;
      && ((s.rec.counter == 0 <==> s.rec.lastIteration == None) <==> s.hist.iterations == 0 || s.hist.iterations % COUNTER_LIMIT != 0)
      && (s.rec.counter > 0 ==> s.rec.lastStart == Some(StartSuccess))
  {
    assert Scan([]) == Idle;
    RunKeepsInvariant(INITIAL, actions, handlers);
  }

  // ---------- The wrap is reachable ----------

  function Repeated(n: nat): seq<Action> {
    if n == 0 then [] else Repeated(n - 1) + [Background, Background, IterationReturns(LoopImmediately), Background]
  }

  /** From power-up to the first iteration of experiment `code`. */
  function Opening(code: nat): seq<Action> {
    [RequestExperiment(code), StartExperiment(0), Background, Background, Background, Background, Background,
     StartReturns(StartSuccess), Background]
  }

  lemma {:induction false} RunConcat(s: State, a: seq<Action>, b: seq<Action>, handlers: set<nat>)
    ensures Run(s, a + b, handlers)
         == match Run(s, a, handlers) case None => None case Some(t) => Run(t, b, handlers)
    decreases |b|
  {
    if b == [] {
      assert a + b == a;
    } else {
      assert (a + b)[..|a + b| - 1] == a + b[..|b| - 1];
      RunConcat(s, a, b[..|b| - 1], handlers);
    }
  }

  lemma RunCons(s: State, a: Action, rest: seq<Action>, handlers: set<nat>)
    requires Enabled(s, a)
    ensures Run(s, [a] + rest, handlers) == Run(Step(s, a, handlers), rest, handlers)
  {
    RunConcat(s, [a], rest, handlers);
    assert [a][..0] == [];
  }

  predicate Looping(s: State, code: nat, n: nat) {
    && s.pc == CheckAbort && !s.ev.abort && s.hist.iterations == n && s.rec.counter == n % COUNTER_LIMIT
    && s.rec.current == Some(code) && (n > 0 ==> s.rec.lastIteration == Some(LoopImmediately))
    && |s.hist.calls| == n + 1 && s.hist.calls[0] == Started(code, true)
  }

  lemma OneMoreIteration(s: State, code: nat, n: nat, handlers: set<nat>)
    requires Looping(s, code, n)
    ensures var r := Run(s, [Background, Background, IterationReturns(LoopImmediately), Background], handlers);
            r.Some? && Looping(r.value, code, n + 1)
  {
    hide Run;
    var s1 := Step(s, Background, handlers);
    var s2 := Step(s1, Background, handlers);
    var s3 := Step(s2, IterationReturns(LoopImmediately), handlers);
    var s4 := Step(s3, Background, handlers);
    RunNil(s4, handlers);
    RunCons(s3, Background, [], handlers);
    RunCons(s2, IterationReturns(LoopImmediately), [Background], handlers);
    RunCons(s1, Background, [IterationReturns(LoopImmediately), Background], handlers);
    RunCons(s, Background, [Background, IterationReturns(LoopImmediately), Background], handlers);
    assert [Background] + [] == [Background];
    assert [IterationReturns(LoopImmediately)] + [Background] == [IterationReturns(LoopImmediately), Background];
    assert [Background] + [IterationReturns(LoopImmediately), Background] == [Background, IterationReturns(LoopImmediately), Background];
    assert [Background] + [Background, IterationReturns(LoopImmediately), Background]
        == [Background, Background, IterationReturns(LoopImmediately), Background];
  }

  lemma RunNil(s: State, handlers: set<nat>)
    ensures Run(s, [], handlers) == Some(s)
  {
  }

  lemma OpeningRuns(code: nat, handlers: set<nat>)
    requires code in handlers
    ensures var r := Run(INITIAL, Opening(code), handlers); r.Some? && Looping(r.value, code, 0)
  {
    hide Run, Scan;
    var s1 := Step(INITIAL, RequestExperiment(code), handlers);
    var s2 := Step(s1, StartExperiment(0), handlers);
    var s3 := Step(s2, Background, handlers);
    var s4 := Step(s3, Background, handlers);
    var s5 := Step(s4, Background, handlers);
    var s6 := Step(s5, Background, handlers);
    var s7 := Step(s6, Background, handlers);
    var s8 := Step(s7, StartReturns(StartSuccess), handlers);
    var s9 := Step(s8, Background, handlers);
    var tail := Opening(code);
    RunNil(s9, handlers);
    RunCons(s8, Background, [], handlers);                         assert [Background] + [] == tail[8..];
    RunCons(s7, StartReturns(StartSuccess), tail[8..], handlers);  assert [StartReturns(StartSuccess)] + tail[8..] == tail[7..];
    RunCons(s6, Background, tail[7..], handlers);                  assert [Background] + tail[7..] == tail[6..];
    RunCons(s5, Background, tail[6..], handlers);                  assert [Background] + tail[6..] == tail[5..];
    RunCons(s4, Background, tail[5..], handlers);                  assert [Background] + tail[5..] == tail[4..];
    RunCons(s3, Background, tail[4..], handlers);                  assert [Background] + tail[4..] == tail[3..];
    RunCons(s2, Background, tail[3..], handlers);                  assert [Background] + tail[3..] == tail[2..];
    RunCons(s1, StartExperiment(0), tail[2..], handlers);          assert [StartExperiment(0)] + tail[2..] == tail[1..];
    RunCons(INITIAL, RequestExperiment(code), tail[1..], handlers);
    assert [RequestExperiment(code)] + tail[1..] == tail;
  }

  /**
    * n iterations of the experiment that was requested, each looping immediately, leave the counter at n mod 2^32: the
    * snapshot law fails after 2^32 of them.
    */
  lemma {:induction false} CounterWraps(code: nat, handlers: set<nat>, n: nat)
    requires code in handlers
    ensures var r := Run(INITIAL, Opening(code) + Repeated(n), handlers); r.Some? && Looping(r.value, code, n)
  {
    hide Run;
    if n == 0 {
      OpeningRuns(code, handlers);
      assert Opening(code) + Repeated(0) == Opening(code);
    } else {
      CounterWraps(code, handlers, n - 1);
      var once := [Background, Background, IterationReturns(LoopImmediately), Background];
      assert Opening(code) + Repeated(n) == (Opening(code) + Repeated(n - 1)) + once;
      RunConcat(INITIAL, Opening(code) + Repeated(n - 1), once, handlers);
      OneMoreIteration(Run(INITIAL, Opening(code) + Repeated(n - 1), handlers).value, code, n - 1, handlers);
    }
  }

  // ---------- A waiting task is woken ----------

  /** How many more turns of the mission loop until the waiting task can go on. */
  function TurnsToWake(s: State): nat {
    if Awake(s) then 0 else if s.loopPc == SetStarted then 1 else 2
  }

  function Notifies(actions: seq<Action>): nat {
    if actions == [] then 0 else Notifies(actions[..|actions| - 1]) + (if actions[|actions| - 1] == Notify then 1 else 0)
  }

  /** Whatever else happens meanwhile, two turns of NotifyLoopIterationStart wake a waiting background task. */
  lemma {:induction false} WokenByMissionLoop(s: State, actions: seq<Action>, handlers: set<nat>)
    requires Invariant(s, handlers) && s.pc == WaitForLoop && Background !in actions
    requires Run(s, actions, handlers).Some?
    ensures var t := Run(s, actions, handlers).value;
      && Invariant(t, handlers) && t.pc == WaitForLoop
      && (Notifies(actions) >= TurnsToWake(s) ==> Awake(t))
      && (TurnsToWake(t) + Notifies(actions) <= TurnsToWake(s) || Awake(t))
    decreases |actions|
  {
    if actions == [] {
    } else {
      WokenByMissionLoop(s, actions[..|actions| - 1], handlers);
      var t := Run(s, actions[..|actions| - 1], handlers).value;
      StepKeepsInvariant(t, actions[|actions| - 1], handlers);
      hide Scan;
    }
  }
}
