/** The coordinator of the attitude control modes (libs/adcs/AdcsCoordinator.cpp). */
module Adcs {
  import opened Words

  /** Values of the source's 8-bit enumeration, whether named or not; those from 0 on index the processors. */
  type Mode = m: int | -128 <= m < 128

  const DISABLED: Mode := -2
  const STOPPED: Mode := -1
  const PROCESSORS := 3

  predicate IsProcessor(m: Mode) {
    0 <= m < PROCESSORS
  }

  // ---------- Switching ----------

  /** The mode, the processors that are enabled and the modes that are blocked. */
  datatype State = State(mode: Mode, enabled: seq<bool>, blocked: seq<bool>)

  ghost predicate Shape(s: State) {
    |s.enabled| == |s.blocked| == PROCESSORS && (IsProcessor(s.mode) || s.mode == STOPPED || s.mode == DISABLED)
  }

  /** A request to switch, with the answers its processors will give. */
  datatype Request = Request(mode: Mode, disableOk: bool, enableOk: bool)

  /** The state once the processor of the current mode was asked to stop. */
  function Left(s: State, r: Request): (t: State)
    requires Shape(s)
    ensures Shape(t)
  {
    if IsProcessor(s.mode) then State(STOPPED, if r.disableOk then s.enabled[s.mode := false] else s.enabled, s.blocked) else s
  }

  predicate MayEnter(s: State, r: Request) {
    if IsProcessor(s.mode) then r.disableOk else s.mode == STOPPED || r.mode == STOPPED
  }

  function Entered(s: State, r: Request): (t: State)
    requires Shape(s)
    ensures Shape(t)
  {
    if IsProcessor(r.mode) then
      if s.blocked[r.mode] || !r.enableOk then s else State(r.mode, s.enabled[r.mode := true], s.blocked)
    else if r.mode == DISABLED || r.mode == STOPPED then s.(mode := r.mode)
    else s
  }

  function Switched(s: State, r: Request): (t: State)
    requires Shape(s)
    ensures Shape(t)
  {
    if s.mode == r.mode then s else if MayEnter(s, r) then Entered(Left(s, r), r) else Left(s, r)
  }

  /**
    * The requested mode is entered exactly when the current processor stops if it has to, the disabled mode is left for
    * nothing but the stopped one, and the processor asked for is free and starts; otherwise the coordinator is stopped
    * if it left a processor, and where it was if not.
    */
  lemma EntersExactly(s: State, r: Request)
    requires Shape(s)
    ensures var t := Switched(s, r);
            t.mode == (if || r.mode == s.mode || r.mode == STOPPED
                          || (&& (IsProcessor(s.mode) ==> r.disableOk) && s.mode != DISABLED
                              && (r.mode == DISABLED || (IsProcessor(r.mode) && !s.blocked[r.mode] && r.enableOk)))
                       then r.mode
                       else if IsProcessor(s.mode) then STOPPED
                       else s.mode)
    ensures var t := Switched(s, r);
            && t.blocked == s.blocked
            && forall i | 0 <= i < PROCESSORS ::
                 t.enabled[i] <==> (t.mode == i && s.mode != i) || (s.enabled[i] && !(s.mode == i && r.mode != i && r.disableOk))
  {
  }

  function RunSwitches(s: State, rs: seq<Request>): (t: State)
    requires Shape(s)
    ensures Shape(t)
  {
    if rs == [] then s else Switched(RunSwitches(s, rs[..|rs| - 1]), rs[|rs| - 1])
  }

  /** Disabled is left exactly by a request to stop, and then for nothing but the stopped mode. */
  lemma DisabledLeftByStop(s: State, r: Request)
    requires Shape(s) && s.mode == DISABLED
    ensures Switched(s, r) == if r.mode == STOPPED then s.(mode := STOPPED) else s
  {
  }

  /** Until a stop is requested nothing gets out of the disabled mode. */
  lemma {:induction false} DisabledStays(s: State, rs: seq<Request>)
    requires Shape(s) && s.mode == DISABLED && forall i | 0 <= i < |rs| :: rs[i].mode != STOPPED
    ensures RunSwitches(s, rs) == s
  {
    if rs == [] {
    } else {
      DisabledStays(s, rs[..|rs| - 1]);
      DisabledLeftByStop(s, rs[|rs| - 1]);
    }
  }

  /** A switch enables at most the processor asked for, only if it is not blocked, and ends in its mode then. */
  lemma OnlyRequestedIsEnabled(s: State, r: Request, i: nat)
    requires Shape(s) && i < PROCESSORS && Switched(s, r).enabled[i] && !s.enabled[i]
    ensures r.mode == i && !s.blocked[i] && r.enableOk && Switched(s, r).mode == i
    ensures s.mode == STOPPED || (IsProcessor(s.mode) && r.disableOk)
  {
  }

  /** A processor that is blocked all along is not enabled by any sequence of requests. */
  lemma {:induction false} BlockedIsNeverEnabled(s: State, rs: seq<Request>, i: nat)
    requires Shape(s) && i < PROCESSORS && s.blocked[i] && !s.enabled[i]
    ensures !RunSwitches(s, rs).enabled[i] && RunSwitches(s, rs).blocked == s.blocked
  {
    if rs == [] {
    } else {
      BlockedIsNeverEnabled(s, rs[..|rs| - 1], i);
    }
  }

  /** Exactly the processor of the current mode is enabled. */
  ghost predicate OnlyCurrent(s: State) {
    Shape(s) && forall i | 0 <= i < PROCESSORS :: s.enabled[i] <==> s.mode == i
  }

  lemma SwitchKeepsOnlyCurrent(s: State, r: Request)
    requires OnlyCurrent(s) && r.disableOk
    ensures OnlyCurrent(Switched(s, r))
  {
  }

  /** A failed disable is the only way for a processor to stay enabled outside its mode. */
  lemma FailedDisableLingers(s: State, r: Request)
    requires OnlyCurrent(s) && !r.disableOk
    ensures OnlyCurrent(Switched(s, r)) <==> !IsProcessor(s.mode) || r.mode == s.mode
  {
    if IsProcessor(s.mode) && r.mode != s.mode { assert Switched(s, r).enabled[s.mode]; }
  }

  // ---------- Timing ----------

  /** What the loop does that matters to its schedule. */
  datatype Event = Changed(mode: Mode, at: nat) | Processed(mode: Mode, at: nat)

  /** The last change of mode and the number of processor runs since. */
  function LastChange(log: seq<Event>): Event {
    if log == [] then Changed(STOPPED, 0)
    else if log[|log| - 1].Changed? then log[|log| - 1]
    else LastChange(log[..|log| - 1])
  }

  function RunsSince(log: seq<Event>): nat {
    if log == [] || log[|log| - 1].Changed? then 0 else RunsSince(log[..|log| - 1]) + 1
  }

  /** The earliest time of the next processor run since the last change. */
  function Earliest(log: seq<Event>, waits: seq<nat>): nat
    requires |waits| == PROCESSORS
  {
    var c := LastChange(log);
    c.at + if IsProcessor(c.mode) then RunsSince(log) * waits[c.mode] else 0
  }

  /** Every processor runs in its own mode and, the k-th time, not before k waits have passed since the mode was entered. */
  ghost predicate OnTime(log: seq<Event>, waits: seq<nat>)
    requires |waits| == PROCESSORS
  {
    if log == [] then true
    else
      var front, last := log[..|log| - 1], log[|log| - 1];
      OnTime(front, waits)
      && (last.Processed? ==> IsProcessor(last.mode) && LastChange(front).mode == last.mode && Earliest(front, waits) <= last.at)
  }

  lemma {:induction false} KthOnTime(log: seq<Event>, waits: seq<nat>, mode: Mode, at: nat, runs: seq<Event>, k: nat)
    requires |waits| == PROCESSORS && OnTime(log + [Changed(mode, at)] + runs, waits)
    requires k < |runs| && forall i | 0 <= i < |runs| :: runs[i].Processed?
    ensures IsProcessor(mode) && runs[k].mode == mode && runs[k].at >= at + k * waits[mode]
  {
    var whole := log + [Changed(mode, at)] + runs;
    var last := |runs| - 1;
    assert whole[..|whole| - 1] == log + [Changed(mode, at)] + runs[..last] && whole[|whole| - 1] == runs[last];
    if k < last {
      KthOnTime(log, waits, mode, at, runs[..last], k);
    } else {
      SinceChange(log, mode, at, runs[..last]);
    }
  }

  lemma {:induction false} SinceChange(log: seq<Event>, mode: Mode, at: nat, runs: seq<Event>)
    requires forall i | 0 <= i < |runs| :: runs[i].Processed?
    ensures LastChange(log + [Changed(mode, at)] + runs) == Changed(mode, at)
    ensures RunsSince(log + [Changed(mode, at)] + runs) == |runs|
  {
    var whole := log + [Changed(mode, at)] + runs;
    if runs == [] {
      assert whole[|whole| - 1] == Changed(mode, at);
    } else {
      assert whole[..|whole| - 1] == log + [Changed(mode, at)] + runs[..|runs| - 1];
      SinceChange(log, mode, at, runs[..|runs| - 1]);
    }
  }

  lemma ChangeLogged(log: seq<Event>, waits: seq<nat>, mode: Mode, at: nat)
    requires |waits| == PROCESSORS && OnTime(log, waits)
    ensures var now := log + [Changed(mode, at)];
            OnTime(now, waits) && LastChange(now) == Changed(mode, at) && Earliest(now, waits) == at
  {
    assert (log + [Changed(mode, at)])[..|log|] == log;
  }

  lemma RunLogged(log: seq<Event>, waits: seq<nat>, mode: Mode, at: nat)
    requires |waits| == PROCESSORS && OnTime(log, waits) && IsProcessor(mode)
    requires LastChange(log).mode == mode && Earliest(log, waits) <= at
    ensures var now := log + [Processed(mode, at)];
            OnTime(now, waits) && LastChange(now) == LastChange(log) && Earliest(now, waits) == Earliest(log, waits) + waits[mode]
  {
    assert (log + [Processed(mode, at)])[..|log|] == log;
    assert (RunsSince(log) + 1) * waits[mode] == RunsSince(log) * waits[mode] + waits[mode];
  }

  // ---------- Turns of the loop ----------

  datatype Timeout = Infinite | Milliseconds(ms: nat)

  /** What the wait on the queue brings. */
  datatype Popped = TimedOut | Requested(request: Request)

  /**
    * The time that passes before each reading of the clock: during the wait, in the switch, before the check whether a
    * run is due, from there (through the run, if there is one) to the next reading, and to the last one after a run.
    */
  datatype Delays = Delays(wait: nat, switching: nat, check: nat, run: nat, after: nat)

  /** One turn as its surroundings decide it, with the mask changes that come before it. */
  datatype Turn = Turn(masks: seq<(Mode, bool)>, popped: Popped, delays: Delays)

  /** The processors with the local variables of the loop, the clock and the history of the schedule. */
  datatype LoopState = LoopState(view: State, mode: Mode, timeout: Timeout, next: nat, uptime: nat, log: seq<Event>)

  function Masked(blocked: seq<bool>, masks: seq<(Mode, bool)>): (b: seq<bool>)
    requires |blocked| == PROCESSORS
    ensures |b| == PROCESSORS
  {
    if masks == [] then blocked
    else
      var before, m := Masked(blocked, masks[..|masks| - 1]), masks[|masks| - 1];
      if IsProcessor(m.0) then before[m.0 := m.1] else before
  }

  /** After the wait: a request is served, and a change of mode starts a new schedule. */
  function AfterWait(s: LoopState, t: Turn): (u: LoopState)
    requires Shape(s.view)
    ensures Shape(u.view)
  {
    var view, now := s.view.(blocked := Masked(s.view.blocked, t.masks)), s.uptime + t.delays.wait;
    match t.popped
    case TimedOut => s.(view := view, uptime := now)
    case Requested(r) =>
      var switched := Switched(view, r);
      if switched.mode == view.mode then s.(view := switched, mode := switched.mode, uptime := now)
      else
        var at := now + t.delays.switching;
        LoopState(switched, switched.mode, s.timeout, at, at, s.log + [Changed(switched.mode, at)])
  }

  /** The processor of the mode runs when it is due; the next wait ends when it is due again. */
  function AfterCheck(s: LoopState, d: Delays, waits: seq<nat>): LoopState
    requires |waits| == PROCESSORS
  {
    var now := s.uptime + d.check;
    if !IsProcessor(s.mode) then s.(timeout := Infinite)
    else if now >= s.next then
      var left := Max(0, waits[s.mode] - (now + d.run - s.next));
      var end := now + d.run + d.after;
      s.(timeout := Milliseconds(left), next := end + left, uptime := end, log := s.log + [Processed(s.mode, now)])
    else
      var end := now + d.run;
      s.(timeout := Milliseconds(Max(0, s.next - end)), uptime := end)
  }

  function TurnTaken(s: LoopState, t: Turn, waits: seq<nat>): (u: LoopState)
    requires Shape(s.view) && |waits| == PROCESSORS
    ensures Shape(u.view)
  {
    AfterCheck(AfterWait(s, t), t.delays, waits)
  }

  function Looped(s: LoopState, turns: seq<Turn>, waits: seq<nat>): (u: LoopState)
    requires Shape(s.view) && |waits| == PROCESSORS
    ensures Shape(u.view)
  {
    if turns == [] then s else TurnTaken(Looped(s, turns[..|turns| - 1], waits), turns[|turns| - 1], waits)
  }

  /** The loop as it starts. */
  function Started(view: State, uptime: nat): LoopState {
    LoopState(view, STOPPED, Milliseconds(0), uptime, uptime, [])
  }

  /** The local mode is the current one, all runs were on time, and a wait that times out ends when the next run is due. */
  ghost predicate InTime(s: LoopState, waits: seq<nat>)
    requires |waits| == PROCESSORS
  {
    && Shape(s.view) && s.mode == s.view.mode && OnTime(s.log, waits)
    && (IsProcessor(s.mode) ==>
          LastChange(s.log).mode == s.mode && Earliest(s.log, waits) <= s.next
          && s.timeout.Milliseconds? && s.next <= s.uptime + s.timeout.ms)
  }

  lemma WaitKeepsTime(s: LoopState, t: Turn, waits: seq<nat>)
    requires |waits| == PROCESSORS && InTime(s, waits)
    ensures var u := AfterWait(s, t);
            && Shape(u.view) && u.mode == u.view.mode && OnTime(u.log, waits)
            && (IsProcessor(u.mode) ==> LastChange(u.log).mode == u.mode && Earliest(u.log, waits) <= u.next)
  {
    hide Switched, OnTime, LastChange, Earliest;
    var u := AfterWait(s, t);
    if u.log != s.log { ChangeLogged(s.log, waits, u.mode, u.uptime); }
  }

  lemma TurnKeepsTime(s: LoopState, t: Turn, waits: seq<nat>)
    requires |waits| == PROCESSORS && InTime(s, waits)
    ensures InTime(TurnTaken(s, t, waits), waits)
  {
    hide OnTime, LastChange, Earliest, AfterWait;
    WaitKeepsTime(s, t, waits);
    var u := AfterWait(s, t);
    if IsProcessor(u.mode) && u.uptime + t.delays.check >= u.next { RunLogged(u.log, waits, u.mode, u.uptime + t.delays.check); }
  }

  /** Over any turns, hence after each of them, the loop's mode is the current mode and every run was on time. */
  lemma {:induction false} LoopInTime(view: State, uptime: nat, turns: seq<Turn>, waits: seq<nat>)
    requires Shape(view) && view.mode == STOPPED && |waits| == PROCESSORS
    ensures InTime(Looped(Started(view, uptime), turns, waits), waits)
  {
    if turns == [] {
      assert OnTime([], waits);
    } else {
      LoopInTime(view, uptime, turns[..|turns| - 1], waits);
      TurnKeepsTime(Looped(Started(view, uptime), turns[..|turns| - 1], waits), turns[|turns| - 1], waits);
    }
  }

  /** In an uninterrupted mode of the loop the k-th run starts at least k waits after the first scheduled time. */
  lemma KthRun(view: State, uptime: nat, turns: seq<Turn>, waits: seq<nat>, log: seq<Event>, mode: Mode, at: nat, runs: seq<Event>,
               k: nat)
    requires Shape(view) && view.mode == STOPPED && |waits| == PROCESSORS
    requires Looped(Started(view, uptime), turns, waits).log == log + [Changed(mode, at)] + runs
    requires k < |runs| && forall i | 0 <= i < |runs| :: runs[i].Processed?
    ensures IsProcessor(mode) && runs[k].mode == mode && runs[k].at >= at + k * waits[mode]
  {
    LoopInTime(view, uptime, turns, waits);
    KthOnTime(log, waits, mode, at, runs, k);
  }

  /** A wait that times out in the mode of a processor is followed by a run of it. */
  lemma TimeoutRuns(view: State, uptime: nat, turns: seq<Turn>, waits: seq<nat>, t: Turn)
    requires Shape(view) && view.mode == STOPPED && |waits| == PROCESSORS
    requires var s := Looped(Started(view, uptime), turns, waits);
             IsProcessor(s.mode) && t.popped == TimedOut && (s.timeout.Milliseconds? ==> t.delays.wait >= s.timeout.ms)
    ensures var s := Looped(Started(view, uptime), turns, waits);
            TurnTaken(s, t, waits).log == s.log + [Processed(s.mode, s.uptime + t.delays.wait + t.delays.check)]
  {
    LoopInTime(view, uptime, turns, waits);
  }

  /** A request that changes the mode is served in its turn; if the new mode has a processor it is run at once. */
  lemma RequestServed(view: State, uptime: nat, turns: seq<Turn>, waits: seq<nat>, t: Turn)
    requires Shape(view) && view.mode == STOPPED && |waits| == PROCESSORS && t.popped.Requested?
    ensures var s := Looped(Started(view, uptime), turns, waits);
            var u := TurnTaken(s, t, waits);
            var before := s.view.(blocked := Masked(s.view.blocked, t.masks));
            var at := s.uptime + t.delays.wait + t.delays.switching;
            && u.view == Switched(before, t.popped.request) && u.mode == u.view.mode
            && (u.mode != s.mode ==>
                  u.log == s.log + [Changed(u.mode, at)] + if IsProcessor(u.mode) then [Processed(u.mode, at + t.delays.check)] else [])
  {
    LoopInTime(view, uptime, turns, waits);
    hide *;
    ServedInTurn(Looped(Started(view, uptime), turns, waits), t, waits);
  }

  lemma ServedInTurn(s: LoopState, t: Turn, waits: seq<nat>)
    requires |waits| == PROCESSORS && InTime(s, waits) && t.popped.Requested?
    ensures Shape(s.view)
    ensures var u := TurnTaken(s, t, waits);
            var before := s.view.(blocked := Masked(s.view.blocked, t.masks));
            var at := s.uptime + t.delays.wait + t.delays.switching;
            && u.view == Switched(before, t.popped.request) && u.mode == u.view.mode
            && (u.mode != s.mode ==>
                  u.log == s.log + [Changed(u.mode, at)] + if IsProcessor(u.mode) then [Processed(u.mode, at + t.delays.check)] else [])
  {
    hide Switched, Masked, OnTime, LastChange, Earliest;
    var w := AfterWait(s, t);
    assert w.log + [] == w.log;
  }

  /**
    * In the mode of a processor every turn waits exactly until the next run is due, in any other for a request. A run
    * moves that on by one wait, counted from when it was due, or to the end of the run if that is later.
    */
  lemma WaitsUntilDue(s: LoopState, t: Turn, waits: seq<nat>)
    requires |waits| == PROCESSORS && InTime(s, waits)
    ensures var w, u := AfterWait(s, t), TurnTaken(s, t, waits);
            !IsProcessor(u.mode) ==> u.timeout == Infinite && u.log == w.log
    ensures var w, u := AfterWait(s, t), TurnTaken(s, t, waits);
            IsProcessor(u.mode) ==>
            && u.timeout == Milliseconds(if u.next > u.uptime then u.next - u.uptime else 0)
            && u.next == (if u.log == w.log then w.next
                          else Max(w.next + waits[u.mode] + t.delays.after, u.uptime))
            && (u.log == w.log <==> w.uptime + t.delays.check < w.next)
  {
    hide AfterWait, OnTime, LastChange, Earliest;
    WaitKeepsTime(s, t, waits);
    var w := AfterWait(s, t);
    assert |w.log + [Processed(w.mode, w.uptime + t.delays.check)]| == |w.log| + 1;
  }

  /** The processor that is asked to stop, if any is, does. */
  predicate Cooperative(t: Turn) {
    t.popped.Requested? ==> t.popped.request.disableOk
  }

  /** As long as processors stop when asked, exactly that of the current mode is enabled, after every turn. */
  lemma {:induction false} LoopKeepsOnlyCurrent(view: State, uptime: nat, turns: seq<Turn>, waits: seq<nat>)
    requires OnlyCurrent(view) && |waits| == PROCESSORS && forall i | 0 <= i < |turns| :: Cooperative(turns[i])
    ensures OnlyCurrent(Looped(Started(view, uptime), turns, waits).view)
  {
    hide Switched;
    if turns == [] {
    } else {
      var last := turns[|turns| - 1];
      LoopKeepsOnlyCurrent(view, uptime, turns[..|turns| - 1], waits);
      var s := Looped(Started(view, uptime), turns[..|turns| - 1], waits);
      if last.popped.Requested? {
        SwitchKeepsOnlyCurrent(s.view.(blocked := Masked(s.view.blocked, last.masks)), last.popped.request);
      }
    }
  }

  // ---------- The coordinator ----------

  class AdcsCoordinator {
    var currentMode: Mode
    const adcsMasks: array<bool>
    /** The processors, as far as they are enabled. */
    const enabled: array<bool>
    /** The uptime, in milliseconds. */
    var uptime: nat
    /** The changes of mode and the runs of processors so far. */
    ghost var log: seq<Event>

    ghost predicate Valid()
      reads this, adcsMasks, enabled
    {
      adcsMasks != enabled && Shape(View())
    }

    ghost function View(): State
      reads this, adcsMasks, enabled
    {
      State(currentMode, enabled[..], adcsMasks[..])
    }

    constructor ()
      ensures Valid() && fresh(adcsMasks) && fresh(enabled)
      ensures currentMode == STOPPED && uptime == 0 && OnlyCurrent(View()) && log == []
      ensures forall m: Mode :: IsModeBlocked(m) <==> !IsProcessor(m)
    {
      currentMode, uptime, log := STOPPED, 0, [];
      adcsMasks := new bool[PROCESSORS](i => false);
      enabled := new bool[PROCESSORS](i => false);
    }

    /** The mode, if it has a processor, is blocked or not as asked, and every other one as before. */
    method SetBlockMode(mode: Mode, isBlocked: bool)
      requires Valid()
      modifies adcsMasks
      ensures Valid()
      ensures adcsMasks[..] == Masked(old(adcsMasks[..]), [(mode, isBlocked)])
      ensures forall m: Mode :: IsModeBlocked(m) <==> if m == mode && IsProcessor(m) then isBlocked else old(IsModeBlocked(m))
    {
      assert [(mode, isBlocked)][..0] == [];
      if mode < 0 || mode >= adcsMasks.Length {
        return;
      }
      adcsMasks[mode] := isBlocked;
    }

    /** Modes without a processor count as blocked. */
    predicate IsModeBlocked(mode: Mode)
      reads this, adcsMasks
      requires adcsMasks.Length == PROCESSORS
      ensures IsModeBlocked(mode) <==> !IsProcessor(mode) || adcsMasks[mode]
    {
      mode < 0 || mode >= adcsMasks.Length || adcsMasks[mode]
    }

    /** The new mode is returned, and whether it is another one. */
    method SwitchMode(r: Request) returns (mode: Mode, changed: bool)
      requires Valid()
      modifies this`currentMode, enabled
      ensures Valid() && View() == Switched(old(View()), r)
      ensures mode == currentMode && (changed <==> currentMode != old(currentMode))
    {
      var previousMode := currentMode;
      if previousMode == r.mode {
        return r.mode, false;
      }
      if IsProcessor(previousMode) {
        currentMode := STOPPED;
        if !r.disableOk {
          return STOPPED, true;
        }
        enabled[previousMode] := false;
      } else if previousMode != STOPPED {
        if r.mode != STOPPED {
          return previousMode, false;
        }
      }
      if IsProcessor(r.mode) {
        if IsModeBlocked(r.mode) {
          return currentMode, previousMode != currentMode;
        }
        if r.enableOk {
          enabled[r.mode] := true;
          currentMode := r.mode;
        }
        return currentMode, previousMode != currentMode;
      } else if r.mode == DISABLED || r.mode == STOPPED {
        currentMode := r.mode;
        return r.mode, true;
      }
      return currentMode, previousMode != currentMode;
    }

    method GetUptime(delay: nat) returns (now: nat)
      modifies this`uptime
      ensures now == uptime == old(uptime) + delay
    {
      uptime := uptime + delay;
      return uptime;
    }

    /** A processor run; the wait left until the next one, counted from the scheduled start. */
    method Run(mode: Mode, startTime: nat, wait: nat, duration: nat) returns (left: nat)
      requires startTime <= uptime
      modifies this`uptime, this`log
      ensures uptime == old(uptime) + duration && left == Max(0, wait - (uptime - startTime))
      ensures log == old(log) + [Processed(mode, old(uptime))]
    {
      log := log + [Processed(mode, uptime)];
      var now := GetUptime(duration);
      var elapsed := now - startTime;
      return Max(0, wait - elapsed);
    }

    /** The loop for a number of turns, up to its next wait. */
    method Loop(turns: seq<Turn>, waits: seq<nat>) returns (mode: Mode, timeout: Timeout, nextIterationAt: nat)
      requires Valid() && log == [] && |waits| == PROCESSORS
      modifies this, adcsMasks, enabled
      ensures Valid()
      ensures LoopState(View(), mode, timeout, nextIterationAt, uptime, log)
           == Looped(Started(old(View()), old(uptime)), turns, waits)
    {
      hide Looped, AfterWait, AfterCheck;
      mode, timeout := STOPPED, Milliseconds(0);
      nextIterationAt := GetUptime(0);
      ghost var start := LoopState(View(), mode, timeout, nextIterationAt, uptime, log);
      assert turns[..0] == [];
      NoTurns(start, waits);
      for k := 0 to |turns|
        invariant Valid()
        invariant LoopState(View(), mode, timeout, nextIterationAt, uptime, log) == Looped(start, turns[..k], waits)
      {
        OneMoreTurn(start, turns[..k], turns[k], waits);
        assert turns[..k + 1] == turns[..k] + [turns[k]];
        mode, nextIterationAt := Wait(turns[k], mode, timeout, nextIterationAt);
        timeout, nextIterationAt := Check(turns[k].delays, waits, mode, timeout, nextIterationAt);
      }
      assert turns[..|turns|] == turns;
    }

    /** The wait on the queue, and the switch if a request is popped. */
    method Wait(t: Turn, mode: Mode, timeout: Timeout, nextIterationAt: nat) returns (newMode: Mode, newNext: nat)
      requires Valid()
      modifies this, adcsMasks, enabled
      ensures Valid()
      ensures LoopState(View(), newMode, timeout, newNext, uptime, log)
           == AfterWait(LoopState(old(View()), mode, timeout, nextIterationAt, old(uptime), old(log)), t)
    {
      hide Switched, Masked;
      newMode, newNext := mode, nextIterationAt;
      ChangeMasks(t.masks);
      uptime := uptime + t.delays.wait;
      if t.popped.Requested? {
        var changed;
        newMode, changed := SwitchMode(t.popped.request);
        if changed {
          newNext := GetUptime(t.delays.switching);
          log := log + [Changed(newMode, newNext)];
        }
      }
    }

    /** The second half of a turn. */
    method Check(d: Delays, waits: seq<nat>, mode: Mode, timeout: Timeout, nextIterationAt: nat)
      returns (newTimeout: Timeout, newNext: nat)
      requires Valid() && |waits| == PROCESSORS
      modifies this`uptime, this`log
      ensures Valid()
      ensures LoopState(View(), mode, newTimeout, newNext, uptime, log)
           == AfterCheck(LoopState(old(View()), mode, timeout, nextIterationAt, old(uptime), old(log)), d, waits)
    {
      newTimeout, newNext := timeout, nextIterationAt;
      if !IsProcessor(mode) {
        newTimeout := Infinite;
      } else {
        var now := GetUptime(d.check);
        if now >= nextIterationAt {
          var left := Run(mode, nextIterationAt, waits[mode], d.run);
          now := GetUptime(d.after);
          newTimeout, newNext := Milliseconds(left), now + left;
        } else {
          now := GetUptime(d.run);
          newTimeout := Milliseconds(Max(0, nextIterationAt - now));
        }
      }
    }

    method ChangeMasks(masks: seq<(Mode, bool)>)
      requires Valid()
      modifies adcsMasks
      ensures Valid() && adcsMasks[..] == Masked(old(adcsMasks[..]), masks)
    {
      for i := 0 to |masks|
        invariant Valid() && adcsMasks[..] == Masked(old(adcsMasks[..]), masks[..i])
      {
        assert masks[..i + 1][..i] == masks[..i];
        SetBlockMode(masks[i].0, masks[i].1);
        assert [(masks[i].0, masks[i].1)][..0] == [];
      }
      assert masks[..|masks|] == masks;
    }
  }

  lemma NoTurns(s: LoopState, waits: seq<nat>)
    requires Shape(s.view) && |waits| == PROCESSORS
    ensures Looped(s, [], waits) == s
  {
  }

  lemma OneMoreTurn(s: LoopState, turns: seq<Turn>, t: Turn, waits: seq<nat>)
    requires Shape(s.view) && |waits| == PROCESSORS
    ensures Looped(s, turns + [t], waits) == TurnTaken(Looped(s, turns, waits), t, waits)
  {
    assert (turns + [t])[..|turns|] == turns;
  }
}
