/** The capture-readiness monitor: a thread that polls the device and an eventfd, and the threads
    that rearm and stop it, as interleaved atomic steps. */
module OutputMonitor {
  import opened Wrappers

  /** The largest value an eventfd holds; a write beyond it fails with EAGAIN. */
  const MAX_COUNTER: nat := 0xFFFF_FFFF_FFFF_FFFE

  /** Where the monitor thread is. `Polled` and `Checked` carry what the poll returned. */
  datatype Pc =
    | LoopCheck
    | Polling
    | Polled(failed: bool, wakeReady: bool, deviceReady: bool)
    | Checked(wakeReady: bool, deviceReady: bool)
    | AfterRead(deviceReady: bool)
    | Callback
    | ErrorNotify
    | ErrorCallback
    | Exited

  datatype StopPhase = Running | Flagged | Written | Returned

  /** `external` and `stopWrite` together are the eventfd counter, split by who wrote. The last
      four fields record history and are never read by a step. */
  datatype State = State(
    pc: Pc, armed: bool, external: nat, stopWrite: bool, stopping: bool, error: bool, stop: StopPhase,
    rearms: nat, notified: nat, errorNotified: nat, rearmedSince: bool)
  {
    function Counter(): nat {
      external + if stopWrite then 1 else 0
    }
  }

  datatype Step =
    | Start
    | CheckLoop
    | PollReturns(deviceIn: bool, deviceError: bool)
    | PollInterrupted
    | PollFails
    | CheckPoll
    | ReadWake
    | Decide
    | CallbackReturns(ok: bool)
    | NotifyError
    | ErrorCallbackReturns
    | Rearm
    | StopFlags
    | StopWrites
    | StopJoins

  /** Steps of the monitor thread itself; the others belong to its callers. */
  predicate OfThread(step: Step) {
    !(step.Start? || step.Rearm? || step.StopFlags? || step.StopWrites? || step.StopJoins?)
  }

  /** Before `Start` and after `Stop` there is no thread and no eventfd. */
  const IDLE := State(Exited, false, 0, false, false, false, Returned, 0, 0, 0, false)

  const STARTED := State(LoopCheck, true, 0, false, false, false, Running, 0, 0, 0, false)

  /** One atomic step; `None` when it is not enabled. `Start` on a running monitor and `Rearm` on
      a stopped one do nothing. */
  function Apply(s: State, step: Step): Option<State> {
    match step
    case Start => Some(if s.stop == Returned then STARTED else s)
    case CheckLoop =>
      if s.pc != LoopCheck then None else Some(s.(pc := if s.stopping then Exited else Polling))
    case PollReturns(deviceIn, deviceError) =>
      // The device is only polled while armed; an infinite poll returns only for an event.
      if s.pc != Polling || ((deviceIn || deviceError) && !s.armed)
        || !(s.Counter() > 0 || deviceIn || deviceError) then None
      else Some(s.(pc := Polled(deviceError, s.Counter() > 0, deviceIn)))
    case PollInterrupted =>
      if s.pc != Polling then None else Some(if s.stopping then s.(pc := Polled(true, false, false)) else s)
    case PollFails =>
      if s.pc != Polling then None else Some(s.(pc := Polled(true, false, false)))
    case CheckPoll =>
      if !s.pc.Polled? then None
      else if s.stopping then Some(s.(pc := Exited))
      else if s.pc.failed then Some(s.(pc := ErrorNotify, error := true))
      else Some(s.(pc := Checked(s.pc.wakeReady, s.pc.deviceReady)))
    case ReadWake =>
      if !s.pc.Checked? then None
      else if s.pc.wakeReady then
        Some(s.(pc := AfterRead(s.pc.deviceReady), external := 0, stopWrite := false, armed := true))
      else Some(s.(pc := AfterRead(s.pc.deviceReady)))
    case Decide =>
      if !s.pc.AfterRead? then None
      else if s.pc.deviceReady then
        Some(s.(pc := Callback, armed := false, notified := s.notified + 1, rearmedSince := false))
      else Some(s.(pc := LoopCheck))
    case CallbackReturns(ok) =>
      if s.pc != Callback then None else Some(s.(pc := if ok then LoopCheck else Exited))
    case NotifyError =>
      if s.pc != ErrorNotify then None
      else Some(s.(pc := ErrorCallback, errorNotified := s.errorNotified + 1))
    case ErrorCallbackReturns =>
      if s.pc != ErrorCallback then None else Some(s.(pc := Exited))
    case Rearm =>
      if s.stop == Returned then Some(s)
      else Some(s.(external := if s.Counter() < MAX_COUNTER then s.external + 1 else s.external,
                   rearms := s.rearms + 1, rearmedSince := true))
    case StopFlags =>
      if s.stop != Running then None else Some(s.(stopping := true, stop := Flagged))
    case StopWrites =>
      if s.stop != Flagged then None
      else Some(s.(stop := Written, stopWrite := s.stopWrite || s.Counter() < MAX_COUNTER))
    case StopJoins =>
      if s.stop != Written || s.pc != Exited then None
      else Some(s.(stop := Returned, external := 0, stopWrite := false, error := false))
  }

  /** Every interleaving: the state after the steps, `None` if one of them was not enabled. */
  function Run(s: State, steps: seq<Step>): Option<State>
    decreases |steps|
  {
    if steps == [] then Some(s)
    else
      match Apply(s, steps[0])
      case None => None
      case Some(t) => Run(t, steps[1..])
  }

  // ----- invariant -----

  /** Each notification uses up a token: the initial arming or one external write. */
  predicate TokensBalanced(s: State) {
    s.notified + (if s.armed then 1 else 0) + s.external <= 1 + s.rearms
  }

  predicate Inv(s: State) {
    && (s.stop != Returned ==>
          && TokensBalanced(s)
          && (s.stopping <==> s.stop != Running)
          && (s.stopWrite ==> s.stop == Written)
          // A thread that goes on to read the counter saw an external write in it.
          && (s.pc.Polled? && s.pc.wakeReady && !s.stopping ==> s.external > 0)
          && (s.pc.Checked? && s.pc.wakeReady ==> s.external > 0)
          // It only acts on a readable device while armed.
          && (s.pc.Polled? && s.pc.deviceReady ==> s.armed)
          && (s.pc.Checked? && s.pc.deviceReady ==> s.armed)
          && (s.pc.AfterRead? && s.pc.deviceReady ==> s.armed)
          && (s.pc == Callback ==> !s.armed)
          // No lost wakeup.
          && (!s.armed && s.rearmedSince ==> s.Counter() > 0)
          // Stop wakes a thread that is, or is about to be, in poll.
          && (s.stop == Written && s.pc == Polling ==> s.Counter() > 0)
          && s.errorNotified <= 1 && (s.errorNotified == 1 ==> s.pc == ErrorCallback || s.pc == Exited))
    && (s.stop == Returned ==> s.pc == Exited && s.notified <= 1 + s.rearms && s.errorNotified <= 1)
  }

  lemma PollKeeps(s: State, step: Step)
    requires Inv(s) && Apply(s, step).Some? && OfThread(step) && (s.pc == LoopCheck || s.pc == Polling || s.pc.Polled?)
    ensures Inv(Apply(s, step).value)
  {
  }

  lemma ActKeeps(s: State, step: Step)
    requires Inv(s) && Apply(s, step).Some? && OfThread(step) && s.pc != LoopCheck && s.pc != Polling && !s.pc.Polled?
    ensures Inv(Apply(s, step).value)
  {
  }

  lemma ThreadKeeps(s: State, step: Step)
    requires Inv(s) && Apply(s, step).Some? && OfThread(step)
    ensures Inv(Apply(s, step).value)
  {
    hide Inv, Apply;
    if s.pc == LoopCheck || s.pc == Polling || s.pc.Polled? {
      PollKeeps(s, step);
    } else {
      ActKeeps(s, step);
    }
  }

  lemma CallerKeeps(s: State, step: Step)
    requires Inv(s) && Apply(s, step).Some? && !OfThread(step)
    ensures Inv(Apply(s, step).value)
  {
  }

  lemma StepKeeps(s: State, step: Step)
    requires Inv(s) && Apply(s, step).Some?
    ensures Inv(Apply(s, step).value)
  {
    hide Inv, Apply;
    if OfThread(step) {
      ThreadKeeps(s, step);
    } else {
      CallerKeeps(s, step);
    }
  }

  lemma {:induction false} RunKeeps(s: State, steps: seq<Step>)
    requires Inv(s) && Run(s, steps).Some?
    ensures Inv(Run(s, steps).value)
    decreases |steps|
  {
    if steps != [] {
      StepKeeps(s, steps[0]);
      RunKeeps(Apply(s, steps[0]).value, steps[1..]);
    }
  }

  // ----- what every run from a fresh monitor satisfies -----

  /** Notifications are acknowledged one by one: there is at most one more than there were calls
      to rearm, whatever the interleaving and however often the monitor was restarted. */
  lemma NotificationsBounded(steps: seq<Step>)
    requires Run(IDLE, steps).Some?
    ensures var s := Run(IDLE, steps).value; s.notified <= 1 + s.rearms && s.errorNotified <= 1
  {
    RunKeeps(IDLE, steps);
  }

  /** A rearm after the last notification is never lost: a disarmed thread still finds the counter
      non-zero, so its next poll returns. */
  lemma NoLostWakeup(steps: seq<Step>)
    requires Run(IDLE, steps).Some?
    ensures var s := Run(IDLE, steps).value;
      s.stop != Returned && !s.armed && s.rearmedSince ==>
        s.Counter() > 0 && (s.pc == Polling ==> Apply(s, PollReturns(false, false)).Some?)
  {
    RunKeeps(IDLE, steps);
  }

  /** A bound on the steps the thread can still take once it has been told to stop. */
  function Remaining(pc: Pc): nat {
    match pc
    case Polling => 8
    case Polled(_, _, _) => 7
    case Checked(_, _) => 6
    case AfterRead(_) => 5
    case Callback => 4
    case LoopCheck => 3
    case ErrorNotify => 2
    case ErrorCallback => 1
    case Exited => 0
  }

  /** Once `Stop` has set its flag, every step of the thread takes it closer to its exit. */
  lemma StoppingProgress(s: State, step: Step)
    requires Inv(s) && s.stopping && s.stop != Returned && OfThread(step) && Apply(s, step).Some?
    ensures Remaining(Apply(s, step).value.pc) < Remaining(s.pc)
    ensures Apply(s, step).value.stopping && Apply(s, step).value.stop == s.stop
  {
  }

  /** The thread's next step when no device event, error or signal helps it along; a poll can then
      return only because the wake counter is non-zero. */
  function NextStep(pc: Pc): Step {
    match pc
    case LoopCheck => CheckLoop
    case Polling => PollReturns(false, false)
    case Polled(_, _, _) => CheckPoll
    case Checked(_, _) => ReadWake
    case AfterRead(_) => Decide
    case Callback => CallbackReturns(true)
    case ErrorNotify => NotifyError
    case ErrorCallback => ErrorCallbackReturns
    case Exited => CheckLoop
  }

  /** Once `Stop` has written, the thread is never stuck: it has exited and can be joined, or its
      next step is enabled without any help. In particular it cannot sleep in poll. */
  lemma StopNeverBlocks(steps: seq<Step>)
    requires Run(IDLE, steps).Some?
    ensures var s := Run(IDLE, steps).value;
      s.stop == Written ==>
        if s.pc == Exited then Apply(s, StopJoins).Some? else Apply(s, NextStep(s.pc)).Some?
  {
    RunKeeps(IDLE, steps);
  }

  /** A run of the thread alone from a stop request. */
  lemma {:induction false} StopBounded(s: State, steps: seq<Step>)
    requires Inv(s) && s.stopping && s.stop != Returned && Run(s, steps).Some?
    requires forall k :: 0 <= k < |steps| ==> OfThread(steps[k])
    ensures |steps| + Remaining(Run(s, steps).value.pc) <= Remaining(s.pc)
    decreases |steps|
  {
    if steps != [] {
      StepKeeps(s, steps[0]);
      StoppingProgress(s, steps[0]);
      StopBounded(Apply(s, steps[0]).value, steps[1..]);
    }
  }

  /** After `Stop` returned nothing is notified any more, until the next `Start`. */
  lemma {:induction false} SilentAfterStop(s: State, steps: seq<Step>)
    requires Inv(s) && s.stop == Returned && Run(s, steps).Some?
    requires forall k :: 0 <= k < |steps| ==> !steps[k].Start?
    ensures Run(s, steps).value == s
    decreases |steps|
  {
    if steps != [] {
      assert Apply(s, steps[0]) == Some(s);
      SilentAfterStop(s, steps[1..]);
    }
  }

  /** After a notification whose earlier rearms are all consumed, nothing more is notified until a
      rearm, however long the device stays readable. */
  lemma OncePerRearm(s: State, steps: seq<Step>)
    requires Inv(s) && s.stop != Returned && s.pc == Callback && s.external == 0 && Run(s, steps).Some?
    requires forall k :: 0 <= k < |steps| ==> !steps[k].Rearm? && !steps[k].Start?
    ensures Run(s, steps).value.notified == s.notified
  {
    QuietWhileDisarmed(s, steps);
  }

  predicate Quiet(s: State) {
    && (s.stop == Returned || s.external == 0) && !s.armed
    && !(s.pc.Checked? && (s.pc.wakeReady || s.pc.deviceReady))
    && !(s.pc.Polled? && s.pc.deviceReady)
    && !(s.pc.AfterRead? && s.pc.deviceReady)
  }

  lemma {:induction false} QuietWhileDisarmed(s: State, steps: seq<Step>)
    requires Inv(s) && Quiet(s) && Run(s, steps).Some?
    requires forall k :: 0 <= k < |steps| ==> !steps[k].Rearm? && !steps[k].Start?
    ensures Run(s, steps).value.notified == s.notified
    decreases |steps|
  {
    if steps != [] {
      var t := Apply(s, steps[0]).value;
      StepKeeps(s, steps[0]);
      QuietStep(s, steps[0]);
      QuietWhileDisarmed(t, steps[1..]);
    }
  }

  lemma QuietStep(s: State, step: Step)
    requires Inv(s) && Quiet(s) && Apply(s, step).Some? && !step.Rearm? && !step.Start?
    ensures Quiet(Apply(s, step).value) && Apply(s, step).value.notified == s.notified
  {
  }
}
