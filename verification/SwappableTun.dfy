/**
 The TUN wrapper whose device can be replaced while in use (vpn/swappable_tun.go), step by step: any
 number of Read and Write calls, one controlling caller that runs Swap and Close one after the other,
 the event forwarder, and devices that may be closed from outside.  Steps are single atomic accesses.
 */
module SwappableTun {
  /** An installed device; its position in `devices` identifies the handle the wrapper points to. */
  datatype Device = Device(batchSize: nat, wrapperCloses: nat, outside: bool)

  datatype Control = Idle | Refusing | Installing(batchSize: nat) | ClosingOld(h: nat) | ClosingCurrent

  /** Where a Read or Write call is; both run the same loop. */
  datatype Place = Loading | Inner(h: nat) | SawClosed(h: nat) | NotShutDown(h: nat) | Returned | ReturnedClosed(h: nat)

  /** `since` is the current device when the call began. */
  datatype Call = Call(place: Place, since: nat, retries: nat)

  datatype Forwarder = Top | Reloading | Forwarding(h: nat) | Ended

  datatype State = State(
    batchSize: nat,
    devices: seq<Device>,
    current: nat,
    closed: bool,
    control: Control,
    refused: nat,
    refusedClosed: nat,
    calls: seq<Call>,
    forwarder: Forwarder,
    eventsClosed: nat)

  datatype Step =
    | BeginSwap(batchSize: nat)
    | CloseRefused
    | Install
    | CloseOld
    | BeginClose
    | CloseCurrent
    | CloseOutside(h: nat)
    | BeginCall
    | Load(c: nat)
    | Answer(c: nat)
    | InnerClosed(c: nat)
    | CheckClosed(c: nat)
    | CheckCurrent(c: nat)
    | ForwarderTop
    | ForwarderLoad
    | ForwarderDone

  predicate IsClosed(d: Device) { d.wrapperCloses > 0 || d.outside }

  predicate Enabled(s: State, step: Step) {
    match step
    case BeginSwap(_) => s.control.Idle?
    case CloseRefused => s.control.Refusing?
    case Install => s.control.Installing?
    case CloseOld => s.control.ClosingOld? && s.control.h < |s.devices|
    case BeginClose => s.control.Idle?
    case CloseCurrent => s.control.ClosingCurrent? && s.current < |s.devices|
    case CloseOutside(h) => h < |s.devices|
    case BeginCall => true
    case Load(c) => c < |s.calls| && s.calls[c].place.Loading?
    case Answer(c) => c < |s.calls| && s.calls[c].place.Inner?
    // a device reports that it is closed only when it is
    case InnerClosed(c) =>
      c < |s.calls| && s.calls[c].place.Inner? && s.calls[c].place.h < |s.devices| && IsClosed(s.devices[s.calls[c].place.h])
    case CheckClosed(c) => c < |s.calls| && s.calls[c].place.SawClosed?
    case CheckCurrent(c) => c < |s.calls| && s.calls[c].place.NotShutDown?
    case ForwarderTop => s.forwarder.Top?
    case ForwarderLoad => s.forwarder.Reloading?
    // the event channel of a device is closed with the device
    case ForwarderDone => s.forwarder.Forwarding? && s.forwarder.h < |s.devices| && IsClosed(s.devices[s.forwarder.h])
  }

  function CloseDevice(s: State, h: nat): State
    requires h < |s.devices|
  {
    s.(devices := s.devices[h := s.devices[h].(wrapperCloses := s.devices[h].wrapperCloses + 1)])
  }

  function Go(s: State, c: nat, call: Call): State
    requires c < |s.calls|
  {
    s.(calls := s.calls[c := call])
  }

  function Apply(s: State, step: Step): State
    requires Enabled(s, step)
  {
    match step
    case BeginSwap(size) =>
      if s.closed || size != s.batchSize then s.(refused := s.refused + 1, control := Refusing)
      else s.(control := Installing(size))
    case CloseRefused => s.(refusedClosed := s.refusedClosed + 1, control := Idle)
    case Install =>
      s.(devices := s.devices + [Device(s.control.batchSize, 0, false)], current := |s.devices|, control := ClosingOld(s.current))
    case CloseOld => CloseDevice(s, s.control.h).(control := Idle)
    case BeginClose => if s.closed then s else s.(closed := true, control := ClosingCurrent)
    case CloseCurrent => CloseDevice(s, s.current).(control := Idle)
    case CloseOutside(h) => s.(devices := s.devices[h := s.devices[h].(outside := true)])
    case BeginCall => s.(calls := s.calls + [Call(Loading, s.current, 0)])
    case Load(c) => Go(s, c, s.calls[c].(place := Inner(s.current)))
    case Answer(c) => Go(s, c, s.calls[c].(place := Returned))
    case InnerClosed(c) => Go(s, c, s.calls[c].(place := SawClosed(s.calls[c].place.h)))
    case CheckClosed(c) =>
      var h := s.calls[c].place.h;
      Go(s, c, s.calls[c].(place := if s.closed then ReturnedClosed(h) else NotShutDown(h)))
    case CheckCurrent(c) =>
      var call := s.calls[c];
      Go(s, c, if s.current != call.place.h then call.(place := Loading, retries := call.retries + 1)
               else call.(place := ReturnedClosed(call.place.h)))
    case ForwarderTop =>
      if s.closed then s.(eventsClosed := s.eventsClosed + 1, forwarder := Ended) else s.(forwarder := Reloading)
    case ForwarderLoad => s.(forwarder := Forwarding(s.current))
    case ForwarderDone => s.(forwarder := Top)
  }

  function Start(batchSize: nat): State {
    State(batchSize, [Device(batchSize, 0, false)], 0, false, Idle, 0, 0, [], Top, 0)
  }

  // ---- The invariant ---------------------------------------------------------------------------------

  /** An installed device is current, or closed exactly once by the wrapper, or about to be. */
  predicate GoodDevice(s: State, h: nat)
    requires h < |s.devices|
  {
    && s.devices[h].batchSize == s.batchSize
    && s.devices[h].wrapperCloses ==
       if h < s.current then (if s.control == ClosingOld(h) then 0 else 1)
       else if s.closed && !s.control.ClosingCurrent? then 1 else 0
  }

  /** A retry is always on a newer device, and ErrClosed surfaces only for a reason. */
  predicate GoodCall(s: State, c: Call)
    requires |s.devices| == s.current + 1
  {
    match c.place
    case Loading => c.since + c.retries <= s.current
    case Inner(h) => c.since + c.retries <= h <= s.current
    case SawClosed(h) => c.since + c.retries <= h <= s.current && IsClosed(s.devices[h])
    case NotShutDown(h) => c.since + c.retries <= h <= s.current && IsClosed(s.devices[h])
    case Returned => c.since + c.retries <= s.current
    case ReturnedClosed(h) => c.since + c.retries <= s.current && h <= s.current && (s.closed || s.devices[h].outside)
  }

  predicate Shape(s: State) {
    && |s.devices| == s.current + 1
    && (s.control.Installing? ==> !s.closed && s.control.batchSize == s.batchSize)
    && (s.control.ClosingOld? ==> !s.closed && s.control.h + 1 == s.current)
    && (s.control.ClosingCurrent? ==> s.closed)
    && s.refused == s.refusedClosed + (if s.control.Refusing? then 1 else 0)
    && (s.forwarder.Forwarding? ==> s.forwarder.h <= s.current)
    && s.eventsClosed == (if s.forwarder.Ended? then 1 else 0) && (s.forwarder.Ended? ==> s.closed)
  }

  predicate Inv(s: State) {
    && Shape(s)
    && (forall h :: 0 <= h < |s.devices| ==> GoodDevice(s, h))
    && (forall c :: 0 <= c < |s.calls| ==> GoodCall(s, s.calls[c]))
  }

  predicate ControlStep(step: Step) {
    step.BeginSwap? || step.CloseRefused? || step.Install? || step.CloseOld? || step.BeginClose? || step.CloseCurrent? || step.CloseOutside?
  }

  lemma ControlKeepsInv(s: State, step: Step)
    requires Inv(s) && Enabled(s, step) && ControlStep(step)
    ensures Inv(Apply(s, step))
  {
    var t := Apply(s, step);
    assert t.calls == s.calls;
    forall h | 0 <= h < |t.devices| ensures GoodDevice(t, h) {
      assert h < |s.devices| ==> GoodDevice(s, h);
    }
    forall c | 0 <= c < |t.calls| ensures GoodCall(t, t.calls[c]) {
      assert GoodCall(s, s.calls[c]);
    }
  }

  lemma OtherKeepsInv(s: State, step: Step)
    requires Inv(s) && Enabled(s, step) && !ControlStep(step)
    ensures Inv(Apply(s, step))
  {
    assert GoodDevice(s, s.current);
    OtherKeepsDevices(s, step);
    OtherKeepsCalls(s, step);
  }

  lemma OtherKeepsDevices(s: State, step: Step)
    requires Inv(s) && Enabled(s, step) && !ControlStep(step)
    ensures var t := Apply(s, step); forall h :: 0 <= h < |t.devices| ==> GoodDevice(t, h)
  {
    var t := Apply(s, step);
    forall h | 0 <= h < |t.devices| ensures GoodDevice(t, h) { assert GoodDevice(s, h); }
  }

  lemma OtherKeepsCalls(s: State, step: Step)
    requires Inv(s) && Enabled(s, step) && !ControlStep(step)
    ensures var t := Apply(s, step); forall c :: 0 <= c < |t.calls| ==> GoodCall(t, t.calls[c])
  {
    var t := Apply(s, step);
    forall c | 0 <= c < |t.calls| ensures GoodCall(t, t.calls[c]) {
      if c < |s.calls| && t.calls[c] == s.calls[c] {
        assert GoodCall(s, s.calls[c]);
      } else {
        MovedCallIsGood(s, step, c);
      }
    }
  }

  /** The call that a step moves, or begins. */
  lemma MovedCallIsGood(s: State, step: Step, c: nat)
    requires Inv(s) && Enabled(s, step) && !ControlStep(step)
    requires c < |Apply(s, step).calls| && (c < |s.calls| ==> Apply(s, step).calls[c] != s.calls[c])
    ensures GoodCall(Apply(s, step), Apply(s, step).calls[c])
  {
    assert GoodDevice(s, s.current);
    assert c < |s.calls| ==> GoodCall(s, s.calls[c]);
  }

  predicate IsRun(t: seq<State>, steps: seq<Step>, batchSize: nat) {
    && |t| == |steps| + 1 && t[0] == Start(batchSize)
    && forall i {:trigger steps[i]} :: 0 <= i < |steps| ==> Enabled(t[i], steps[i]) && t[i + 1] == Apply(t[i], steps[i])
  }

  lemma {:induction false} RunKeepsInv(t: seq<State>, steps: seq<Step>, batchSize: nat, i: nat)
    requires IsRun(t, steps, batchSize) && i < |t|
    ensures Inv(t[i])
  {
    if i > 0 {
      RunKeepsInv(t, steps, batchSize, i - 1);
      if ControlStep(steps[i - 1]) {
        ControlKeepsInv(t[i - 1], steps[i - 1]);
      } else {
        OtherKeepsInv(t[i - 1], steps[i - 1]);
      }
    }
  }

  // ---- What callers see ------------------------------------------------------------------------------

  /**
   A call returns ErrClosed only when the wrapper was closed, or when the device that was current as
   it checked had been closed from outside: never because of a swap.
   */
  lemma ErrClosedHasReason(t: seq<State>, steps: seq<Step>, batchSize: nat, i: nat, c: nat)
    requires IsRun(t, steps, batchSize) && i < |steps| && c < |t[i].calls|
    requires !t[i].calls[c].place.ReturnedClosed? && c < |t[i + 1].calls| && t[i + 1].calls[c].place.ReturnedClosed?
    ensures t[i].closed || (t[i].current < |t[i].devices| && t[i].devices[t[i].current].outside)
  {
    RunKeepsInv(t, steps, batchSize, i);
    assert t[i + 1] == Apply(t[i], steps[i]);
    assert GoodCall(t[i], t[i].calls[c]) && GoodDevice(t[i], t[i].current);
  }

  /**
   A swap is refused exactly if the wrapper is closed or the batch sizes differ.  Otherwise the new
   device becomes current at once, calls that load from then on meet it, and the old one is closed.
   */
  lemma SwapTakesEffect(t: seq<State>, steps: seq<Step>, batchSize: nat, i: nat, size: nat)
    requires IsRun(t, steps, batchSize) && i < |t| && t[i].control.Idle?
    ensures var s := Apply(t[i], BeginSwap(size));
            if t[i].closed || size != batchSize then
              && s.devices == t[i].devices && s.current == t[i].current
              && Enabled(s, CloseRefused) && Apply(s, CloseRefused).refusedClosed == t[i].refusedClosed + 1
            else
              && Enabled(s, Install)
              && (var next := Apply(s, Install);
                  && next.current == |t[i].devices| < |next.devices| && next.devices[next.current] == Device(size, 0, false)
                  && (forall c: nat :: Enabled(next, Load(c)) ==> Apply(next, Load(c)).calls[c].place == Inner(|t[i].devices|))
                  && Enabled(next, CloseOld)
                  && Apply(next, CloseOld).devices[t[i].current].wrapperCloses == 1
                  && Apply(next, CloseOld).control.Idle?)
  {
    RunKeepsInv(t, steps, batchSize, i);
    SameBatchSize(t, steps, batchSize, i);
    assert GoodDevice(t[i], t[i].current);
  }

  /** A call held by a device that a swap has closed gets away from it, and goes on with the current one. */
  lemma SwapIsSeamless(t: seq<State>, steps: seq<Step>, batchSize: nat, i: nat, c: nat)
    requires IsRun(t, steps, batchSize) && i < |t| && c < |t[i].calls| && !t[i].closed && t[i].control.Idle?
    requires t[i].calls[c].place.Inner? && t[i].calls[c].place.h != t[i].current
    ensures Enabled(t[i], InnerClosed(c))
    ensures var s1 := Apply(t[i], InnerClosed(c));
            Enabled(s1, CheckClosed(c))
            && (var s2 := Apply(s1, CheckClosed(c));
                Enabled(s2, CheckCurrent(c))
                && (var s3 := Apply(s2, CheckCurrent(c));
                    Enabled(s3, Load(c)) && Apply(s3, Load(c)).calls[c].place == Inner(t[i].current)))
  {
    RunKeepsInv(t, steps, batchSize, i);
    assert GoodCall(t[i], t[i].calls[c]) && GoodDevice(t[i], t[i].calls[c].place.h);
  }

  /** A call retries at most once for every device installed since it began. */
  lemma RetriesBoundedBySwaps(t: seq<State>, steps: seq<Step>, batchSize: nat, i: nat, c: nat)
    requires IsRun(t, steps, batchSize) && i < |t| && c < |t[i].calls|
    ensures t[i].calls[c].retries <= t[i].current - t[i].calls[c].since
  {
    RunKeepsInv(t, steps, batchSize, i);
    assert GoodCall(t[i], t[i].calls[c]);
  }

  /**
   Every device handed over is closed exactly once by the wrapper unless it is current: at rest the
   old ones are closed, the current one exactly if the wrapper is, and the refused ones all are.
   */
  lemma DevicesClosedOnce(t: seq<State>, steps: seq<Step>, batchSize: nat, i: nat, h: nat)
    requires IsRun(t, steps, batchSize) && i < |t| && h < |t[i].devices|
    ensures t[i].devices[h].batchSize == batchSize && t[i].devices[h].wrapperCloses <= 1
    ensures t[i].control.Idle? ==>
      (t[i].devices[h].wrapperCloses == 1 <==> h != t[i].current || t[i].closed) && t[i].refusedClosed == t[i].refused
  {
    RunKeepsInv(t, steps, batchSize, i);
    SameBatchSize(t, steps, batchSize, i);
    assert GoodDevice(t[i], h);
  }

  lemma {:induction false} SameBatchSize(t: seq<State>, steps: seq<Step>, batchSize: nat, i: nat)
    requires IsRun(t, steps, batchSize) && i < |t|
    ensures t[i].batchSize == batchSize
  {
    if i > 0 {
      SameBatchSize(t, steps, batchSize, i - 1);
      assert t[i] == Apply(t[i - 1], steps[i - 1]);
    }
  }

  /** The event channel is closed at most once, and only after Close. */
  lemma EventsClosedOnce(t: seq<State>, steps: seq<Step>, batchSize: nat, i: nat)
    requires IsRun(t, steps, batchSize) && i < |t|
    ensures t[i].eventsClosed <= 1 && (t[i].eventsClosed == 1 ==> t[i].closed)
  {
    RunKeepsInv(t, steps, batchSize, i);
  }

  // ---- After Close everything comes to an end --------------------------------------------------------

  function ForwarderSteps(f: Forwarder): nat {
    match f
    case Reloading => 3
    case Forwarding(_) => 2
    case Top => 1
    case Ended => 0
  }

  function ForwarderStep(f: Forwarder): Step {
    match f
    case Reloading => ForwarderLoad
    case Forwarding(_) => ForwarderDone
    case Top => ForwarderTop
    case Ended => ForwarderTop
  }

  /** Once Close has returned, the forwarder can always go on and is done after three steps of its own. */
  lemma ForwarderEnds(t: seq<State>, steps: seq<Step>, batchSize: nat, i: nat)
    requires IsRun(t, steps, batchSize) && i < |t| && t[i].closed && t[i].control.Idle? && !t[i].forwarder.Ended?
    ensures Enabled(t[i], ForwarderStep(t[i].forwarder))
    ensures ForwarderSteps(Apply(t[i], ForwarderStep(t[i].forwarder)).forwarder) == ForwarderSteps(t[i].forwarder) - 1
  {
    RunKeepsInv(t, steps, batchSize, i);
    if t[i].forwarder.Forwarding? {
      assert GoodDevice(t[i], t[i].forwarder.h);
    }
  }

  /** Once Close has returned, a call that meets its device is told it is closed and does not retry. */
  lemma CallsEndAfterClose(t: seq<State>, steps: seq<Step>, batchSize: nat, i: nat, c: nat)
    requires IsRun(t, steps, batchSize) && i < |t| && t[i].closed && t[i].control.Idle? && c < |t[i].calls|
    requires t[i].calls[c].place.Inner?
    ensures Enabled(t[i], InnerClosed(c))
    ensures Apply(Apply(t[i], InnerClosed(c)), CheckClosed(c)).calls[c].place == ReturnedClosed(t[i].calls[c].place.h)
  {
    RunKeepsInv(t, steps, batchSize, i);
    assert GoodCall(t[i], t[i].calls[c]);
    assert GoodDevice(t[i], t[i].calls[c].place.h);
  }
}
