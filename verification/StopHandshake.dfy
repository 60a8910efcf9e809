/** State changes of the capture pins against the timer and DPC of the simulated hardware
    (avstream/avshws), every statement that another processor can observe being a step. */
module StopHandshake {
  import opened Words

  datatype KsState = KsStop | KsAcquire | KsPause | KsRun
  datatype HardwareState = HardwareStopped | HardwarePaused | HardwareRunning
  /** Where a thread inside CCapturePin::SetState is. */
  datatype Call =
    | Resting
    | Acquiring                  // holds m_PinsWithResources, no synthesizer yet
    | Starting                   // the synthesis buffer is there, HardwareRunning not set
    | Arming                     // HardwareRunning is set, the timer is not
    | Flagging(to: KsState)      // about to set m_StopHardware
    | Waiting(to: KsState)       // in KeWaitForSingleObject
    | Halting(to: KsState)       // about to set HardwarePaused or HardwareStopped
    | Freeing(to: KsState)       // HardwareStopped is set, the synthesis buffer still there
    | Releasing(failed: bool)    // ReleaseHardwareResources: the synthesizer still there
    | Unsinking(failed: bool)    // the capture sink still set
    | Unlocking(failed: bool)    // m_PinsWithResources still 1
    | Released                   // m_AcquiredResources still TRUE

  /** Where a run of FakeHardware is. */
  datatype Dpc = Synthesize | Interrupt | Check | Rearm | Clear | Signal

  datatype Pin = Pin(ks: KsState, hardware: HardwareState, acquired: bool, call: Call)

  datatype State = State(
    pins: seq<Pin>,
    // CCaptureDevice
    pinsWithResources: bool,
    imageSynth: bool,
    captureSink: Option<nat>,
    // CHardwareSimulation
    hardware: HardwareState,
    stopHardware: bool,
    hardwareEvent: bool,
    synthesisBuffer: bool,
    timer: bool,                 // m_IsrTimer is set
    dpcQueued: bool,             // m_IsrFakeDpc is queued
    dpcs: seq<Dpc>,              // its running instances
    // the pin that exchanged m_PinsWithResources last and has not given it back
    owner: Option<nat>)

  const UNUSED := Pin(KsStop, HardwareStopped, false, Resting)

  // ------------------------------------------------------------------------- events

  datatype Event =
    | Acquire(pin: nat)                   // STOP to ACQUIRE: the interlocked exchange
    | MakeSynthesizer(ok: bool)           // the rest of AcquireHardwareResources
    | Pause                               // ACQUIRE to PAUSE
    | Run(ok: bool)                       // PAUSE to RUN: Start up to its allocation, or Pause(FALSE)
    | SetRunning
    | SetTimer
    | Leave(to: KsState)                  // RUN to PAUSE, PAUSE to ACQUIRE or any state to STOP
    | SetFlag
    | Wake
    | Halt
    | FreeBuffer
    | DeleteSynthesizer
    | ClearSink
    | Unlock
    | ForgetResources(pin: nat)
    | Expire                              // the timer goes off and queues the DPC
    | Dispatch                            // a processor takes the DPC
    | DpcStep(i: nat)

  /** The call the owner is in. */
  ghost predicate OwnerIn(s: State, call: Call) {
    s.owner.Some? && s.owner.value < |s.pins| && s.pins[s.owner.value].call == call
  }

  function Owner(s: State): Pin
    requires s.owner.Some? && s.owner.value < |s.pins|
  {
    s.pins[s.owner.value]
  }

  /** The state changes a pin is asked for: one step up or down, or straight to STOP. */
  predicate MayLeave(p: Pin, to: KsState) {
    p.call == Resting && p.ks != KsStop
      && (to == KsStop || (to == KsAcquire && p.ks == KsPause) || (to == KsPause && p.ks == KsRun))
  }

  ghost predicate Enabled(s: State, e: Event) {
    match e
    case Acquire(i) => i < |s.pins| && s.pins[i].call == Resting && s.pins[i].ks == KsStop
    case MakeSynthesizer(_) => OwnerIn(s, Acquiring)
    case Pause => OwnerIn(s, Resting) && Owner(s).ks == KsAcquire
    case Run(_) => OwnerIn(s, Resting) && Owner(s).ks == KsPause
    case SetRunning => OwnerIn(s, Starting)
    case SetTimer => OwnerIn(s, Arming)
    case Leave(to) => s.owner.Some? && s.owner.value < |s.pins| && MayLeave(Owner(s), to)
    case SetFlag => s.owner.Some? && s.owner.value < |s.pins| && Owner(s).call.Flagging?
    case Wake => s.owner.Some? && s.owner.value < |s.pins| && Owner(s).call.Waiting? && s.hardwareEvent
    case Halt => s.owner.Some? && s.owner.value < |s.pins| && Owner(s).call.Halting?
    case FreeBuffer => s.owner.Some? && s.owner.value < |s.pins| && Owner(s).call.Freeing?
    case DeleteSynthesizer => s.owner.Some? && s.owner.value < |s.pins| && Owner(s).call.Releasing?
    case ClearSink => s.owner.Some? && s.owner.value < |s.pins| && Owner(s).call.Unsinking?
    case Unlock => s.owner.Some? && s.owner.value < |s.pins| && Owner(s).call.Unlocking?
    case ForgetResources(i) => i < |s.pins| && s.pins[i].call == Released
    case Expire => s.timer
    case Dispatch => s.dpcQueued
    case DpcStep(i) => i < |s.dpcs|
  }

  function SetOwner(s: State, p: Pin): State
    requires s.owner.Some? && s.owner.value < |s.pins|
  {
    s.(pins := s.pins[s.owner.value := p])
  }

  /** What follows a call to CCaptureDevice::Stop in SetState, and the Stop of a pin that has
      nothing running. */
  function AfterStop(p: Pin, to: KsState): Pin {
    if to == KsStop && p.acquired then p.(hardware := HardwareStopped, call := Releasing(false))
    else p.(hardware := HardwareStopped, ks := to, call := Resting)
  }

  /** The first step down: Pause(TRUE) and Stop test the hardware's state. */
  function LeaveStep(s: State, to: KsState): State
    requires s.owner.Some? && s.owner.value < |s.pins|
  {
    var p := Owner(s);
    if to == KsPause then
      SetOwner(s, if s.hardware == HardwareRunning then p.(call := Flagging(to))
                  else p.(ks := KsPause, hardware := HardwarePaused))
    else if p.hardware == HardwareStopped then SetOwner(s, AfterStop(p, to))
    else SetOwner(s, p.(call := if s.hardware == HardwareRunning then Flagging(to) else Halting(to)))
  }

  function Step(s: State, e: Event): State
    requires Enabled(s, e)
  {
    match e
    case Acquire(i) =>
      if s.pinsWithResources then s     // STATUS_SHARING_VIOLATION
      else s.(pinsWithResources := true, imageSynth := false, owner := Some(i),
              pins := s.pins[i := s.pins[i].(call := Acquiring)])
    case MakeSynthesizer(ok) =>
      var p := Owner(s);
      if ok then SetOwner(s, p.(ks := KsAcquire, acquired := true, call := Resting))
                   .(imageSynth := true, captureSink := s.owner)
      else SetOwner(s, p.(call := Releasing(true)))
    case Pause => SetOwner(s, Owner(s).(ks := KsPause))
    case Run(ok) =>
      var p := Owner(s);
      if p.hardware == HardwarePaused then
        if s.hardware == HardwarePaused then SetOwner(s, p.(call := Arming)).(hardware := HardwareRunning)
        else SetOwner(s, p.(ks := KsRun, hardware := HardwareRunning))
      else if ok then SetOwner(s, p.(call := Starting)).(synthesisBuffer := true)
      else s.(synthesisBuffer := false)
    case SetRunning => SetOwner(s, Owner(s).(call := Arming)).(hardware := HardwareRunning)
    case SetTimer =>
      SetOwner(s, Owner(s).(ks := KsRun, hardware := HardwareRunning, call := Resting)).(timer := true)
    case Leave(to) => LeaveStep(s, to)
    case SetFlag => SetOwner(s, Owner(s).(call := Waiting(Owner(s).call.to))).(stopHardware := true)
    case Wake => SetOwner(s, Owner(s).(call := Halting(Owner(s).call.to))).(hardwareEvent := false)
    case Halt =>
      var p := Owner(s);
      if p.call.to == KsPause then
        SetOwner(s, p.(ks := KsPause, hardware := HardwarePaused, call := Resting)).(hardware := HardwarePaused)
      else SetOwner(s, p.(call := Freeing(p.call.to))).(hardware := HardwareStopped)
    case FreeBuffer => SetOwner(s, AfterStop(Owner(s), Owner(s).call.to)).(synthesisBuffer := false)
    case DeleteSynthesizer =>
      SetOwner(s, Owner(s).(call := Unsinking(Owner(s).call.failed))).(imageSynth := false)
    case ClearSink => SetOwner(s, Owner(s).(call := Unlocking(Owner(s).call.failed))).(captureSink := None)
    case Unlock =>
      var p := Owner(s);
      SetOwner(s, if p.call.failed then UNUSED else p.(ks := KsStop, call := Released))
        .(pinsWithResources := false, owner := None)
    case ForgetResources(i) => s.(pins := s.pins[i := s.pins[i].(acquired := false, call := Resting)])
    case Expire => s.(timer := false, dpcQueued := true)
    case Dispatch => s.(dpcQueued := false, dpcs := s.dpcs + [Synthesize])
    case DpcStep(i) => DpcAdvance(s, i)
  }

  function DpcAdvance(s: State, i: nat): State
    requires i < |s.dpcs|
  {
    match s.dpcs[i]
    case Synthesize => s.(dpcs := s.dpcs[i := Interrupt])
    case Interrupt => s.(dpcs := s.dpcs[i := Check])
    case Check => s.(dpcs := s.dpcs[i := if s.stopHardware then Clear else Rearm])
    case Rearm => s.(timer := true, dpcs := s.dpcs[..i] + s.dpcs[i + 1..])
    case Clear => s.(stopHardware := false, dpcs := s.dpcs[i := Signal])
    case Signal => s.(hardwareEvent := true, dpcs := s.dpcs[..i] + s.dpcs[i + 1..])
  }

  // ------------------------------------------------------------------------ invariant

  /** How many timers, queued DPCs and running DPCs there are. */
  function Outstanding(s: State): nat {
    (if s.timer then 1 else 0) + (if s.dpcQueued then 1 else 0) + |s.dpcs|
  }

  /** No interrupt can come and no one is waiting for one. */
  ghost predicate Still(s: State) {
    Outstanding(s) == 0 && !s.stopHardware && !s.hardwareEvent
  }

  ghost predicate StillAs(s: State, hardware: HardwareState, buffer: bool) {
    Still(s) && s.hardware == hardware && s.synthesisBuffer == buffer
  }

  /** Interrupts come and none has been asked to be the last. */
  ghost predicate Ticking(s: State) {
    && s.hardware == HardwareRunning && s.synthesisBuffer
    && Outstanding(s) == 1 && !s.stopHardware && !s.hardwareEvent
    && (s.dpcs != [] ==> s.dpcs[0] != Clear && s.dpcs[0] != Signal)
  }

  /** The stop has been asked for: it is pending, being answered, or answered. */
  ghost predicate Stopping(s: State) {
    && s.hardware == HardwareRunning && s.synthesisBuffer
    && if s.hardwareEvent then Outstanding(s) == 0 && !s.stopHardware
       else
         && Outstanding(s) == 1
         && (s.stopHardware <==> !(s.dpcs != [] && s.dpcs[0] == Signal))
  }

  /** What holds while the pin that owns the hardware is where it is. */
  ghost predicate OwnerInv(s: State, i: nat, p: Pin) {
    match p.call
    case Acquiring => p == Pin(KsStop, HardwareStopped, false, Acquiring) && StillAs(s, HardwareStopped, false)
    case Resting => HasAll(s, i, p) && p.ks != KsStop && p.hardware == s.hardware
        && (p.ks == KsRun <==> s.hardware == HardwareRunning) && (p.ks == KsAcquire ==> s.hardware == HardwareStopped)
        && (if s.hardware == HardwareRunning then Ticking(s) else StillAs(s, s.hardware, s.hardware == HardwarePaused))
    case Starting => HasAll(s, i, p) && p.ks == KsPause && StillAs(s, HardwareStopped, true)
    case Arming => HasAll(s, i, p) && p.ks == KsPause && StillAs(s, HardwareRunning, true)
    case Flagging(to) => to != KsRun && HasAll(s, i, p) && Ticking(s) && p.hardware == HardwareRunning
    case Waiting(to) => to != KsRun && HasAll(s, i, p) && Stopping(s) && p.hardware == HardwareRunning
    case Halting(to) => to != KsRun && HasAll(s, i, p) && Still(s) && s.synthesisBuffer && s.hardware != HardwareStopped
    case Freeing(to) => HasAll(s, i, p) && StillAs(s, HardwareStopped, true) && (to == KsStop || to == KsAcquire)
    case Releasing(failed) => StillAs(s, HardwareStopped, false) && p.hardware == HardwareStopped && p.acquired == !failed
    case Unsinking(failed) => StillAs(s, HardwareStopped, false) && p.hardware == HardwareStopped && p.acquired == !failed
    case Unlocking(failed) => StillAs(s, HardwareStopped, false) && p.hardware == HardwareStopped && p.acquired == !failed
    case Released => false
  }

  /** The owner has everything a DPC needs. */
  ghost predicate HasAll(s: State, i: nat, p: Pin) {
    p.acquired && s.imageSynth && s.captureSink == Some(i)
  }

  ghost predicate Inv(s: State) {
    && s.pinsWithResources == s.owner.Some?
    && (forall i :: 0 <= i < |s.pins| && s.owner != Some(i) ==> Unowning(s.pins[i]))
    && (s.owner.None? ==> StillAs(s, HardwareStopped, false))
    && (s.owner.Some? ==> s.owner.value < |s.pins| && OwnerInv(s, s.owner.value, Owner(s)))
  }

  ghost predicate Unowning(p: Pin) {
    p == UNUSED || p == Pin(KsStop, HardwareStopped, true, Released)
  }

  // --------------------------------------------------------------------- preservation

  lemma AcquireKeeps(s: State, i: nat)
    requires Inv(s) && Enabled(s, Acquire(i))
    ensures Inv(Step(s, Acquire(i)))
  {
  }

  lemma UpKeeps(s: State, e: Event)
    requires Inv(s) && Enabled(s, e) && (e.MakeSynthesizer? || e.Pause? || e.Run? || e.SetRunning? || e.SetTimer?)
    ensures Inv(Step(s, e))
  {
  }

  lemma LeaveKeeps(s: State, to: KsState)
    requires Inv(s) && Enabled(s, Leave(to))
    ensures Inv(Step(s, Leave(to)))
  {
  }

  lemma DownKeeps(s: State, e: Event)
    requires Inv(s) && Enabled(s, e) && (e.SetFlag? || e.Wake? || e.Halt? || e.FreeBuffer?)
    ensures Inv(Step(s, e))
  {
  }

  lemma ReleaseKeeps(s: State, e: Event)
    requires Inv(s) && Enabled(s, e)
    requires e.DeleteSynthesizer? || e.ClearSink? || e.Unlock? || e.ForgetResources?
    ensures Inv(Step(s, e))
  {
  }

  /** The timer and the DPC only ever hand on the one thing outstanding. */
  lemma TimerKeeps(s: State, e: Event)
    requires Inv(s) && Enabled(s, e) && (e.Expire? || e.Dispatch?)
    ensures Inv(Step(s, e))
  {
    assert s.dpcs == [] ==> s.dpcs + [Synthesize] == [Synthesize];
  }

  lemma DpcKeeps(s: State, i: nat)
    requires Inv(s) && Enabled(s, DpcStep(i))
    ensures Inv(Step(s, DpcStep(i)))
  {
    assert i == 0 && |s.dpcs| == 1;
  }

  lemma StepKeeps(s: State, e: Event)
    requires Inv(s) && Enabled(s, e)
    ensures Inv(Step(s, e))
  {
    match e
    case Acquire(i) => AcquireKeeps(s, i);
    case MakeSynthesizer(_) => UpKeeps(s, e);
    case Pause => UpKeeps(s, e);
    case Run(_) => UpKeeps(s, e);
    case SetRunning => UpKeeps(s, e);
    case SetTimer => UpKeeps(s, e);
    case Leave(to) => LeaveKeeps(s, to);
    case SetFlag => DownKeeps(s, e);
    case Wake => DownKeeps(s, e);
    case Halt => DownKeeps(s, e);
    case FreeBuffer => DownKeeps(s, e);
    case DeleteSynthesizer => ReleaseKeeps(s, e);
    case ClearSink => ReleaseKeeps(s, e);
    case Unlock => ReleaseKeeps(s, e);
    case ForgetResources(_) => ReleaseKeeps(s, e);
    case Expire => TimerKeeps(s, e);
    case Dispatch => TimerKeeps(s, e);
    case DpcStep(i) => DpcKeeps(s, i);
  }

  // --------------------------------------------------------------------- main results

  /** Any number of pins, none of them opened yet. */
  function Initial(count: nat): State {
    State(seq(count, i => UNUSED), false, false, None, HardwareStopped, false, false, false, false, false, [], None)
  }

  ghost predicate Possible(s: State, es: seq<Event>)
    decreases |es|
  {
    es == [] || (Enabled(s, es[0]) && Possible(Step(s, es[0]), es[1..]))
  }

  function After(s: State, es: seq<Event>): State
    requires Possible(s, es)
    decreases |es|
  {
    if es == [] then s else After(Step(s, es[0]), es[1..])
  }

  lemma {:induction false} RunKeeps(s: State, es: seq<Event>)
    requires Inv(s) && Possible(s, es)
    ensures Inv(After(s, es))
    decreases |es|
  {
    if es != [] {
      StepKeeps(s, es[0]);
      RunKeeps(Step(s, es[0]), es[1..]);
    }
  }

  /** A pin that has the hardware: it acquired it, or is inside the acquiring call. */
  ghost predicate Holds(p: Pin) {
    p.call == Acquiring || (p.acquired && p.call != Released)
  }

  /** Everything a run of FakeHardware uses is there, and it belongs to the owning pin. */
  ghost predicate CanSynthesize(s: State) {
    s.hardware == HardwareRunning && s.synthesisBuffer && s.imageSynth && s.captureSink.Some? && s.captureSink == s.owner
  }

  /** In every interleaving of any number of pins with the timer and the DPC: at most one timer
      or DPC is outstanding, at most one pin has the hardware, and a DPC that can still run has
      the buffer, the synthesizer and the sink of that pin. */
  lemma HandshakeIsSafe(count: nat, es: seq<Event>)
    requires Possible(Initial(count), es)
    ensures var s := After(Initial(count), es);
      && Outstanding(s) <= 1
      && (forall i, j :: 0 <= i < |s.pins| && 0 <= j < |s.pins| && Holds(s.pins[i]) && Holds(s.pins[j]) ==> i == j)
      && (Outstanding(s) > 0 ==> CanSynthesize(s))
  {
    RunKeeps(Initial(count), es);
    InvIsSafe(After(Initial(count), es));
  }

  lemma InvIsSafe(s: State)
    requires Inv(s)
    ensures Outstanding(s) <= 1
    ensures forall i :: 0 <= i < |s.pins| && Holds(s.pins[i]) ==> s.owner == Some(i)
    ensures Outstanding(s) > 0 ==> CanSynthesize(s)
  {
  }

  /** The step with which Pause(TRUE) or Stop comes back to its caller. */
  ghost predicate Returns(s: State, e: Event) {
    Enabled(s, e) && ((e.Halt? && Owner(s).call.to == KsPause) || e.FreeBuffer?)
  }

  /** When Pause(TRUE) or Stop returns, no timer and no DPC is outstanding and the flag is clear;
      it stays so until a pin sets the timer again. */
  lemma ReturnsStill(s: State, e: Event)
    requires Inv(s) && Returns(s, e)
    ensures Still(Step(s, e))
  {
    StepKeeps(s, e);
  }

  lemma StillUntilTimer(s: State, e: Event)
    requires Inv(s) && Still(s) && Enabled(s, e) && !e.SetTimer?
    ensures Outstanding(Step(s, e)) == 0
  {
  }

  /** An upper bound on the steps the timer and the DPC still take before a waiting thread wakes. */
  function StepsToSignal(s: State): nat {
    if s.hardwareEvent then 0
    else if s.dpcs != [] then PhaseRank(s.dpcs[0])
    else if s.dpcQueued then 6
    else 7
  }

  function PhaseRank(d: Dpc): nat {
    match d
    case Signal => 1
    case Clear => 2
    case Check => 3
    case Interrupt => 4
    case Synthesize => 5
    case Rearm => 8
  }

  /** The interrupt event the hardware has next. */
  function NextInterrupt(s: State): Event {
    if s.dpcs != [] then DpcStep(0) else if s.dpcQueued then Dispatch else Expire
  }

  /** A thread in KeWaitForSingleObject is never left waiting: until the event is set the next
      interrupt step is possible, and each such step brings the event nearer; at most eight. */
  lemma WaiterIsReleased(s: State)
    requires Inv(s) && s.owner.Some? && Owner(s).call.Waiting? && !s.hardwareEvent
    ensures Enabled(s, NextInterrupt(s))
    ensures StepsToSignal(Step(s, NextInterrupt(s))) < StepsToSignal(s) <= 8
    ensures var s' := Step(s, NextInterrupt(s)); s'.owner == s.owner && Owner(s').call == Owner(s).call
  {
  }

  /** No other pin's step can delay it. */
  lemma OthersDoNotDelay(s: State, e: Event)
    requires Inv(s) && s.owner.Some? && Owner(s).call.Waiting? && Enabled(s, e)
    ensures Outstanding(Step(s, e)) <= 1
    ensures StepsToSignal(Step(s, e)) <= StepsToSignal(s) || e.Wake?
  {
    StepKeeps(s, e);
  }

  // ------------------------------------------------------------- what calls come to

  /** The state a pin is in, or the one its unfinished call was asked for. */
  function Goal(p: Pin): KsState {
    match p.call
    case Resting => p.ks
    case Acquiring => KsAcquire
    case Starting => KsRun
    case Arming => KsRun
    case Flagging(to) => to
    case Waiting(to) => to
    case Halting(to) => to
    case Freeing(to) => to
    case _ => KsStop
  }

  /** The next step of the owner's call; in KeWaitForSingleObject, of the interrupt it waits for. */
  function NextStep(s: State): Event
    requires s.owner.Some? && s.owner.value < |s.pins|
  {
    match Owner(s).call
    case Acquiring => MakeSynthesizer(true)
    case Starting => SetRunning
    case Arming => SetTimer
    case Flagging(_) => SetFlag
    case Waiting(_) => if s.hardwareEvent then Wake else NextInterrupt(s)
    case Halting(_) => Halt
    case Freeing(_) => FreeBuffer
    case Releasing(_) => DeleteSynthesizer
    case Unsinking(_) => ClearSink
    case Unlocking(_) => Unlock
    case Released => Unlock
    case Resting => Pause
  }

  function StepsLeft(s: State): nat
    requires s.owner.Some? && s.owner.value < |s.pins|
  {
    match Owner(s).call
    case Flagging(_) => 20
    case Waiting(_) => 7 + StepsToSignal(s)
    case Halting(_) => 6
    case Freeing(_) => 5
    case Releasing(_) => 4
    case Unsinking(_) => 3
    case Unlocking(_) => 2
    case Acquiring => 1
    case Starting => 2
    case Arming => 1
    case _ => 0
  }

  /** Pin `i` has come to rest in that state: with the hardware, or stopped and without it. */
  ghost predicate RestsIn(s: State, i: nat, to: KsState) {
    && i < |s.pins| && s.pins[i].ks == to
    && (if to == KsStop then s.owner == None && s.pins[i] == UNUSED
        else s.owner == Some(i) && s.pins[i].call == Resting)
  }

  /** A step of the call brings it to its end, or nearer and still asked for the same. */
  ghost predicate Nearer(s: State, t: State, i: nat)
    requires s.owner == Some(i) && i < |s.pins|
  {
    || RestsIn(t, i, Goal(s.pins[i]))
    || (Goal(s.pins[i]) == KsStop && Enabled(t, ForgetResources(i)) && RestsIn(Step(t, ForgetResources(i)), i, KsStop))
    || (t.owner == Some(i) && i < |t.pins| && Goal(t.pins[i]) == Goal(s.pins[i]) && t.pins[i].call != Resting
        && StepsLeft(t) < StepsLeft(s))
  }

  lemma NextStepWorks(s: State)
    requires Inv(s) && s.owner.Some? && Owner(s).call != Resting
    ensures Enabled(s, NextStep(s)) && Nearer(s, Step(s, NextStep(s)), s.owner.value)
  {
    if Owner(s).call.Waiting? {
      WaitWorks(s);
    } else {
      OwnStepWorks(s);
    }
  }

  lemma WaitWorks(s: State)
    requires Inv(s) && s.owner.Some? && Owner(s).call.Waiting?
    ensures Enabled(s, NextStep(s)) && Nearer(s, Step(s, NextStep(s)), s.owner.value)
  {
    if !s.hardwareEvent {
      WaiterIsReleased(s);
    }
  }

  lemma OwnStepWorks(s: State)
    requires Inv(s) && s.owner.Some? && Owner(s).call != Resting && !Owner(s).call.Waiting?
    ensures Enabled(s, NextStep(s)) && Nearer(s, Step(s, NextStep(s)), s.owner.value)
  {
  }

  lemma Follow(s: State, e: Event, es: seq<Event>)
    requires Enabled(s, e) && Possible(Step(s, e), es)
    ensures Possible(s, [e] + es) && After(s, [e] + es) == After(Step(s, e), es)
  {
    assert ([e] + es)[1..] == es;
  }

  /** Every call that is under way can be finished, within a bounded number of steps of its own and of
      the interrupts, and then the pin rests in the state it was asked for. */
  lemma {:induction false} CallsFinish(s: State) returns (es: seq<Event>)
    requires Inv(s) && s.owner.Some?
    ensures Possible(s, es) && |es| <= StepsLeft(s) + 1 && Inv(After(s, es))
    ensures RestsIn(After(s, es), s.owner.value, Goal(Owner(s)))
    decreases StepsLeft(s)
  {
    if Owner(s).call == Resting {
      es := [];
    } else {
      var e, i := NextStep(s), s.owner.value;
      NextStepWorks(s);
      StepKeeps(s, e);
      if RestsIn(Step(s, e), i, Goal(Owner(s))) {
        es := [];
      } else if Enabled(Step(s, e), ForgetResources(i)) {
        StepKeeps(Step(s, e), ForgetResources(i));
        es := [ForgetResources(i)] + [];
        Follow(Step(s, e), ForgetResources(i), []);
      } else {
        es := CallsFinish(Step(s, e));
      }
      Follow(s, e, es);
      es := [e] + es;
    }
  }

  /** The state a SetState call asks for, and the pin it is for. */
  function Asked(e: Event): KsState {
    match e
    case Acquire(_) => KsAcquire
    case Pause => KsPause
    case Run(_) => KsRun
    case Leave(to) => to
    case _ => KsStop
  }

  function Pinned(s: State, e: Event): nat
    requires e.Acquire? || s.owner.Some?
  {
    if e.Acquire? then e.pin else s.owner.value
  }

  /** The calls that are not refused: no other pin has the hardware, and memory for the synthesis
      buffer is there unless it exists. */
  ghost predicate Served(s: State, e: Event) {
    && Enabled(s, e) && (e.Acquire? || e.Pause? || e.Run? || e.Leave?)
    && (e.Acquire? ==> !s.pinsWithResources)
    && (e.Run? ==> e.ok || s.hardware == HardwarePaused)
  }

  /** Every SetState call that is not refused can be finished from any reachable state, and leaves its
      pin resting in the state asked for: in RUN with interrupts coming and everything a DPC needs, in
      PAUSE and ACQUIRE without interrupts, in STOP without the hardware. */
  lemma CallsAreMet(s: State, e: Event) returns (es: seq<Event>)
    requires Inv(s) && Served(s, e)
    ensures Possible(s, [e] + es)
    ensures var t := After(s, [e] + es);
      && RestsIn(t, Pinned(s, e), Asked(e)) && Inv(t)
      && (Asked(e) == KsRun ==> Outstanding(t) == 1 && !t.stopHardware && CanSynthesize(t))
      && (Asked(e) != KsRun ==> Still(t))
  {
    var s1 := Step(s, e);
    StepKeeps(s, e);
    if s1.owner == None {
      es := [];
    } else {
      es := CallsFinish(s1);
    }
    Follow(s, e, es);
  }

  /** A resting pin can be asked for the next state in either direction, and for STOP. */
  lemma RestingPinsCanMove(s: State)
    requires Inv(s) && s.owner.Some? && Owner(s).call == Resting
    ensures Enabled(s, Leave(KsStop))
    ensures Owner(s).ks == KsAcquire ==> Enabled(s, Pause)
    ensures Owner(s).ks == KsPause ==> Enabled(s, Run(true)) && Enabled(s, Leave(KsAcquire))
    ensures Owner(s).ks == KsRun ==> Enabled(s, Leave(KsPause))
  {
  }

  /** From every reachable state the hardware can be freed, the pin that had it being unused again. */
  lemma HardwareCanBeFreed(s: State) returns (es: seq<Event>)
    requires Inv(s) && s.owner.Some?
    ensures Possible(s, es) && Inv(After(s, es))
    ensures RestsIn(After(s, es), s.owner.value, KsStop) && Still(After(s, es))
  {
    es := CallsFinish(s);
    var t := After(s, es);
    if t.owner.Some? {
      RestingPinsCanMove(t);
      var rest := CallsAreMet(t, Leave(KsStop));
      Joined(s, es, [Leave(KsStop)] + rest);
      es := es + ([Leave(KsStop)] + rest);
    }
  }

  /** Two runs in a row are one. */
  lemma {:induction false} Joined(s: State, a: seq<Event>, b: seq<Event>)
    requires Possible(s, a) && Possible(After(s, a), b)
    ensures Possible(s, a + b) && After(s, a + b) == After(After(s, a), b)
    decreases |a|
  {
    if a == [] {
      assert a + b == b;
    } else {
      assert (a + b)[1..] == a[1..] + b;
      Joined(Step(s, a[0]), a[1..], b);
      Follow(s, a[0], a[1..] + b);
      assert a + b == [a[0]] + (a[1..] + b);
    }
  }

  /** The refused ones leave everything as it was. */
  lemma RefusedCallsChangeNothing(s: State, e: Event)
    requires Inv(s) && Enabled(s, e) && !Served(s, e) && (e.Acquire? || e.Run?)
    ensures Step(s, e) == s
  {
  }

  const GIVE_UP: seq<Event> := [DeleteSynthesizer] + ([ClearSink] + ([Unlock] + []))

  lemma GivesUp(s: State)
    requires s.owner.Some? && s.owner.value < |s.pins| && Owner(s).call == Releasing(true)
    ensures Possible(s, GIVE_UP)
    ensures After(s, GIVE_UP) == s.(imageSynth := false, captureSink := None, pinsWithResources := false, owner := None,
                                    pins := s.pins[s.owner.value := UNUSED])
  {
    var s1 := Step(s, DeleteSynthesizer);
    var s2 := Step(s1, ClearSink);
    Follow(s2, Unlock, []);
    Follow(s1, ClearSink, [Unlock] + []);
    Follow(s, DeleteSynthesizer, [ClearSink] + ([Unlock] + []));
  }

  /** So does an Acquire without memory for a synthesizer, once it has come back: the pin is unused and
      the hardware free again. */
  lemma AcquireWithoutMemory(s: State, i: nat)
    requires Inv(s) && Enabled(s, Acquire(i)) && s.owner == None
    ensures var es := [Acquire(i)] + ([MakeSynthesizer(false)] + GIVE_UP);
      Possible(s, es) && After(s, es) == s.(imageSynth := false, captureSink := None)
  {
    var s1 := Step(s, Acquire(i));
    var s2 := Step(s1, MakeSynthesizer(false));
    assert s.pins[i] == UNUSED;
    GivesUp(s2);
    assert s2.pins[i := UNUSED] == s.pins;
    Follow(s1, MakeSynthesizer(false), GIVE_UP);
    Follow(s, Acquire(i), [MakeSynthesizer(false)] + GIVE_UP);
  }

  const START_UP: seq<Event> := [Pause] + ([Run(true)] + ([SetRunning] + ([SetTimer] + [])))

  lemma StartsUp(s: State, i: nat)
    requires s.owner == Some(i) && i < |s.pins| && s.pins[i] == Pin(KsAcquire, HardwareStopped, true, Resting)
    ensures Possible(s, START_UP)
    ensures After(s, START_UP) == s.(hardware := HardwareRunning, synthesisBuffer := true, timer := true,
                                     pins := s.pins[i := Pin(KsRun, HardwareRunning, true, Resting)])
  {
    var s1 := Step(s, Pause);
    var s2 := Step(s1, Run(true));
    var s3 := Step(s2, SetRunning);
    Follow(s3, SetTimer, []);
    Follow(s2, SetRunning, [SetTimer] + []);
    Follow(s1, Run(true), [SetRunning] + ([SetTimer] + []));
    Follow(s, Pause, [Run(true)] + ([SetRunning] + ([SetTimer] + [])));
  }

  /** The first pin brought up to RUN. */
  lemma BringUpExample(count: nat)
    requires 0 < count
    ensures var es := [Acquire(0)] + ([MakeSynthesizer(true)] + START_UP);
      && Possible(Initial(count), es)
      && var t := After(Initial(count), es);
      |t.pins| == count && t.pins[0].ks == KsRun && Outstanding(t) == 1 && CanSynthesize(t) && t.owner == Some(0)
  {
    var s1 := Step(Initial(count), Acquire(0));
    var s2 := Step(s1, MakeSynthesizer(true));
    StartsUp(s2, 0);
    Follow(s1, MakeSynthesizer(true), START_UP);
    Follow(Initial(count), Acquire(0), [MakeSynthesizer(true)] + START_UP);
  }

  /** What a run leaves there: a synthesizer if the last allocation of one succeeded and it has not been
      deleted since, a sink likewise, a synthesis buffer from a Start with memory to a Stop. */
  function Made(before: bool, es: seq<Event>): bool
    decreases |es|
  {
    if es == [] then before
    else Made(if es[0].MakeSynthesizer? then es[0].ok else before && !es[0].DeleteSynthesizer?, es[1..])
  }

  function Sunk(before: bool, es: seq<Event>): bool
    decreases |es|
  {
    if es == [] then before
    else Sunk(if es[0].MakeSynthesizer? then es[0].ok else before && !es[0].ClearSink?, es[1..])
  }

  function Allocated(before: bool, es: seq<Event>): bool
    decreases |es|
  {
    if es == [] then before
    else Allocated((before || (es[0].Run? && es[0].ok)) && !es[0].FreeBuffer?, es[1..])
  }

  /** Without an owner there is neither synthesizer nor sink, nor before the owner has made them. */
  ghost predicate Bare(s: State) {
    && (s.owner == None || OwnerIn(s, Acquiring) ==> !s.imageSynth && s.captureSink == None)
    && (s.owner.Some? && s.owner.value < |s.pins| ==>
          match Owner(s).call
          case Releasing(failed) => failed ==> !s.imageSynth && s.captureSink == None
          case Unsinking(failed) => !s.imageSynth && (failed ==> s.captureSink == None)
          case Unlocking(_) => !s.imageSynth && s.captureSink == None
          case _ => true)
  }

  lemma BareStep(s: State, e: Event)
    requires Inv(s) && Bare(s) && Enabled(s, e)
    ensures Bare(Step(s, e))
  {
    if e.MakeSynthesizer? || e.DeleteSynthesizer? || e.ClearSink? || e.Unlock? || e.Acquire? {
      BareRelease(s, e);
    }
  }

  lemma BareRelease(s: State, e: Event)
    requires Inv(s) && Bare(s) && Enabled(s, e)
    requires e.MakeSynthesizer? || e.DeleteSynthesizer? || e.ClearSink? || e.Unlock? || e.Acquire?
    ensures Bare(Step(s, e))
  {
  }

  lemma MadeStep(s: State, e: Event)
    requires Inv(s) && Bare(s) && Enabled(s, e)
    ensures Step(s, e).imageSynth == Made(s.imageSynth, [e])
    ensures Step(s, e).captureSink.Some? == Sunk(s.captureSink.Some?, [e])
    ensures Step(s, e).synthesisBuffer == Allocated(s.synthesisBuffer, [e])
  {
    assert [e][1..] == [];
  }

  /** Over every run: the synthesizer is there exactly if the last attempt to make one succeeded and none
      was deleted since, and likewise the sink and the synthesis buffer. */
  lemma {:induction false} ResourcesAreMade(s: State, es: seq<Event>)
    requires Inv(s) && Bare(s) && Possible(s, es)
    ensures After(s, es).imageSynth == Made(s.imageSynth, es)
    ensures After(s, es).captureSink.Some? == Sunk(s.captureSink.Some?, es)
    ensures After(s, es).synthesisBuffer == Allocated(s.synthesisBuffer, es)
    decreases |es|
  {
    if es != [] {
      StepKeeps(s, es[0]);
      BareStep(s, es[0]);
      MadeStep(s, es[0]);
      assert [es[0]][1..] == [];
      ResourcesAreMade(Step(s, es[0]), es[1..]);
    }
  }

  /** In a reachable state a pause always finds the hardware running, and a pin that goes back to RUN
      finds it paused: Pause(TRUE) and Pause(FALSE) never return without effect. */
  lemma PausesAreEffective(s: State, e: Event)
    requires Inv(s) && Enabled(s, e)
    ensures e == Leave(KsPause) ==> s.hardware == HardwareRunning
    ensures e.Run? && Owner(s).hardware == HardwarePaused ==> s.hardware == HardwarePaused
  {
  }
}
