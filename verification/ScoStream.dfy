/** Opening and closing the SCO stream of a hands-free device (audio/sysvad/common.cpp): the calls
    are serialized, the completion of the status request runs between any two of their steps. */
module ScoStream {

  type NtStatus = int

  const STATUS_SUCCESS: NtStatus := 0
  const STATUS_INVALID_DEVICE_STATE: NtStatus := -1073741436

  predicate Failed(status: NtStatus) {
    status < 0
  }

  /** Where the one call of StreamOpen or StreamClose is. */
  datatype Call =
    | Ready
    | Opening                    // the first stream: IOCTL_BTHHFP_STREAM_OPEN is due
    | Opened                     // m_StreamStatus is to become success
    | Enabling                   // the event is to be cleared
    | Sending                    // the status request is to be sent
    | Undoing(streamOpen: bool)  // the count is back, the stream to be closed again
    | Invalidating               // m_StreamStatus is to become a failure
    | Closing                    // the last stream: IOCTL_BTHHFP_STREAM_CLOSE is due
    | Cancelling
    | Awaiting                   // in KeWaitForSingleObject
    | Reusing

  /** The status request: `Completing` is between the two statements of its completion routine. */
  datatype Request = Idle | InFlight | Completing

  datatype State = State(streams: int, status: NtStatus, event: bool, request: Request, cancelled: bool, call: Call)

  datatype Event =
    | Open
    | StreamOpened(ok: bool)
    | SetSuccess
    | ClearEvent
    | SendRequest(ok: bool)
    | Undo
    | SetInvalid
    | Close
    | StreamClosed
    | Cancel
    | Wake
    | Reuse
    | Complete(result: NtStatus)
    | SignalEvent

  /** StreamClose is only called for a stream that is open. */
  ghost predicate Enabled(s: State, e: Event) {
    match e
    case Open => s.call == Ready
    case StreamOpened(_) => s.call == Opening
    case SetSuccess => s.call == Opened
    case ClearEvent => s.call == Enabling
    case SendRequest(_) => s.call == Sending
    case Undo => s.call.Undoing?
    case SetInvalid => s.call == Invalidating
    case Close => s.call == Ready && s.streams > 0
    case StreamClosed => s.call == Closing
    case Cancel => s.call == Cancelling
    case Wake => s.call == Awaiting && s.event
    case Reuse => s.call == Reusing
    case Complete(_) => s.request == InFlight
    case SignalEvent => s.request == Completing
  }

  function Step(s: State, e: Event): State
    requires Enabled(s, e)
  {
    match e
    case Open => s.(streams := s.streams + 1, call := if s.streams + 1 == 1 then Opening else Ready)
    case StreamOpened(ok) => if ok then s.(call := Opened) else s.(streams := s.streams - 1, call := Undoing(false))
    case SetSuccess => s.(status := STATUS_SUCCESS, call := Enabling)
    case ClearEvent => s.(event := false, call := Sending)
    case SendRequest(ok) =>
      if ok then s.(request := InFlight, cancelled := false, call := Ready)
      else s.(event := true, streams := s.streams - 1, call := Undoing(true))
    case Undo => s.(call := Invalidating)
    case SetInvalid => s.(status := STATUS_INVALID_DEVICE_STATE, call := Ready)
    case Close => s.(streams := s.streams - 1, call := if s.streams - 1 == 0 then Closing else Ready)
    case StreamClosed => s.(call := Cancelling)
    case Cancel => s.(cancelled := true, call := Awaiting)
    case Wake => s.(call := Reusing)
    case Reuse => s.(call := Invalidating)
    case Complete(result) => s.(status := result, request := Completing)
    case SignalEvent => s.(event := true, request := Idle)
  }

  const INITIAL := State(0, STATUS_INVALID_DEVICE_STATE, true, Idle, false, Ready)

  /** The request is idle and nobody will write the status but the calls themselves. */
  ghost predicate Quiet(s: State) {
    s.request == Idle && s.event
  }

  ghost predicate Inv(s: State) {
    && (s.call != Sending ==> (s.event <==> s.request == Idle))
    && (s.request == InFlight || s.call == Enabling || s.call == Sending ==> s.status == STATUS_SUCCESS)
    && match s.call
       case Ready => s.streams >= 0 && (s.streams == 0 ==> Quiet(s) && Failed(s.status))
       case Opening => s.streams == 1 && Quiet(s)
       case Opened => s.streams == 1 && Quiet(s)
       case Enabling => s.streams == 1 && Quiet(s)
       case Sending => s.streams == 1 && s.request == Idle && !s.event
       case Undoing(_) => s.streams == 0 && Quiet(s)
       case Invalidating => s.streams == 0 && Quiet(s)
       case Closing => s.streams == 0
       case Cancelling => s.streams == 0
       case Awaiting => s.streams == 0 && s.cancelled
       case Reusing => s.streams == 0 && Quiet(s)
  }

  lemma StepKeeps(s: State, e: Event)
    requires Inv(s) && Enabled(s, e)
    ensures Inv(Step(s, e))
  {
  }

  ghost predicate Possible(s: State, es: seq<Event>)
    decreases |es|
  {
    es == [] || (Enabled(s, es[0]) && Possible(Step(s, es[0]), es[1..]))
  }

  function After(s: State, es: seq<Event>): State
    requires Possible(s, es)
    decreases |es|
  {
    if es == [] then s else After(Step(s, es[0]), es[1..])
  }

  lemma {:induction false} RunKeeps(s: State, es: seq<Event>)
    requires Inv(s) && Possible(s, es)
    ensures Inv(After(s, es))
    decreases |es|
  {
    if es != [] {
      StepKeeps(s, es[0]);
      RunKeeps(Step(s, es[0]), es[1..]);
    }
  }

  /** How many streams the callers hold: opens that succeeded less closes. */
  function Held(s: State, es: seq<Event>): int
    requires Possible(s, es)
    decreases |es|
  {
    if es == [] then 0
    else
      (match es[0]
       case Open => 1
       case StreamOpened(ok) => if ok then 0 else -1
       case SendRequest(ok) => if ok then 0 else -1
       case Close => -1
       case _ => 0) + Held(Step(s, es[0]), es[1..])
  }

  lemma {:induction false} StreamsAreHeld(s: State, es: seq<Event>)
    requires Possible(s, es)
    ensures After(s, es).streams == s.streams + Held(s, es)
    decreases |es|
  {
    if es != [] {
      StreamsAreHeld(Step(s, es[0]), es[1..]);
    }
  }

  /** Over any sequence of calls and completions: between calls the event is unsignalled exactly
      while the status request is out, and with no stream open the request is idle, the event is
      signalled and the status is a failure. */
  lemma EventFollowsRequest(es: seq<Event>)
    requires Possible(INITIAL, es) && After(INITIAL, es).call == Ready
    ensures var s := After(INITIAL, es);
      && (s.event <==> s.request == Idle)
      && (s.streams == 0 ==> s.request == Idle && s.event && Failed(s.status))
      && (s.request == InFlight ==> s.status == STATUS_SUCCESS)
      && s.streams == Held(INITIAL, es) >= 0
  {
    RunKeeps(INITIAL, es);
    StreamsAreHeld(INITIAL, es);
  }

  /** The only moment at which the event is unsignalled without a request out is inside StreamOpen,
      between clearing it and sending; a failed send signals it again. */
  lemma UnsignalledIff(s: State)
    requires Inv(s)
    ensures !s.event <==> s.request != Idle || s.call == Sending
    ensures s.call == Sending ==> s.request == Idle && Step(s, SendRequest(false)).event && !Step(s, SendRequest(true)).event
  {
  }

  /** StreamClose always finds a completion to wait for, past or to come, and what it waits for
      has been cancelled. */
  lemma CloseIsReleased(s: State)
    requires Inv(s) && s.call == Awaiting
    ensures s.event || (s.request == InFlight && s.cancelled) || s.request == Completing
    ensures forall e :: Enabled(s, e) ==> e.Wake? || e.Complete? || e.SignalEvent?
    ensures forall result :: s.request == InFlight ==> Step(Step(s, Complete(result)), SignalEvent).event
    ensures s.request == Completing ==> Step(s, SignalEvent).event
  {
  }

  /** From the wake-up of StreamClose to the next send, no completion can change the status: the
      failure code it leaves is not overwritten. */
  lemma FailureStays(s: State, e: Event)
    requires Inv(s) && Enabled(s, e)
    requires s.call == Reusing || s.call == Invalidating || (s.call == Ready && s.streams == 0)
    ensures !e.Complete? && !e.SignalEvent?
    ensures s.call == Ready ==> Step(s, e).status == s.status
  {
  }

  // ------------------------------------------------------------------------ whole calls

  lemma Follow(s: State, e: Event, es: seq<Event>)
    requires Enabled(s, e) && Possible(Step(s, e), es)
    ensures Possible(s, [e] + es) && After(s, [e] + es) == After(Step(s, e), es)
  {
    assert ([e] + es)[1..] == es;
  }

  /** The end of a call that failed, and of one that closed. */
  lemma Invalidates(s: State)
    requires s.call == Invalidating
    ensures Possible(s, [SetInvalid]) && After(s, [SetInvalid]) == s.(status := STATUS_INVALID_DEVICE_STATE, call := Ready)
    ensures Failed(STATUS_INVALID_DEVICE_STATE)
  {
    assert [SetInvalid] == [SetInvalid] + [];
    Follow(s, SetInvalid, []);
  }

  const OPENS: seq<Event> := [Open, StreamOpened(true), SetSuccess, ClearEvent, SendRequest(true)]
  const FAILS_TO_OPEN: seq<Event> := [Open, StreamOpened(false), Undo, SetInvalid]
  const FAILS_TO_SEND: seq<Event> := [Open, StreamOpened(true), SetSuccess, ClearEvent, SendRequest(false), Undo, SetInvalid]

  /** StreamOpen for the first stream, without a completion in between: one stream is open, its status
      success and the request out; or, whichever of its two requests fails, only the status changed. */
  lemma FirstOpen(s: State)
    requires Inv(s) && s.call == Ready && s.streams == 0
    ensures Possible(s, OPENS) && After(s, OPENS) == State(1, 0, false, InFlight, false, Ready) && !Failed(After(s, OPENS).status)
    ensures Possible(s, FAILS_TO_OPEN) && After(s, FAILS_TO_OPEN) == s.(status := STATUS_INVALID_DEVICE_STATE)
    ensures Possible(s, FAILS_TO_SEND) && After(s, FAILS_TO_SEND) == s.(status := STATUS_INVALID_DEVICE_STATE)
  {
    var sending := s.(streams := 1, status := STATUS_SUCCESS, event := false, call := Sending);
    FailedOpen(s);
    Follow(sending, SendRequest(true), []);
    FirstSteps(s, [SendRequest(true)] + []);
    assert OPENS == [Open, StreamOpened(true), SetSuccess, ClearEvent] + ([SendRequest(true)] + []);
    FailedSend(sending);
    FirstSteps(s, [SendRequest(false), Undo, SetInvalid]);
    assert FAILS_TO_SEND == [Open, StreamOpened(true), SetSuccess, ClearEvent] + [SendRequest(false), Undo, SetInvalid];
  }

  lemma FailedSend(s: State)
    requires s.call == Sending
    ensures Possible(s, [SendRequest(false), Undo, SetInvalid])
    ensures After(s, [SendRequest(false), Undo, SetInvalid])
         == s.(event := true, streams := s.streams - 1, status := STATUS_INVALID_DEVICE_STATE, call := Ready)
  {
    var s1 := Step(s, SendRequest(false));
    Invalidates(Step(s1, Undo));
    Follow(s1, Undo, [SetInvalid]);
    Follow(s, SendRequest(false), [Undo] + [SetInvalid]);
    assert [SendRequest(false)] + ([Undo] + [SetInvalid]) == [SendRequest(false), Undo, SetInvalid];
  }

  lemma FailedOpen(s: State)
    requires s.call == Ready && s.streams == 0
    ensures Possible(s, FAILS_TO_OPEN) && After(s, FAILS_TO_OPEN) == s.(status := STATUS_INVALID_DEVICE_STATE)
  {
    var s1 := Step(s, Open);
    var s2 := Step(s1, StreamOpened(false));
    Invalidates(Step(s2, Undo));
    Follow(s2, Undo, [SetInvalid]);
    Follow(s1, StreamOpened(false), [Undo] + [SetInvalid]);
    Follow(s, Open, [StreamOpened(false)] + ([Undo] + [SetInvalid]));
    assert FAILS_TO_OPEN == [Open] + ([StreamOpened(false)] + ([Undo] + [SetInvalid]));
  }

  lemma FirstSteps(s: State, es: seq<Event>)
    requires s.call == Ready && s.streams == 0
    requires Possible(s.(streams := 1, status := STATUS_SUCCESS, event := false, call := Sending), es)
    ensures var all := [Open, StreamOpened(true), SetSuccess, ClearEvent] + es;
      && Possible(s, all)
      && After(s, all) == After(s.(streams := 1, status := STATUS_SUCCESS, event := false, call := Sending), es)
  {
    var s1 := Step(s, Open);
    var s2 := Step(s1, StreamOpened(true));
    var s3 := Step(s2, SetSuccess);
    Follow(s3, ClearEvent, es);
    Follow(s2, SetSuccess, [ClearEvent] + es);
    Follow(s1, StreamOpened(true), [SetSuccess] + ([ClearEvent] + es));
    Follow(s, Open, [StreamOpened(true)] + ([SetSuccess] + ([ClearEvent] + es)));
    assert [Open, StreamOpened(true), SetSuccess, ClearEvent] + es
        == [Open] + ([StreamOpened(true)] + ([SetSuccess] + ([ClearEvent] + es)));
  }

  /** Opening another stream, and closing one that is not the last, only counts. */
  lemma OtherStreamsCount(s: State)
    requires Inv(s) && s.call == Ready && s.streams > 0
    ensures Step(s, Open) == s.(streams := s.streams + 1)
    ensures s.streams > 1 ==> Step(s, Close) == s.(streams := s.streams - 1)
  {
  }

  /** What completes the status request when it is cancelled, as far as that is still to come. */
  function Completion(r: Request, result: NtStatus): seq<Event> {
    match r
    case InFlight => [Complete(result), SignalEvent]
    case Completing => [SignalEvent]
    case Idle => []
  }

  /** StreamClose for the last stream, wherever the status request is: it comes back with the request
      idle, the event signalled and a failure status, whatever the completion wrote. */
  lemma LastClose(s: State, result: NtStatus)
    requires Inv(s) && s.call == Ready && s.streams == 1
    ensures var es := [Close, StreamClosed, Cancel] + (Completion(s.request, result) + [Wake, Reuse, SetInvalid]);
      && Possible(s, es)
      && After(s, es) == State(0, 0xC000_0184 - 0x1_0000_0000, true, Idle, true, Ready)
  {
    var s1 := Step(s, Close);
    var s2 := Step(s1, StreamClosed);
    var s3 := Step(s2, Cancel);
    var rest := Completion(s.request, result) + [Wake, Reuse, SetInvalid];
    CompletesAndWakes(s3, result);
    Follow(s2, Cancel, rest);
    Follow(s1, StreamClosed, [Cancel] + rest);
    Follow(s, Close, [StreamClosed] + ([Cancel] + rest));
    assert [Close, StreamClosed, Cancel] + rest == [Close] + ([StreamClosed] + ([Cancel] + rest));
  }

  lemma CompletesAndWakes(s: State, result: NtStatus)
    requires s.call == Awaiting && (s.event <==> s.request == Idle)
    ensures var es := Completion(s.request, result) + [Wake, Reuse, SetInvalid];
      && Possible(s, es)
      && After(s, es) == s.(status := STATUS_INVALID_DEVICE_STATE, event := true, request := Idle, call := Ready)
    decreases if s.request == InFlight then 2 else if s.request == Completing then 1 else 0
  {
    var tail := [Wake, Reuse, SetInvalid];
    if s.request == Idle {
      var s1 := Step(s, Wake);
      Invalidates(Step(s1, Reuse));
      Follow(s1, Reuse, [SetInvalid]);
      Follow(s, Wake, [Reuse] + [SetInvalid]);
      assert tail == [Wake] + ([Reuse] + [SetInvalid]) && [] + tail == tail;
    } else {
      var e := if s.request == InFlight then Complete(result) else SignalEvent;
      var s1 := Step(s, e);
      CompletesAndWakes(s1, result);
      Follow(s, e, Completion(s1.request, result) + tail);
      assert Completion(s.request, result) + tail == [e] + (Completion(s1.request, result) + tail);
    }
  }

  /** The status at the end of a run: what StreamOpen, StreamClose or a completion wrote last. */
  function Written(before: NtStatus, es: seq<Event>): NtStatus
    decreases |es|
  {
    if es == [] then before
    else
      var now := match es[0]
        case SetSuccess => STATUS_SUCCESS
        case SetInvalid => STATUS_INVALID_DEVICE_STATE
        case Complete(result) => result
        case _ => before;
      Written(now, es[1..])
  }

  lemma {:induction false} StatusIsWritten(s: State, es: seq<Event>)
    requires Possible(s, es)
    ensures After(s, es).status == Written(s.status, es)
    decreases |es|
  {
    if es != [] {
      StatusIsWritten(Step(s, es[0]), es[1..]);
    }
  }

  /** Requests to open the stream that succeeded, less requests to close it. */
  function Balance(s: State, es: seq<Event>): int
    requires Possible(s, es)
    decreases |es|
  {
    if es == [] then 0
    else
      (match es[0]
       case StreamOpened(ok) => if ok then 1 else 0
       case Undo => if s.call.streamOpen then -1 else 0
       case StreamClosed => -1
       case _ => 0) + Balance(Step(s, es[0]), es[1..])
  }

  /** Whether the device has been asked to open its stream and not to close it. */
  predicate DeviceOpen(s: State) {
    match s.call
    case Ready => s.streams > 0
    case Undoing(streamOpen) => streamOpen
    case Opened => true
    case Enabling => true
    case Sending => true
    case Closing => true
    case _ => false
  }

  lemma {:induction false} BalanceIs(s: State, es: seq<Event>)
    requires Inv(s) && Possible(s, es)
    ensures (if DeviceOpen(After(s, es)) then 1 else 0) == (if DeviceOpen(s) then 1 else 0) + Balance(s, es)
    decreases |es|
  {
    if es != [] {
      StepKeeps(s, es[0]);
      BalanceIs(Step(s, es[0]), es[1..]);
    }
  }

  /** Over any sequence of calls the device is asked to close exactly the stream it was asked to open:
      never twice, and never without. */
  lemma OpensAndClosesBalance(es: seq<Event>)
    requires Possible(INITIAL, es) && After(INITIAL, es).call == Ready
    ensures Balance(INITIAL, es) == if After(INITIAL, es).streams > 0 then 1 else 0
  {
    BalanceIs(INITIAL, es);
  }
}
