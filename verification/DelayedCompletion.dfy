/** Requests completed after a delay by timer and work item, or cancelled before
    (TrEE/Miniport/TestService.c): the secure request and the plain IOCTL variant. */
module DelayedCompletion {

  // ---------------------------------------------------------------- the secure request

  datatype Status = Success | Cancelled

  /** Where the work item is. `Writing`: it fills the output buffer and completes next. */
  datatype Work = NotRun | Writing | DeletingTimer | Over

  /** Where a cancel callback is. `Refused`: the timer was no longer in the queue. */
  datatype Cancel = NotCalled | Stopped | CancelDeleting | CancelOver | Refused

  datatype Request = Request(
    timer: bool,                // the timer is in the queue
    callback: bool,             // its callback runs
    queued: bool,               // the work item is enqueued
    work: Work,
    cancel: Cancel,
    completions: seq<Status>,   // every completion of the request, in order
    output: bool,               // the output buffer holds the answer
    deletions: nat)             // deletions of the timer

  /** WdfTimerStart has run and the request is pending. */
  const DISPATCHED := Request(true, false, false, NotRun, NotCalled, [], false, 0)

  datatype Step = Expire | Enqueue | Run | Complete | DeleteTimer | CancelCall | CancelComplete | CancelDelete

  /** A completed request is not cancelled any more, and no request twice. */
  ghost predicate Enabled(r: Request, e: Step) {
    match e
    case Expire => r.timer
    case Enqueue => r.callback
    case Run => r.queued && r.work == NotRun
    case Complete => r.work == Writing
    case DeleteTimer => r.work == DeletingTimer
    case CancelCall => r.cancel == NotCalled && r.completions == []
    case CancelComplete => r.cancel == Stopped
    case CancelDelete => r.cancel == CancelDeleting
  }

  function Take(r: Request, e: Step): Request {
    match e
    case Expire => r.(timer := false, callback := true)
    case Enqueue => r.(callback := false, queued := true)
    case Run => r.(queued := false, work := Writing)
    case Complete => r.(output := true, completions := r.completions + [Success], work := DeletingTimer)
    case DeleteTimer => r.(deletions := r.deletions + 1, work := Over)
    case CancelCall => if r.timer then r.(timer := false, cancel := Stopped) else r.(cancel := Refused)
    case CancelComplete => r.(completions := r.completions + [Cancelled], cancel := CancelDeleting)
    case CancelDelete => r.(deletions := r.deletions + 1, cancel := CancelOver)
  }

  /** The live tokens: whoever holds one is going to complete the request. */
  function Tokens(r: Request): nat {
    (if r.timer then 1 else 0) + (if r.callback then 1 else 0) + (if r.queued then 1 else 0)
      + (if r.work == Writing then 1 else 0) + (if r.cancel == Stopped then 1 else 0)
  }

  ghost predicate Inv(r: Request) {
    && Tokens(r) + |r.completions| == 1
    && r.completions == (if r.work == DeletingTimer || r.work == Over then [Success]
                         else if r.cancel == CancelDeleting || r.cancel == CancelOver then [Cancelled] else [])
    && (r.output <==> r.work == DeletingTimer || r.work == Over)
    && r.deletions == (if r.work == Over || r.cancel == CancelOver then 1 else 0)
    && (r.cancel == Stopped || r.cancel == CancelDeleting || r.cancel == CancelOver ==> r.work == NotRun)
  }

  lemma TakeKeeps(r: Request, e: Step)
    requires Inv(r) && Enabled(r, e)
    ensures Inv(Take(r, e))
  {
  }

  /** Any number of requests; a run names the request each step belongs to, and new requests may
      be dispatched at any time. */
  datatype Event = Dispatch | At(request: nat, step: Step)

  ghost predicate Allowed(rs: seq<Request>, e: Event) {
    e.At? ==> e.request < |rs| && Enabled(rs[e.request], e.step)
  }

  function Apply(rs: seq<Request>, e: Event): seq<Request>
    requires Allowed(rs, e)
  {
    match e
    case Dispatch => rs + [DISPATCHED]
    case At(i, step) => rs[i := Take(rs[i], step)]
  }

  ghost predicate Possible(rs: seq<Request>, es: seq<Event>)
    decreases |es|
  {
    es == [] || (Allowed(rs, es[0]) && Possible(Apply(rs, es[0]), es[1..]))
  }

  function After(rs: seq<Request>, es: seq<Event>): seq<Request>
    requires Possible(rs, es)
    decreases |es|
  {
    if es == [] then rs else After(Apply(rs, es[0]), es[1..])
  }

  lemma {:induction false} RunKeeps(rs: seq<Request>, es: seq<Event>)
    requires Possible(rs, es) && forall r :: r in rs ==> Inv(r)
    ensures forall r :: r in After(rs, es) ==> Inv(r)
    decreases |es|
  {
    if es != [] {
      var next := Apply(rs, es[0]);
      if es[0].At? {
        assert rs[es[0].request] in rs;
        TakeKeeps(rs[es[0].request], es[0].step);
      }
      assert forall r :: r in next ==> Inv(r);
      RunKeeps(next, es[1..]);
    }
  }

  /** Nothing more can happen to the request. */
  ghost predicate Finished(r: Request) {
    Tokens(r) == 0 && r.work != DeletingTimer && r.cancel != CancelDeleting
  }

  /** In every interleaving of any number of requests, each one has exactly one live token or has
      been completed exactly once; when nothing is left to happen it is completed once, its timer
      is deleted once, and the answer is written exactly if it succeeded. */
  lemma CompletedOnce(es: seq<Event>, i: nat)
    requires Possible([], es) && i < |After([], es)|
    ensures var r := After([], es)[i];
      && Tokens(r) + |r.completions| == 1 && r.deletions <= 1
      && (Finished(r) ==> |r.completions| == 1 && r.deletions == 1)
      && (r.output <==> r.completions == [Success])
  {
    RunKeeps([], es);
    assert After([], es)[i] in After([], es);
  }

  /** A request is cancelled if and only if the cancel found the timer in the queue. */
  lemma CancelledIff(r: Request)
    requires Inv(r) && Finished(r)
    ensures r.completions == [Cancelled] <==> r.cancel == CancelOver
    ensures r.completions == [Success] <==> r.cancel == NotCalled || r.cancel == Refused
  {
  }

  /** Every unfinished request has a step of its own that brings it nearer to the end. */
  function Remaining(r: Request): nat {
    (if r.timer then 5 else 0) + (if r.callback then 4 else 0) + (if r.queued then 3 else 0)
      + (if r.work == Writing then 2 else if r.work == DeletingTimer then 1 else 0)
      + (if r.cancel == Stopped then 2 else if r.cancel == CancelDeleting then 1 else 0)
  }

  function NextStep(r: Request): Step {
    if r.timer then Expire else if r.callback then Enqueue else if r.queued then Run
    else if r.work == Writing then Complete else if r.work == DeletingTimer then DeleteTimer
    else if r.cancel == Stopped then CancelComplete else CancelDelete
  }

  lemma Progresses(r: Request)
    requires Inv(r) && !Finished(r)
    ensures Enabled(r, NextStep(r)) && Remaining(Take(r, NextStep(r))) < Remaining(r) <= 5
  {
  }

  /** Over every run with any number of requests: a cancel is noted for exactly the requests it was
      called for, and for the others the callback is still to come. */
  lemma {:induction false} CancelsAreNoted(rs: seq<Request>, es: seq<Event>, i: nat)
    requires Possible(rs, es) && i < |After(rs, es)|
    ensures After(rs, es)[i].cancel != NotCalled
        <==> (i < |rs| && rs[i].cancel != NotCalled) || At(i, CancelCall) in es
    decreases |es|
  {
    if es != [] {
      var next := Apply(rs, es[0]);
      if es[0].At? {
        CancelIsNoted(rs[es[0].request], es[0].step);
      }
      CancelsAreNoted(next, es[1..], i);
      assert At(i, CancelCall) in es <==> es[0] == At(i, CancelCall) || At(i, CancelCall) in es[1..];
    }
  }

  lemma CancelIsNoted(r: Request, e: Step)
    requires Enabled(r, e)
    ensures Take(r, e).cancel != NotCalled <==> r.cancel != NotCalled || e == CancelCall
  {
  }

  /** A cancel that comes while the timer is in the queue ends the request by its own three steps; one
      that comes later, before the completion, only notes itself. */
  lemma CancelEnds(r: Request)
    requires Inv(r) && r.cancel == NotCalled && r.completions == []
    ensures Enabled(r, CancelCall)
    ensures r.timer ==>
      var a := Take(r, CancelCall); var b := Take(a, CancelComplete); var c := Take(b, CancelDelete);
      && Enabled(a, CancelComplete) && Enabled(b, CancelDelete)
      && Finished(c) && c.completions == [Cancelled] && c.deletions == 1 && !c.output
    ensures !r.timer ==> Take(r, CancelCall) == r.(cancel := Refused)
  {
  }

  // ------------------------------------------------------------------- the IOCTL variant

  /** WdfRequestMarkCancelable has not run; has; the work item has taken it back; or the cancel
      routine has been called. */
  datatype Mark = Unmarked | Cancelable | TakenBack | CancelRuns

  datatype IoWork = IoNotRun | Answering | Unmarking | IoCompleting | IoDeleting | IoOver

  datatype IoCancel = IoNotCalled | Called | IoStopped | IoCancelDeleting | IoCancelOver | IoRefused

  datatype Io = Io(
    timer: bool, callback: bool, queued: bool,
    mark: Mark,
    work: IoWork,
    cancel: IoCancel,
    completions: seq<Status>,
    deletions: nat,
    abandoned: bool)            // the work item was told that the request is cancelled

  const STARTED := Io(true, false, false, Unmarked, IoNotRun, IoNotCalled, [], 0, false)

  datatype IoStep =
    | IoExpire | IoEnqueue | IoRun
    | IoAnswer | IoUnmark | IoComplete | IoDeleteTimer
    | IoMark | IoCancelCall | IoStopTimer | IoCancelComplete | IoCancelDelete

  ghost predicate IoEnabled(r: Io, e: IoStep) {
    match e
    case IoExpire => r.timer
    case IoEnqueue => r.callback
    case IoRun => r.queued && r.work == IoNotRun
    case IoAnswer => r.work == Answering
    case IoUnmark => r.work == Unmarking
    case IoComplete => r.work == IoCompleting
    case IoDeleteTimer => r.work == IoDeleting
    case IoMark => r.mark == Unmarked
    case IoCancelCall => r.mark == Cancelable
    case IoStopTimer => r.cancel == Called
    case IoCancelComplete => r.cancel == IoStopped
    case IoCancelDelete => r.cancel == IoCancelDeleting
  }

  /** Unmarking tells whether the cancel routine has been called; marking a request that the work
      item has already taken has no effect. */
  function IoTake(r: Io, e: IoStep): Io {
    match e
    case IoExpire => r.(timer := false, callback := true)
    case IoEnqueue => r.(callback := false, queued := true)
    case IoRun => r.(queued := false, work := Answering)
    case IoAnswer => r.(work := Unmarking)
    case IoUnmark =>
      if r.mark == CancelRuns then r.(abandoned := true, work := IoDeleting)
      else r.(mark := TakenBack, work := IoCompleting)
    case IoComplete => r.(completions := r.completions + [Success], work := IoDeleting)
    case IoDeleteTimer => r.(deletions := r.deletions + 1, work := IoOver)
    case IoMark => r.(mark := Cancelable)
    case IoCancelCall => r.(mark := CancelRuns, cancel := Called)
    case IoStopTimer => if r.timer then r.(timer := false, cancel := IoStopped) else r.(cancel := IoRefused)
    case IoCancelComplete => r.(completions := r.completions + [Cancelled], cancel := IoCancelDeleting)
    case IoCancelDelete => r.(deletions := r.deletions + 1, cancel := IoCancelOver)
  }

  /** The timer, or what became of it. */
  function IoTokens(r: Io): nat {
    (if r.timer then 1 else 0) + (if r.callback then 1 else 0) + (if r.queued then 1 else 0)
      + (if r.work != IoNotRun then 1 else 0)
      + (if r.cancel == IoStopped || r.cancel == IoCancelDeleting || r.cancel == IoCancelOver then 1 else 0)
  }

  ghost predicate IoInv(r: Io) {
    && IoTokens(r) == 1
    && (r.cancel != IoNotCalled <==> r.mark == CancelRuns)
    && (r.abandoned ==> r.mark == CancelRuns && (r.work == IoDeleting || r.work == IoOver))
    && (r.work == IoCompleting || ((r.work == IoDeleting || r.work == IoOver) && !r.abandoned) <==> r.mark == TakenBack)
    && r.completions == (if r.cancel == IoCancelDeleting || r.cancel == IoCancelOver then [Cancelled]
                         else if (r.work == IoDeleting || r.work == IoOver) && !r.abandoned then [Success] else [])
    && r.deletions == (if r.work == IoOver || r.cancel == IoCancelOver then 1 else 0)
  }

  lemma IoTakeKeeps(r: Io, e: IoStep)
    requires IoInv(r) && IoEnabled(r, e)
    ensures IoInv(IoTake(r, e))
  {
  }

  ghost predicate IoPossible(r: Io, es: seq<IoStep>)
    decreases |es|
  {
    es == [] || (IoEnabled(r, es[0]) && IoPossible(IoTake(r, es[0]), es[1..]))
  }

  function IoAfter(r: Io, es: seq<IoStep>): Io
    decreases |es|
  {
    if es == [] then r else IoAfter(IoTake(r, es[0]), es[1..])
  }

  lemma {:induction false} IoRunKeeps(r: Io, es: seq<IoStep>)
    requires IoInv(r) && IoPossible(r, es)
    ensures IoInv(IoAfter(r, es))
    decreases |es|
  {
    if es != [] {
      IoTakeKeeps(r, es[0]);
      IoRunKeeps(IoTake(r, es[0]), es[1..]);
    }
  }

  ghost predicate IoFinished(r: Io) {
    (r.work == IoNotRun || r.work == IoOver) && !r.timer && !r.callback && !r.queued
      && (r.cancel == IoNotCalled || r.cancel == IoCancelOver || r.cancel == IoRefused)
  }

  /** The IOCTL is completed at most once and its timer deleted at most once. When nothing is left
      to happen it has never been completed if and only if the cancel routine was called before the
      work item could take the request back, and yet found the timer gone off. */
  lemma IoCompletedAtMostOnce(es: seq<IoStep>)
    requires IoPossible(STARTED, es)
    ensures var r := IoAfter(STARTED, es);
      && |r.completions| <= 1 && r.deletions <= 1
      && (IoFinished(r) ==> r.deletions == 1 && (r.completions == [] <==> r.cancel == IoRefused))
      && (IoFinished(r) && r.cancel == IoRefused ==> r.abandoned)
  {
    IoRunKeeps(STARTED, es);
  }

  /** How far an IOCTL is from its end, and a step of its own that brings it nearer. */
  function IoRemaining(r: Io): nat {
    (if r.timer then 7 else 0) + (if r.callback then 6 else 0) + (if r.queued then 5 else 0) + IoWorkLeft(r.work)
      + IoCancelLeft(r.cancel)
  }

  function IoWorkLeft(w: IoWork): nat {
    match w
    case IoNotRun => 0
    case Answering => 4
    case Unmarking => 3
    case IoCompleting => 2
    case IoDeleting => 1
    case IoOver => 0
  }

  function IoCancelLeft(c: IoCancel): nat {
    match c
    case Called => 3
    case IoStopped => 2
    case IoCancelDeleting => 1
    case _ => 0
  }

  function IoNext(r: Io): IoStep {
    match r.work
    case Answering => IoAnswer
    case Unmarking => IoUnmark
    case IoCompleting => IoComplete
    case IoDeleting => IoDeleteTimer
    case _ =>
      match r.cancel
      case Called => IoStopTimer
      case IoStopped => IoCancelComplete
      case IoCancelDeleting => IoCancelDelete
      case _ => if r.timer then IoExpire else if r.callback then IoEnqueue else IoRun
  }

  lemma IoProgresses(r: Io)
    requires IoInv(r) && !IoFinished(r)
    ensures IoEnabled(r, IoNext(r)) && IoRemaining(IoTake(r, IoNext(r))) < IoRemaining(r) <= 10
    ensures r.cancel == IoNotCalled ==> IoTake(r, IoNext(r)).cancel == IoNotCalled
    ensures r.mark == TakenBack ==> IoTake(r, IoNext(r)).mark == TakenBack
  {
  }

  /** Every IOCTL can come to its end by steps of its own, and there it is completed with success if and
      only if the work item took it back, cancelled if and only if the cancel routine stopped the
      timer; without a cancel it is always completed with success. */
  lemma {:induction false} IoEnds(r: Io) returns (es: seq<IoStep>)
    requires IoInv(r)
    ensures IoPossible(r, es) && IoFinished(IoAfter(r, es)) && IoInv(IoAfter(r, es))
    ensures var t := IoAfter(r, es);
      && (t.completions == [Success] <==> t.mark == TakenBack)
      && (t.completions == [Cancelled] <==> t.cancel == IoCancelOver)
    ensures r.cancel == IoNotCalled || r.mark == TakenBack ==> IoAfter(r, es).completions == [Success]
    decreases IoRemaining(r)
  {
    if IoFinished(r) {
      es := [];
    } else {
      IoProgresses(r);
      IoTakeKeeps(r, IoNext(r));
      es := IoEnds(IoTake(r, IoNext(r)));
      es := Before(r, IoNext(r), es);
    }
  }

  /** A cancel of a request marked cancelable whose timer is in the queue ends it. */
  lemma IoCancelEnds(r: Io)
    requires IoInv(r) && r.mark == Cancelable && r.timer
    ensures var a := IoTake(r, IoCancelCall); var b := IoTake(a, IoStopTimer);
      var c := IoTake(b, IoCancelComplete); var d := IoTake(c, IoCancelDelete);
      && IoEnabled(r, IoCancelCall) && IoEnabled(a, IoStopTimer) && IoEnabled(b, IoCancelComplete) && IoEnabled(c, IoCancelDelete)
      && IoFinished(d) && d.completions == [Cancelled] && d.deletions == 1
  {
  }

  /** The cancel routine runs at most once, and only for a request marked cancelable. */
  lemma {:induction false} IoCancelIsNoted(r: Io, es: seq<IoStep>)
    requires IoInv(r) && IoPossible(r, es)
    ensures IoAfter(r, es).cancel != IoNotCalled <==> r.cancel != IoNotCalled || IoCancelCall in es
    decreases |es|
  {
    if es != [] {
      IoTakeKeeps(r, es[0]);
      IoCancelIsNoted(IoTake(r, es[0]), es[1..]);
      assert IoCancelCall in es <==> es[0] == IoCancelCall || IoCancelCall in es[1..];
    }
  }

  /** Such a run: the timer has gone off, then the cancel routine runs, then the work item. */
  lemma NeverCompletedExample() returns (es: seq<IoStep>)
    ensures IoPossible(STARTED, es) && IoFinished(IoAfter(STARTED, es)) && IoAfter(STARTED, es).completions == []
  {
    var r1 := IoTake(STARTED, IoMark);
    var r2 := IoTake(r1, IoExpire);
    var r3 := IoTake(r2, IoCancelCall);
    var r4 := IoTake(r3, IoStopTimer);
    var r5 := IoTake(r4, IoEnqueue);
    var r6 := IoTake(r5, IoRun);
    var r7 := IoTake(r6, IoAnswer);
    var r8 := IoTake(r7, IoUnmark);
    es := [IoDeleteTimer];
    assert IoPossible(r8, es) && IoAfter(r8, es) == IoTake(r8, IoDeleteTimer);
    es := Before(r7, IoUnmark, es);
    es := Before(r6, IoAnswer, es);
    es := Before(r5, IoRun, es);
    es := Before(r4, IoEnqueue, es);
    es := Before(r3, IoStopTimer, es);
    es := Before(r2, IoCancelCall, es);
    es := Before(r1, IoExpire, es);
    es := Before(STARTED, IoMark, es);
  }

  lemma Before(r: Io, e: IoStep, rest: seq<IoStep>) returns (es: seq<IoStep>)
    requires IoEnabled(r, e) && IoPossible(IoTake(r, e), rest)
    ensures es == [e] + rest && IoPossible(r, es) && IoAfter(r, es) == IoAfter(IoTake(r, e), rest)
  {
    es := [e] + rest;
    assert es[1..] == rest;
  }
}
