/** The status notification requests of a hands-free device (audio/sysvad/common.cpp): sent by
    Start, collected on completion, handled and sent again by a work item, ended by Stop. */
module HfpNotifications {
  import opened Words

  const MAX_ERROR_COUNT: nat := 5

  datatype Worker = Idle | Looking

  datatype Stopping = NotStopping | Purging | Flushing | StoppedAll

  datatype State = State(
    count: nat,                  // the requests are 0, 1, ... count - 1, in the order Start sends them
    next: nat,                   // those below it have been sent once
    inFlight: set<nat>,
    collection: seq<nat>,        // m_ReqCollection
    held: Option<nat>,           // taken out of the collection by the work item
    retired: set<nat>,           // never sent again
    errors: seq<nat>,            // ctx->Errors of each request
    queued: bool,                // the work item is enqueued
    worker: Worker,
    startFailed: bool,
    stopping: Stopping)

  datatype Outcome = Success | Failure | Cancelled

  datatype Event =
    | Send(ok: bool)
    | Complete(request: nat, outcome: Outcome, added: bool)
    | WorkerBegins
    | WorkerLooks
    | WorkerResends(ok: bool)
    | Purge
    | Purged
    | Flushed

  // --------------------------------------------------------------------------- steps

  ghost predicate Enabled(s: State, e: Event) {
    match e
    case Send(_) => s.next < s.count && !s.startFailed && s.stopping == NotStopping
    case Complete(r, outcome, _) => r in s.inFlight && r < |s.errors| && (s.stopping != NotStopping || outcome != Cancelled)
    case WorkerBegins => s.queued && s.worker == Idle
    case WorkerLooks => s.worker == Looking && s.held == None
    case WorkerResends(ok) => s.worker == Looking && s.held.Some? && (ok ==> s.stopping == NotStopping)
    case Purge => s.stopping == NotStopping
    case Purged => s.stopping == Purging && s.inFlight == {}
    case Flushed => s.stopping == Flushing && !s.queued && s.worker == Idle
  }

  function Step(s: State, e: Event): State
    requires Enabled(s, e)
  {
    match e
    case Send(ok) =>
      if ok then s.(next := s.next + 1, inFlight := s.inFlight + {s.next}) else s.(startFailed := true)
    case Complete(r, outcome, added) => Completed(s, r, outcome, added)
    case WorkerBegins => s.(queued := false, worker := Looking)
    case WorkerLooks =>
      if s.collection == [] then s.(worker := Idle)
      else s.(held := Some(s.collection[0]), collection := s.collection[1..])
    case WorkerResends(ok) =>
      var r := s.held.value;
      if ok then s.(held := None, inFlight := s.inFlight + {r})
      else s.(held := None, retired := s.retired + {r}, worker := Idle)
    case Purge => s.(stopping := Purging)
    case Purged => s.(stopping := Flushing)
    case Flushed => s.(stopping := StoppedAll)
  }

  /** EvtBthHfpDeviceNotificationStatusCompletion. */
  function Completed(s: State, r: nat, outcome: Outcome, added: bool): State
    requires r < |s.errors|
  {
    var errors := if outcome == Success then 0 else if outcome == Failure then s.errors[r] + 1 else s.errors[r];
    var t := s.(inFlight := s.inFlight - {r}, errors := s.errors[r := errors]);
    if outcome == Cancelled || (outcome == Failure && errors > MAX_ERROR_COUNT) || !added
    then t.(retired := s.retired + {r})
    else t.(collection := s.collection + [r], queued := true)
  }

  // ----------------------------------------------------------------------- invariant

  /** In how many of the places a request is. */
  function Places(s: State, r: nat): nat {
    (if s.next <= r < s.count then 1 else 0) + (if r in s.inFlight then 1 else 0) + Count(s.collection, r)
      + (if s.held == Some(r) then 1 else 0) + (if r in s.retired then 1 else 0)
  }

  function Count(q: seq<nat>, r: nat): nat {
    if q == [] then 0 else (if q[0] == r then 1 else 0) + Count(q[1..], r)
  }

  ghost predicate RequestInv(s: State, r: nat)
    requires |s.errors| == s.count
  {
    && Places(s, r) == (if r < s.count then 1 else 0)
    && (r < s.count && r !in s.retired ==> s.errors[r] <= MAX_ERROR_COUNT)
    && (r < s.count ==> s.errors[r] <= MAX_ERROR_COUNT + 1)
    && (s.next <= r < s.count ==> s.errors[r] == 0)
  }

  ghost predicate Inv(s: State) {
    && |s.errors| == s.count && s.next <= s.count
    && (s.worker == Idle ==> s.held == None)
    && (s.stopping == Flushing || s.stopping == StoppedAll ==> s.inFlight == {})
    && (s.stopping == StoppedAll ==> !s.queued && s.worker == Idle)
    && forall r: nat :: RequestInv(s, r)
  }

  function Initial(count: nat): State {
    State(count, 0, {}, [], None, {}, seq(count, i => 0), false, Idle, false, NotStopping)
  }

  lemma InitialInv(count: nat)
    ensures Inv(Initial(count))
  {
  }

  lemma {:induction false} CountAppend(q: seq<nat>, x: nat, r: nat)
    ensures Count(q + [x], r) == Count(q, r) + if x == r then 1 else 0
  {
    if q == [] {
      assert q + [x] == [x] && [x][1..] == [];
    } else {
      assert (q + [x])[1..] == q[1..] + [x];
      CountAppend(q[1..], x, r);
    }
  }

  lemma StepKeeps(s: State, e: Event)
    requires Inv(s) && Enabled(s, e)
    ensures Inv(Step(s, e))
  {
    var s' := Step(s, e);
    if e.Complete? {
      assert RequestInv(s, e.request);
    }
    forall r: nat ensures RequestInv(s', r) {
      assert RequestInv(s, r);
      if e.Complete? {
        CountAppend(s.collection, e.request, r);
      }
    }
  }

  ghost predicate Possible(s: State, es: seq<Event>)
    decreases |es|
  {
    es == [] || (Enabled(s, es[0]) && Possible(Step(s, es[0]), es[1..]))
  }

  function After(s: State, es: seq<Event>): State
    requires Possible(s, es)
    decreases |es|
  {
    if es == [] then s else After(Step(s, es[0]), es[1..])
  }

  lemma {:induction false} RunKeeps(s: State, es: seq<Event>)
    requires Inv(s) && Possible(s, es)
    ensures Inv(After(s, es)) && After(s, es).count == s.count
    decreases |es|
  {
    if es != [] {
      StepKeeps(s, es[0]);
      RunKeeps(Step(s, es[0]), es[1..]);
    }
  }

  // --------------------------------------------------------------------- main results

  /** In every interleaving each request is in exactly one place: not sent yet, in flight, in the
      collection, held by the work item, or retired. */
  lemma RequestsPartitioned(count: nat, es: seq<Event>, r: nat)
    requires Possible(Initial(count), es) && r < count
    ensures Places(After(Initial(count), es), r) == 1
  {
    InitialInv(count);
    RunKeeps(Initial(count), es);
    assert RequestInv(After(Initial(count), es), r);
  }

  /** A request is only ever sent while it is nowhere else. */
  lemma NeverSentTwice(s: State, e: Event)
    requires Inv(s) && Enabled(s, e)
    ensures e.Send? ==> s.next !in s.inFlight && s.next !in s.retired && Count(s.collection, s.next) == 0 && s.held != Some(s.next)
    ensures e.WorkerResends? ==>
      var r := s.held.value; r !in s.inFlight && r !in s.retired && Count(s.collection, r) == 0 && r < s.next
  {
    if e.Send? {
      assert RequestInv(s, s.next);
    } else if e.WorkerResends? {
      assert RequestInv(s, s.held.value);
    }
  }

  /** A retired request stays retired, and only requests in flight or held are ever retired. */
  lemma RetiredForGood(s: State, e: Event)
    requires Inv(s) && Enabled(s, e)
    ensures s.retired <= Step(s, e).retired
    ensures forall r :: r in Step(s, e).retired && r !in s.retired ==> r in s.inFlight || s.held == Some(r)
  {
  }

  /** How often in a row a request has failed at the end of a run, counting on from `before`. */
  function Streak(before: nat, es: seq<Event>, r: nat): nat
    decreases |es|
  {
    if es == [] then before
    else
      var last := es[|es| - 1];
      if last.Complete? && last.request == r && last.outcome == Success then 0
      else Streak(before, es[..|es| - 1], r)
           + (if last.Complete? && last.request == r && last.outcome == Failure then 1 else 0)
  }

  lemma {:induction false} StreakFrom(before: nat, es: seq<Event>, r: nat)
    requires es != []
    ensures Streak(before, es, r) == Streak(Streak(before, es[..1], r), es[1..], r)
    decreases |es|
  {
    if |es| > 1 {
      var front := es[..|es| - 1];
      StreakFrom(before, front, r);
      assert front[..1] == es[..1] && front[1..] == es[1..][..|es| - 2];
    } else {
      assert es[..1] == es && es[1..] == [];
    }
  }

  /** The error count is the number of failures since the last success, whatever happens to the other
      requests; the sixth failure in a row retires the request, so there is never a seventh. */
  lemma {:induction false} SixFailuresRetire(s: State, es: seq<Event>, r: nat)
    requires Inv(s) && Possible(s, es) && r < s.count
    ensures var t := After(s, es);
      |t.errors| == s.count && t.errors[r] == Streak(s.errors[r], es, r) <= 6
      && (t.errors[r] == 6 ==> r in t.retired)
    decreases |es|
  {
    assert RequestInv(s, r);
    if es != [] {
      StepKeeps(s, es[0]);
      SixFailuresRetire(Step(s, es[0]), es[1..], r);
      StreakFrom(s.errors[r], es, r);
      assert es[..1] == [es[0]] && [es[0]][..0] == [];
    }
  }

  /** A request that completes is sent again unless it was cancelled, could not be collected, or
      failed once too often. */
  lemma CollectedIff(s: State, r: nat, outcome: Outcome, added: bool)
    requires Inv(s) && Enabled(s, Complete(r, outcome, added))
    ensures var t := Step(s, Complete(r, outcome, added));
      (Count(t.collection, r) == 1 && t.queued)
        <==> outcome != Cancelled && added && !(outcome == Failure && s.errors[r] == 5)
  {
    assert RequestInv(s, r);
    CountAppend(s.collection, r, r);
  }

  /** Start's sends: one for each request until one fails, and none after that. */
  function SendsIn(es: seq<Event>): nat {
    if es == [] then 0 else SendsIn(es[..|es| - 1]) + (if es[|es| - 1] == Send(true) then 1 else 0)
  }

  lemma {:induction false} LastStep(s: State, es: seq<Event>)
    requires Possible(s, es) && es != []
    ensures var front := es[..|es| - 1];
      Possible(s, front) && Enabled(After(s, front), es[|es| - 1]) && After(s, es) == Step(After(s, front), es[|es| - 1])
    decreases |es|
  {
    var front := es[..|es| - 1];
    if |es| > 1 {
      LastStep(Step(s, es[0]), es[1..]);
      assert front[1..] == es[1..][..|es| - 2];
    } else {
      assert front == [] && es[1..] == [];
    }
  }

  /** Over every run, exactly the first requests have been sent, as many as sends succeeded; after a
      send that failed there is no other. */
  lemma {:induction false} StartSendsInOrder(count: nat, es: seq<Event>)
    requires Possible(Initial(count), es)
    ensures After(Initial(count), es).next == SendsIn(es)
    ensures After(Initial(count), es).startFailed <==> Send(false) in es
    ensures Send(false) in es ==> !Enabled(After(Initial(count), es), Send(true))
    decreases |es|
  {
    if es != [] {
      var front, last := es[..|es| - 1], es[|es| - 1];
      LastStep(Initial(count), es);
      StartSendsInOrder(count, front);
      assert es == front + [last];
      assert Send(false) in es <==> Send(false) in front || last == Send(false);
    }
  }

  // ------------------------------------------------------------- what the work item comes to

  lemma Before(s: State, e: Event, rest: seq<Event>) returns (es: seq<Event>)
    requires Enabled(s, e) && Possible(Step(s, e), rest)
    ensures es == [e] + rest && Possible(s, es) && After(s, es) == After(Step(s, e), rest)
  {
    es := [e] + rest;
    assert es[1..] == rest;
  }

  function Elements(q: seq<nat>): set<nat> {
    set r | r in q
  }

  function HeldSet(held: Option<nat>): set<nat> {
    if held.Some? then {held.value} else {}
  }

  /** One run of the work item sends all that was collected again, in order, and then goes idle. */
  lemma {:induction false} WorkItemResends(s: State) returns (es: seq<Event>)
    requires Inv(s) && s.stopping == NotStopping && s.worker == Looking
    ensures Possible(s, es)
    ensures After(s, es) == s.(held := None, collection := [], worker := Idle,
                               inFlight := s.inFlight + HeldSet(s.held) + Elements(s.collection))
    decreases |s.collection| + (if s.held.Some? then 1 else 0), |s.collection|
  {
    if s.held.Some? {
      StepKeeps(s, WorkerResends(true));
      es := WorkItemResends(Step(s, WorkerResends(true)));
      es := Before(s, WorkerResends(true), es);
    } else if s.collection == [] {
      es := Before(s, WorkerLooks, []);
      assert Elements([]) == {};
    } else {
      StepKeeps(s, WorkerLooks);
      es := WorkItemResends(Step(s, WorkerLooks));
      es := Before(s, WorkerLooks, es);
      assert s.collection == [s.collection[0]] + s.collection[1..];
      assert Elements(s.collection) == {s.collection[0]} + Elements(s.collection[1..]);
    }
  }

  /** So every completed request that was collected is sent again by a work item that is coming. */
  lemma CollectedAreResent(s: State) returns (es: seq<Event>)
    requires Inv(s) && s.stopping == NotStopping && s.queued && s.worker == Idle
    ensures Possible(s, es)
    ensures var t := After(s, es);
      t.collection == [] && t.inFlight == s.inFlight + Elements(s.collection) && t.worker == Idle && !t.queued && t.retired == s.retired
  {
    StepKeeps(s, WorkerBegins);
    es := WorkItemResends(Step(s, WorkerBegins));
    es := Before(s, WorkerBegins, es);
  }

  // -------------------------------------------------------------------- Stop comes to its end

  lemma {:induction false} PurgeCancels(s: State) returns (es: seq<Event>)
    requires Inv(s) && s.stopping == Purging
    ensures Possible(s, es) && Inv(After(s, es))
    ensures After(s, es) == s.(inFlight := {}, retired := s.retired + s.inFlight)
    decreases |s.inFlight|
  {
    if r :| r in s.inFlight {
      assert RequestInv(s, r);
      var e := Complete(r, Cancelled, false);
      StepKeeps(s, e);
      assert s.errors[r := s.errors[r]] == s.errors;
      es := PurgeCancels(Step(s, e));
      es := Before(s, e, es);
    } else {
      es := [];
      assert s.retired + s.inFlight == s.retired;
    }
  }

  /** What the work item still does while Stop flushes it: a held request cannot be sent any more. */
  function WorkLeft(s: State): nat {
    (if s.queued then 4 else 0) + (if s.worker == Looking then (if s.held.Some? then 1 else 2) else 0)
  }

  lemma {:induction false} FlushWaits(s: State) returns (es: seq<Event>)
    requires Inv(s) && s.stopping == Flushing
    ensures Possible(s, es) && Inv(After(s, es))
    ensures var t := After(s, es); t.stopping == Flushing && !t.queued && t.worker == Idle
    decreases WorkLeft(s)
  {
    if s.worker == Idle && !s.queued {
      es := [];
    } else {
      var e := if s.worker == Idle then WorkerBegins else if s.held.Some? then WorkerResends(false) else WorkerLooks;
      StepKeeps(s, e);
      es := FlushWaits(Step(s, e));
      es := Before(s, e, es);
    }
  }

  /** From every reachable state Stop can come to its end. */
  lemma StopFinishes(s: State) returns (es: seq<Event>)
    requires Inv(s) && s.stopping == NotStopping
    ensures Possible(s, es) && Inv(After(s, es)) && After(s, es).stopping == StoppedAll
    ensures s.inFlight <= After(s, es).retired
  {
    var s1 := Step(s, Purge);
    StepKeeps(s, Purge);
    var a := PurgeCancels(s1);
    var s2 := After(s1, a);
    StepKeeps(s2, Purged);
    var s3 := Step(s2, Purged);
    var b := FlushWaits(s3);
    var s4 := After(s3, b);
    StepKeeps(s4, Flushed);
    RetiredGrow(s3, b);
    es := Before(s4, Flushed, []);
    Joined(s3, b, es);
    es := Before(s2, Purged, b + es);
    Joined(s1, a, es);
    es := Before(s, Purge, a + es);
  }

  lemma {:induction false} RetiredGrow(s: State, es: seq<Event>)
    requires Inv(s) && Possible(s, es)
    ensures s.retired <= After(s, es).retired
    decreases |es|
  {
    if es != [] {
      RetiredForGood(s, es[0]);
      StepKeeps(s, es[0]);
      RetiredGrow(Step(s, es[0]), es[1..]);
    }
  }

  /** Two runs in a row are one. */
  lemma {:induction false} Joined(s: State, a: seq<Event>, b: seq<Event>)
    requires Possible(s, a) && Possible(After(s, a), b)
    ensures Possible(s, a + b) && After(s, a + b) == After(After(s, a), b)
    decreases |a|
  {
    if a == [] {
      assert a + b == b;
    } else {
      Joined(Step(s, a[0]), a[1..], b);
      assert (a + b)[1..] == a[1..] + b;
    }
  }

  /** When Stop's purge and flush are over, nothing is in flight, the work item is idle, and
      nothing more can happen. */
  lemma StopLeavesNothing(s: State)
    requires Inv(s) && s.stopping == StoppedAll
    ensures s.inFlight == {} && s.held == None && !s.queued && s.worker == Idle
    ensures forall e: Event :: !Enabled(s, e)
  {
  }

  // ------------------------------------------------------ requests left in the collection

  /** Collected requests that no work item is going to look at. */
  ghost predicate Stranded(s: State) {
    s.collection != [] && !s.queued && s.worker == Idle
  }

  /** This happens exactly when sending a request again fails while others are collected and the
      work item has not been enqueued anew: the loop is left without looking at them. */
  lemma StrandedIff(s: State, e: Event)
    requires Inv(s) && Enabled(s, e) && !Stranded(s)
    ensures Stranded(Step(s, e)) <==> e.WorkerResends? && !e.ok && s.collection != [] && !s.queued
  {
  }

  /** Only the next collected completion of another request brings the work item back. */
  lemma StrandedUntilCollected(s: State, e: Event)
    requires Inv(s) && Enabled(s, e) && Stranded(s)
    ensures Stranded(Step(s, e)) <==> !(e.Complete? && |Step(s, e).collection| > |s.collection|)
    ensures s.collection <= Step(s, e).collection
  {
  }

  /** Such a run with two requests: both complete, the first cannot be sent again, the second is
      left behind and the device keeps running without either notification. */
  lemma StrandedExample() returns (es: seq<Event>)
    ensures Possible(Initial(2), es) && Stranded(After(Initial(2), es)) && After(Initial(2), es).inFlight == {}
  {
    var s1 := Step(Initial(2), Send(true));
    var s2 := Step(s1, Send(true));
    assert s2.inFlight == {0, 1};
    var s3 := Step(s2, Complete(0, Success, true));
    var s4 := Step(s3, Complete(1, Success, true));
    assert s4.inFlight == {} && s4.collection == [0, 1];
    var s5 := Step(s4, WorkerBegins);
    var s6 := Step(s5, WorkerLooks);
    es := [WorkerResends(false)];
    assert After(s6, es) == Step(s6, WorkerResends(false)) && Possible(s6, es);
    es := Before(s5, WorkerLooks, es);
    es := Before(s4, WorkerBegins, es);
    es := Before(s3, Complete(1, Success, true), es);
    es := Before(s2, Complete(0, Success, true), es);
    es := Before(s1, Send(true), es);
    es := Before(Initial(2), Send(true), es);
  }
}
