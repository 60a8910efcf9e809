/** Lifetime of the Bluetooth hands-free devices of sysvad's adapter (audio/sysvad/common.cpp):
    interface arrival and removal, the worker, and the final cleanup. */
module HfpDevices {
  import opened Words

  datatype Action = StartTask | StopTask

  datatype Task = Task(action: Action, device: nat)

  datatype DeviceState = Initializing | Running | Failed | Stopped

  /** A BthHfpDevice; `starts`, `stops` and `unqueued` are history: how often Start and Stop ran,
      and whether no task could be allocated for it when it arrived. */
  datatype Device = Device(refs: nat, state: DeviceState, freed: bool, starts: nat, stops: nat, unqueued: bool)

  /** Where the thread is that delivers the interface notifications. */
  datatype Notifier =
    | Waiting
    | Creating(link: nat)        // the arriving interface was not found in the list
    | Created(device: nat)       // Init succeeded
    | Found(device: nat)         // the interface to remove was found
    | Dropping(device: nat)      // about to release the reference it holds

  datatype Worker = Idle | Looking | Holding(task: Task) | Done(task: Task)

  datatype Cleanup = Registered | Unregistered | Draining | Stopping(device: nat) | Releasing(device: nat) | Finished

  datatype State = State(
    links: seq<nat>,             // the symbolic link of each device
    devices: seq<Device>,
    list: seq<nat>,              // m_BthHfpDevices
    tasks: seq<Task>,            // m_BthHfpWorkTasks
    queued: bool,                // the work item is enqueued
    worker: Worker,
    notifier: Notifier,
    cleanup: Cleanup)

  datatype Event =
    | Arrival(link: nat)
    | Create(allocOk: bool, initOk: bool)
    | QueueStart(taskOk: bool)
    | Removal(link: nat)
    | QueueStop(taskOk: bool)
    | Drop
    | WorkerBegins
    | WorkerLooks
    | WorkerActs(startOk: bool)
    | WorkerReleases
    | Unregister
    | Flushed
    | PopDevice
    | StopDevice
    | ReleaseDevice
    | Finish

  // ------------------------------------------------------------------------- helpers

  /** BthHfpDeviceFind: the first listed device with the link, or the number of devices. */
  function Find(links: seq<nat>, list: seq<nat>, link: nat): nat {
    if list == [] then |links|
    else if list[0] < |links| && links[list[0]] == link then list[0]
    else Find(links, list[1..], link)
  }

  /** The list without an entry. */
  function Without(list: seq<nat>, d: nat): seq<nat> {
    if list == [] then []
    else (if list[0] == d then [] else [list[0]]) + Without(list[1..], d)
  }

  /** The actions queued for a device, in order. */
  function Pending(tasks: seq<Task>, d: nat): seq<Action> {
    if tasks == [] then []
    else (if tasks[0].device == d then [tasks[0].action] else []) + Pending(tasks[1..], d)
  }

  function Released(dev: Device): Device
    requires dev.refs > 0
  {
    dev.(refs := dev.refs - 1, freed := dev.refs == 1)
  }

  function Referenced(dev: Device): Device {
    dev.(refs := dev.refs + 1)
  }

  function SetDevice(s: State, d: nat, dev: Device): State
    requires d < |s.devices|
  {
    s.(devices := s.devices[d := dev])
  }

  // --------------------------------------------------------------------------- steps

  ghost predicate Enabled(s: State, e: Event) {
    match e
    case Arrival(_) => s.cleanup == Registered && s.notifier == Waiting
    case Create(_, _) => s.notifier.Creating?
    case QueueStart(_) => s.notifier.Created? && Live(s, s.notifier.device)
    case Removal(_) => s.cleanup == Registered && s.notifier == Waiting
    case QueueStop(_) => s.notifier.Found? && Live(s, s.notifier.device)
    case Drop => s.notifier.Dropping? && Live(s, s.notifier.device)
    case WorkerBegins => s.queued && s.worker == Idle
    case WorkerLooks => s.worker == Looking
    case WorkerActs(_) => s.worker.Holding? && Live(s, s.worker.task.device)
    case WorkerReleases => s.worker.Done? && Live(s, s.worker.task.device)
    case Unregister => s.cleanup == Registered && s.notifier == Waiting
    case Flushed => s.cleanup == Unregistered && !s.queued && s.worker == Idle
    case PopDevice => s.cleanup == Draining && s.list != []
    case StopDevice => s.cleanup.Stopping? && Live(s, s.cleanup.device)
    case ReleaseDevice => s.cleanup.Releasing? && Live(s, s.cleanup.device)
    case Finish => s.cleanup == Draining && s.list == []
  }

  /** The pointer is to a device with a reference; every use of one asks for this. */
  ghost predicate Live(s: State, d: nat) {
    d < |s.devices| && s.devices[d].refs > 0
  }

  function Step(s: State, e: Event): State
    requires Enabled(s, e)
  {
    match e
    case Arrival(link) =>
      var d := Find(s.links, s.list, link);
      if d < |s.devices| then SetDevice(s, d, Referenced(s.devices[d])).(notifier := Dropping(d))
      else s.(notifier := Creating(link))
    case Create(allocOk, initOk) =>
      if !allocOk then s.(notifier := Waiting)
      else
        var d := |s.devices|;
        s.(links := s.links + [s.notifier.link],
           devices := s.devices + [Device(1, if initOk then Running else Initializing, false, 0, 0, false)],
           notifier := if initOk then Created(d) else Dropping(d))
    case QueueStart(taskOk) =>
      var d := s.notifier.device;
      if !taskOk then SetDevice(s, d, s.devices[d].(unqueued := true)).(notifier := Dropping(d))
      else SetDevice(s, d, Referenced(s.devices[d]))
             .(list := s.list + [d], tasks := s.tasks + [Task(StartTask, d)], queued := true, notifier := Waiting)
    case Removal(link) =>
      var d := Find(s.links, s.list, link);
      if d < |s.devices| then SetDevice(s, d, Referenced(s.devices[d])).(notifier := Found(d))
      else s
    case QueueStop(taskOk) =>
      var d := s.notifier.device;
      if !taskOk then s.(notifier := Dropping(d))
      else SetDevice(s, d, Released(s.devices[d]))
             .(list := Without(s.list, d), tasks := s.tasks + [Task(StopTask, d)], queued := true, notifier := Waiting)
    case Drop => SetDevice(s, s.notifier.device, Released(s.devices[s.notifier.device])).(notifier := Waiting)
    case WorkerBegins => s.(queued := false, worker := Looking)
    case WorkerLooks =>
      if s.tasks == [] then s.(worker := Idle) else s.(worker := Holding(s.tasks[0]), tasks := s.tasks[1..])
    case WorkerActs(startOk) =>
      var d := s.worker.task.device;
      SetDevice(s, d, if s.worker.task.action == StartTask then Started(s.devices[d], startOk) else Halted(s.devices[d]))
        .(worker := Done(s.worker.task))
    case WorkerReleases =>
      var d := s.worker.task.device;
      SetDevice(s, d, Released(s.devices[d])).(worker := Looking)
    case Unregister => s.(cleanup := Unregistered)
    case Flushed => s.(cleanup := Draining)
    case PopDevice => s.(list := s.list[1..], cleanup := Stopping(s.list[0]))
    case StopDevice =>
      var d := s.cleanup.device;
      SetDevice(s, d, Halted(s.devices[d])).(cleanup := Releasing(d))
    case ReleaseDevice =>
      var d := s.cleanup.device;
      SetDevice(s, d, Released(s.devices[d])).(cleanup := Draining)
    case Finish => s.(cleanup := Finished)
  }

  /** BthHfpDevice::Start. */
  function Started(dev: Device, ok: bool): Device {
    dev.(starts := dev.starts + 1, state := if ok then dev.state else Failed)
  }

  /** BthHfpDevice::Stop. */
  function Halted(dev: Device): Device {
    dev.(stops := dev.stops + 1, state := Stopped)
  }

  // ----------------------------------------------------------------------- invariant

  /** The references that are held on a device, one for each holder. */
  function Holders(s: State, d: nat): nat {
    (if d in s.list then 1 else 0) + |Pending(s.tasks, d)| + HeldByWorker(s.worker, d)
      + HeldByNotifier(s.notifier, d) + HeldByCleanup(s.cleanup, d)
  }

  function HeldByWorker(w: Worker, d: nat): nat {
    if (w.Holding? || w.Done?) && w.task.device == d then 1 else 0
  }

  function HeldByNotifier(n: Notifier, d: nat): nat {
    if (n.Created? || n.Found? || n.Dropping?) && n.device == d then 1 else 0
  }

  function HeldByCleanup(c: Cleanup, d: nat): nat {
    if (c.Stopping? || c.Releasing?) && c.device == d then 1 else 0
  }

  /** The actions still to be run on a device: the worker's, then the queued ones. */
  function ToDo(s: State, d: nat): seq<Action> {
    (if s.worker.Holding? && s.worker.task.device == d then [s.worker.task.action] else []) + Pending(s.tasks, d)
  }

  /** Where a device is in its life. */
  ghost predicate Phase(s: State, d: nat)
    requires d < |s.devices|
  {
    var dev, todo := s.devices[d], ToDo(s, d);
    if s.notifier == Created(d) then
      d !in s.list && todo == [] && dev.starts == 0 && dev.stops == 0 && dev.state == Running && !dev.unqueued
    else if d in s.list then
      dev.stops == 0 && (dev.state == Running || dev.state == Failed) && !dev.unqueued
        && ((todo == [StartTask] && dev.starts == 0) || (todo == [] && dev.starts == 1))
    else if todo != [] then
      dev.stops == 0 && !dev.unqueued
        && ((todo == [StartTask, StopTask] && dev.starts == 0) || (todo == [StopTask] && dev.starts == 1))
    else if s.cleanup == Stopping(d) then dev.starts == 1 && dev.stops == 0 && !dev.unqueued
    else if dev.starts > 0 then dev.starts == 1 && dev.stops == 1 && dev.state == Stopped && !dev.unqueued
    else dev.stops == 0 && dev.state == if dev.unqueued then Running else Initializing
  }

  ghost predicate DeviceInv(s: State, d: nat)
    requires d < |s.devices|
  {
    s.devices[d].refs == Holders(s, d) && s.devices[d].freed == (s.devices[d].refs == 0) && Phase(s, d)
  }

  ghost predicate Known(s: State, d: nat) {
    d < |s.devices|
  }

  ghost predicate DistinctLinks(links: seq<nat>, list: seq<nat>) {
    forall i, j :: 0 <= i < j < |list| && list[i] < |links| && list[j] < |links| ==> links[list[i]] != links[list[j]]
  }

  ghost predicate Unlisted(links: seq<nat>, list: seq<nat>, link: nat) {
    forall i :: 0 <= i < |list| && list[i] < |links| ==> links[list[i]] != link
  }

  /** All pointers are to devices there are. */
  ghost predicate PointersKnown(s: State) {
    && |s.links| == |s.devices|
    && (forall i :: 0 <= i < |s.list| ==> s.list[i] < |s.devices|)
    && (forall i :: 0 <= i < |s.tasks| ==> s.tasks[i].device < |s.devices|)
    && (s.worker.Holding? || s.worker.Done? ==> s.worker.task.device < |s.devices|)
    && (s.notifier.Created? || s.notifier.Found? || s.notifier.Dropping? ==> s.notifier.device < |s.devices|)
    && (s.cleanup.Stopping? || s.cleanup.Releasing? ==> s.cleanup.device < |s.devices|)
  }

  ghost predicate ThreadsInv(s: State) {
    && (s.tasks != [] ==> s.queued || s.worker != Idle)
    && (s.notifier.Creating? ==> Unlisted(s.links, s.list, s.notifier.link))
    && (s.notifier.Created? ==> LinkUnlisted(s, s.notifier.device))
    && (s.notifier.Found? ==> s.notifier.device in s.list)
    && (s.cleanup != Registered ==> s.notifier == Waiting)
    && (s.cleanup != Registered && s.cleanup != Unregistered ==> s.tasks == [] && !s.queued && s.worker == Idle)
    && (s.cleanup.Stopping? || s.cleanup.Releasing? ==> s.cleanup.device !in s.list)
    && (s.cleanup == Finished ==> s.list == [])
  }

  ghost predicate LinkUnlisted(s: State, d: nat) {
    d < |s.links| && Unlisted(s.links, s.list, s.links[d])
  }

  ghost predicate Inv(s: State) {
    && PointersKnown(s) && DistinctLinks(s.links, s.list) && ThreadsInv(s)
    && forall d :: 0 <= d < |s.devices| ==> DeviceInv(s, d)
  }

  // ---------------------------------------------------------------- facts on lists

  lemma {:induction false} PendingAppend(tasks: seq<Task>, t: Task, d: nat)
    ensures Pending(tasks + [t], d) == Pending(tasks, d) + if t.device == d then [t.action] else []
  {
    if tasks == [] {
      assert tasks + [t] == [t] && [t][1..] == [];
    } else {
      assert (tasks + [t])[1..] == tasks[1..] + [t] && (tasks + [t])[0] == tasks[0];
      PendingAppend(tasks[1..], t, d);
      var first := if tasks[0].device == d then [tasks[0].action] else [];
      AppendAssoc(first, Pending(tasks[1..], d), if t.device == d then [t.action] else []);
    }
  }

  lemma {:induction false} PendingNone(tasks: seq<Task>, d: nat)
    requires forall i :: 0 <= i < |tasks| ==> tasks[i].device < d
    ensures Pending(tasks, d) == []
  {
    if tasks != [] {
      PendingNone(tasks[1..], d);
    }
  }

  lemma {:induction false} WithoutIn(list: seq<nat>, d: nat, x: nat)
    ensures x in Without(list, d) <==> x in list && x != d
  {
    if list != [] {
      WithoutIn(list[1..], d, x);
      assert x in list <==> x == list[0] || x in list[1..];
    }
  }

  lemma HeadDiffers(links: seq<nat>, list: seq<nat>, x: nat)
    requires list != [] && DistinctLinks(links, list) && x in list[1..] && x < |links| && list[0] < |links|
    ensures links[x] != links[list[0]] && x in list
  {
    var k :| 0 <= k < |list[1..]| && list[1..][k] == x;
    assert list[k + 1] == x;
  }

  lemma ConsDistinct(links: seq<nat>, a: nat, rest: seq<nat>)
    requires a < |links| && DistinctLinks(links, rest) && Unlisted(links, rest, links[a])
    ensures DistinctLinks(links, [a] + rest)
  {
  }

  lemma TailDistinct(links: seq<nat>, list: seq<nat>)
    requires list != [] && DistinctLinks(links, list)
    ensures DistinctLinks(links, list[1..])
  {
  }

  lemma {:induction false} WithoutDistinct(links: seq<nat>, list: seq<nat>, d: nat)
    requires DistinctLinks(links, list) && forall i :: 0 <= i < |list| ==> list[i] < |links|
    ensures DistinctLinks(links, Without(list, d))
  {
    if list != [] {
      TailDistinct(links, list);
      WithoutDistinct(links, list[1..], d);
      var rest := Without(list[1..], d);
      if list[0] == d {
        assert [] + rest == rest;
      } else {
        forall i | 0 <= i < |rest| && rest[i] < |links| ensures links[rest[i]] != links[list[0]] {
          WithoutIn(list[1..], d, rest[i]);
          HeadDiffers(links, list, rest[i]);
        }
        ConsDistinct(links, list[0], rest);
      }
    }
  }

  lemma {:induction false} FindSpec(links: seq<nat>, list: seq<nat>, link: nat)
    requires forall i :: 0 <= i < |list| ==> list[i] < |links|
    ensures var d := Find(links, list, link);
      d <= |links| && (d < |links| ==> d in list && links[d] == link) && (d == |links| ==> Unlisted(links, list, link))
  {
    if list != [] && links[list[0]] != link {
      FindSpec(links, list[1..], link);
      if Find(links, list, link) == |links| {
        forall i | 0 <= i < |list| && list[i] < |links| ensures links[list[i]] != link {
          assert i > 0 ==> list[i] == list[1..][i - 1];
        }
      }
    }
  }

  // ------------------------------------------------------------------- preservation

  lemma ArrivalKeeps(s: State, link: nat)
    requires Inv(s) && Enabled(s, Arrival(link))
    ensures Inv(Step(s, Arrival(link)))
  {
    FindSpec(s.links, s.list, link);
    var s' := Step(s, Arrival(link));
    forall d | 0 <= d < |s'.devices| ensures DeviceInv(s', d) {
      assert DeviceInv(s, d);
    }
  }

  lemma CreateKeeps(s: State, allocOk: bool, initOk: bool)
    requires Inv(s) && Enabled(s, Create(allocOk, initOk))
    ensures Inv(Step(s, Create(allocOk, initOk)))
  {
    var s' := Step(s, Create(allocOk, initOk));
    PendingNone(s.tasks, |s.devices|);
    forall d | 0 <= d < |s'.devices| ensures DeviceInv(s', d) {
      assert d < |s.devices| ==> DeviceInv(s, d);
    }
  }

  lemma AppendDistinct(links: seq<nat>, list: seq<nat>, d: nat)
    requires DistinctLinks(links, list) && d < |links| && Unlisted(links, list, links[d])
    ensures DistinctLinks(links, list + [d])
  {
  }

  lemma QueueStartKeeps(s: State, taskOk: bool)
    requires Inv(s) && Enabled(s, QueueStart(taskOk))
    ensures Inv(Step(s, QueueStart(taskOk)))
  {
    if taskOk {
      ListKeeps(s);
    } else {
      var s' := Step(s, QueueStart(false));
      forall d | 0 <= d < |s'.devices| ensures DeviceInv(s', d) {
        assert DeviceInv(s, d);
      }
    }
  }

  lemma ListKeeps(s: State)
    requires Inv(s) && Enabled(s, QueueStart(true))
    ensures Inv(Step(s, QueueStart(true)))
  {
    var s' := Step(s, QueueStart(true));
    var n := s.notifier.device;
    AppendDistinct(s.links, s.list, n);
    forall d | 0 <= d < |s'.devices| ensures DeviceInv(s', d) {
      assert DeviceInv(s, d);
      PendingAppend(s.tasks, Task(StartTask, n), d);
    }
  }

  lemma RemovalKeeps(s: State, link: nat)
    requires Inv(s) && Enabled(s, Removal(link))
    ensures Inv(Step(s, Removal(link)))
  {
    FindSpec(s.links, s.list, link);
    var s' := Step(s, Removal(link));
    forall d | 0 <= d < |s'.devices| ensures DeviceInv(s', d) {
      assert DeviceInv(s, d);
    }
  }

  lemma QueueStopKeeps(s: State, taskOk: bool)
    requires Inv(s) && Enabled(s, QueueStop(taskOk))
    ensures Inv(Step(s, QueueStop(taskOk)))
  {
    if taskOk {
      UnlistKeeps(s);
    } else {
      var s' := Step(s, QueueStop(false));
      forall d | 0 <= d < |s'.devices| ensures DeviceInv(s', d) {
        assert DeviceInv(s, d);
      }
    }
  }

  lemma UnlistKeeps(s: State)
    requires Inv(s) && Enabled(s, QueueStop(true))
    ensures Inv(Step(s, QueueStop(true)))
  {
    var s' := Step(s, QueueStop(true));
    var n := s.notifier.device;
    WithoutDistinct(s.links, s.list, n);
    forall i | 0 <= i < |s'.list| ensures s'.list[i] < |s.devices| {
      WithoutIn(s.list, n, s'.list[i]);
    }
    forall d | 0 <= d < |s'.devices| ensures DeviceInv(s', d) {
      UnlistDevice(s, d);
    }
  }

  lemma UnlistDevice(s: State, d: nat)
    requires Inv(s) && Enabled(s, QueueStop(true)) && d < |s.devices|
    ensures DeviceInv(Step(s, QueueStop(true)), d)
  {
    assert DeviceInv(s, d);
    WithoutIn(s.list, s.notifier.device, d);
    PendingAppend(s.tasks, Task(StopTask, s.notifier.device), d);
  }

  lemma DropKeeps(s: State)
    requires Inv(s) && Enabled(s, Drop)
    ensures Inv(Step(s, Drop))
  {
    var s' := Step(s, Drop);
    forall d | 0 <= d < |s'.devices| ensures DeviceInv(s', d) {
      assert DeviceInv(s, d);
    }
  }

  lemma WorkerLooksKeeps(s: State)
    requires Inv(s) && Enabled(s, WorkerLooks)
    ensures Inv(Step(s, WorkerLooks))
  {
    var s' := Step(s, WorkerLooks);
    forall d | 0 <= d < |s'.devices| ensures DeviceInv(s', d) {
      assert DeviceInv(s, d);
    }
  }

  lemma WorkerActsKeeps(s: State, startOk: bool)
    requires Inv(s) && Enabled(s, WorkerActs(startOk))
    ensures Inv(Step(s, WorkerActs(startOk)))
  {
    var s' := Step(s, WorkerActs(startOk));
    var w := s.worker.task.device;
    ConsTail(s.worker.task.action, Pending(s.tasks, w));
    forall d | 0 <= d < |s'.devices| ensures DeviceInv(s', d) {
      assert DeviceInv(s, d);
    }
  }

  lemma ConsTail(a: Action, rest: seq<Action>)
    ensures ([a] + rest)[0] == a && ([a] + rest)[1..] == rest
    ensures [a] + rest == [StopTask] ==> a == StopTask && rest == []
    ensures [a] + rest == [StartTask] ==> a == StartTask && rest == []
    ensures [a] + rest == [StartTask, StopTask] ==> a == StartTask && rest == [StopTask]
  {
    assert [StartTask, StopTask][1..] == [StopTask];
    assert [StartTask][1..] == [] && [StopTask][1..] == [];
  }

  lemma WorkerReleasesKeeps(s: State)
    requires Inv(s) && Enabled(s, WorkerReleases)
    ensures Inv(Step(s, WorkerReleases))
  {
    var s' := Step(s, WorkerReleases);
    forall d | 0 <= d < |s'.devices| ensures DeviceInv(s', d) {
      assert DeviceInv(s, d);
    }
  }

  /** Events that touch no device. */
  lemma QuietKeeps(s: State, e: Event)
    requires Inv(s) && Enabled(s, e) && (e.WorkerBegins? || e.Unregister? || e.Flushed? || e.Finish?)
    ensures Inv(Step(s, e))
  {
    var s' := Step(s, e);
    forall d | 0 <= d < |s'.devices| ensures DeviceInv(s', d) {
      assert DeviceInv(s, d);
    }
  }

  lemma CleanupKeeps(s: State, e: Event)
    requires Inv(s) && Enabled(s, e) && (e.StopDevice? || e.ReleaseDevice?)
    ensures Inv(Step(s, e))
  {
    var s' := Step(s, e);
    forall d | 0 <= d < |s'.devices| ensures DeviceInv(s', d) {
      assert DeviceInv(s, d);
    }
  }

  /** Distinct links make the head's device differ from the rest of the list. */
  lemma HeadOnce(links: seq<nat>, list: seq<nat>, d: nat)
    requires list != [] && DistinctLinks(links, list) && forall i :: 0 <= i < |list| ==> list[i] < |links|
    ensures d in list[1..] <==> d in list && d != list[0]
    ensures DistinctLinks(links, list[1..])
  {
    if d in list[1..] {
      var k :| 0 <= k < |list[1..]| && list[1..][k] == d;
      assert list[k + 1] == d;
    }
  }

  lemma PopKeeps(s: State)
    requires Inv(s) && Enabled(s, PopDevice)
    ensures Inv(Step(s, PopDevice))
  {
    var s' := Step(s, PopDevice);
    HeadOnce(s.links, s.list, s.list[0]);
    forall d | 0 <= d < |s'.devices| ensures DeviceInv(s', d) {
      assert DeviceInv(s, d);
      HeadOnce(s.links, s.list, d);
    }
  }

  lemma StepKeeps(s: State, e: Event)
    requires Inv(s) && Enabled(s, e)
    ensures Inv(Step(s, e))
  {
    match e
    case Arrival(link) => ArrivalKeeps(s, link);
    case Create(a, i) => CreateKeeps(s, a, i);
    case QueueStart(t) => QueueStartKeeps(s, t);
    case Removal(link) => RemovalKeeps(s, link);
    case QueueStop(t) => QueueStopKeeps(s, t);
    case Drop => DropKeeps(s);
    case WorkerBegins => QuietKeeps(s, e);
    case WorkerLooks => WorkerLooksKeeps(s);
    case WorkerActs(ok) => WorkerActsKeeps(s, ok);
    case WorkerReleases => WorkerReleasesKeeps(s);
    case Unregister => QuietKeeps(s, e);
    case Flushed => QuietKeeps(s, e);
    case PopDevice => PopKeeps(s);
    case StopDevice => CleanupKeeps(s, e);
    case ReleaseDevice => CleanupKeeps(s, e);
    case Finish => QuietKeeps(s, e);
  }

  // --------------------------------------------------------------------- main results

  const INITIAL := State([], [], [], [], false, Idle, Waiting, Registered)

  ghost predicate Possible(s: State, es: seq<Event>)
    decreases |es|
  {
    es == [] || (Enabled(s, es[0]) && Possible(Step(s, es[0]), es[1..]))
  }

  function After(s: State, es: seq<Event>): State
    requires Possible(s, es)
    decreases |es|
  {
    if es == [] then s else After(Step(s, es[0]), es[1..])
  }

  lemma {:induction false} RunKeeps(s: State, es: seq<Event>)
    requires Inv(s) && Possible(s, es)
    ensures Inv(After(s, es))
    decreases |es|
  {
    if es != [] {
      StepKeeps(s, es[0]);
      RunKeeps(Step(s, es[0]), es[1..]);
    }
  }

  /** Some thread, list or task holds a pointer to the device. */
  ghost predicate PointedTo(s: State, d: nat) {
    d in s.list || Pending(s.tasks, d) != [] || HeldByWorker(s.worker, d) > 0
      || HeldByNotifier(s.notifier, d) > 0 || HeldByCleanup(s.cleanup, d) > 0
  }

  /** In every interleaving of notifications, worker and cleanup: the reference count is the number
      of holders, a device is freed exactly when nothing points to it any more, no two listed
      devices have the same link, and queued tasks are never without a worker to run them. */
  lemma LifetimesHold(es: seq<Event>)
    requires Possible(INITIAL, es)
    ensures var s := After(INITIAL, es);
      && |s.links| == |s.devices|
      && (forall d :: 0 <= d < |s.devices| ==> s.devices[d].refs == Holders(s, d))
      && (forall d :: 0 <= d < |s.devices| ==> (s.devices[d].freed <==> !PointedTo(s, d)))
      && DistinctLinks(s.links, s.list)
      && (s.tasks != [] ==> s.queued || s.worker != Idle)
  {
    RunKeeps(INITIAL, es);
    var s := After(INITIAL, es);
    forall d | 0 <= d < |s.devices|
      ensures s.devices[d].refs == Holders(s, d) && (s.devices[d].freed <==> !PointedTo(s, d))
    {
      assert DeviceInv(s, d);
    }
  }

  /** No thread ever uses a freed device: what it points to has a reference. */
  lemma PointersAreLive(s: State)
    requires Inv(s)
    ensures s.notifier.Created? || s.notifier.Found? || s.notifier.Dropping? ==> Live(s, s.notifier.device)
    ensures s.worker.Holding? || s.worker.Done? ==> Live(s, s.worker.task.device)
    ensures s.cleanup.Stopping? || s.cleanup.Releasing? ==> Live(s, s.cleanup.device)
    ensures forall i :: 0 <= i < |s.list| ==> Live(s, s.list[i])
    ensures forall i :: 0 <= i < |s.tasks| ==> Live(s, s.tasks[i].device)
  {
    forall i | 0 <= i < |s.list| ensures Live(s, s.list[i]) {
      assert DeviceInv(s, s.list[i]);
    }
    forall i | 0 <= i < |s.tasks| ensures Live(s, s.tasks[i].device) {
      PendingSome(s.tasks, i);
      assert DeviceInv(s, s.tasks[i].device);
    }
    if s.notifier.Created? || s.notifier.Found? || s.notifier.Dropping? {
      assert DeviceInv(s, s.notifier.device);
    }
    if s.worker.Holding? || s.worker.Done? {
      assert DeviceInv(s, s.worker.task.device);
    }
    if s.cleanup.Stopping? || s.cleanup.Releasing? {
      assert DeviceInv(s, s.cleanup.device);
    }
  }

  lemma {:induction false} PendingSome(tasks: seq<Task>, i: nat)
    requires i < |tasks|
    ensures Pending(tasks, tasks[i].device) != []
  {
    if tasks[0].device != tasks[i].device {
      PendingSome(tasks[1..], i - 1);
    }
  }

  /** Stop runs at most once on a device, and only on one whose Start has run. */
  lemma StopOnceAfterStart(s: State, e: Event)
    requires Inv(s) && Enabled(s, e)
    ensures e.WorkerActs? && s.worker.task.action == StopTask ==>
      var dev := s.devices[s.worker.task.device]; dev.starts == 1 && dev.stops == 0
    ensures e.WorkerActs? && s.worker.task.action == StartTask ==>
      var dev := s.devices[s.worker.task.device]; dev.starts == 0 && dev.stops == 0
    ensures e.StopDevice? ==> var dev := s.devices[s.cleanup.device]; dev.starts == 1 && dev.stops == 0
  {
    if e.WorkerActs? {
      ConsTail(s.worker.task.action, Pending(s.tasks, s.worker.task.device));
      assert DeviceInv(s, s.worker.task.device);
    } else if e.StopDevice? {
      assert DeviceInv(s, s.cleanup.device);
    }
  }

  /** The releases the code expects not to be, and to be, the last. */
  lemma ReleasesAsExpected(s: State, e: Event)
    requires Inv(s) && Enabled(s, e)
    ensures e.QueueStop? ==> s.devices[s.notifier.device].refs >= 2
    ensures e.ReleaseDevice? ==> s.devices[s.cleanup.device].refs == 1
    ensures e.Arrival? || e.Removal? ==> forall d :: 0 <= d < |s.devices| ==> s.devices[d].freed == Step(s, e).devices[d].freed
  {
    if e.QueueStop? {
      assert DeviceInv(s, s.notifier.device);
    } else if e.ReleaseDevice? {
      assert DeviceInv(s, s.cleanup.device);
    }
  }

  /** After the cleanup both lists are empty, every device is freed, and each one that was ever
      started has been stopped. */
  lemma CleanupIsComplete(s: State)
    requires Inv(s) && s.cleanup == Finished
    ensures s.list == [] && s.tasks == []
    ensures forall d :: 0 <= d < |s.devices| ==> s.devices[d].freed && s.devices[d].starts == s.devices[d].stops <= 1
  {
    forall d | 0 <= d < |s.devices| ensures s.devices[d].freed && s.devices[d].starts == s.devices[d].stops <= 1 {
      assert DeviceInv(s, d);
    }
  }

  /** The destructor asserts that the device is not running. It is, for exactly the devices for
      which Init succeeded and no task could be allocated. */
  lemma FreedWhileRunningIff(s: State, d: nat)
    requires Inv(s) && d < |s.devices| && s.devices[d].freed
    ensures s.devices[d].state == Running <==> s.devices[d].unqueued
  {
    assert DeviceInv(s, d);
  }

  lemma Follow(s: State, e: Event, es: seq<Event>)
    requires Enabled(s, e) && Possible(Step(s, e), es)
    ensures Possible(s, [e] + es) && After(s, [e] + es) == After(Step(s, e), es)
  {
    assert ([e] + es)[1..] == es;
  }

  /** Such a device: its interface arrives, Init succeeds, and there is no memory for its task. */
  lemma FreedWhileRunningExample(link: nat)
    ensures var es := [Arrival(link)] + ([Create(true, true)] + ([QueueStart(false)] + ([Drop] + [])));
      && Possible(INITIAL, es)
      && |After(INITIAL, es).devices| == 1
      && After(INITIAL, es).devices[0].freed && After(INITIAL, es).devices[0].state == Running
  {
    var s1 := Step(INITIAL, Arrival(link));
    var s2 := Step(s1, Create(true, true));
    var s3 := Step(s2, QueueStart(false));
    Follow(s3, Drop, []);
    Follow(s2, QueueStart(false), [Drop] + []);
    Follow(s1, Create(true, true), [QueueStart(false)] + ([Drop] + []));
    Follow(INITIAL, Arrival(link), [Create(true, true)] + ([QueueStart(false)] + ([Drop] + [])));
  }

  // --------------------------------------------------------------------- whole notifications

  /** An interface arrives that is not listed: its device is listed, and its start queued with a worker
      coming. Without memory, or with a failing Init, list and tasks are as before. */
  lemma ArrivalLists(s: State, link: nat)
    requires Inv(s) && s.cleanup == Registered && s.notifier == Waiting && Unlisted(s.links, s.list, link)
    ensures var es := [Arrival(link)] + ([Create(true, true)] + ([QueueStart(true)] + []));
      && Possible(s, es)
      && var t, d := After(s, es), |s.devices|;
      && t.links == s.links + [link] && t.list == s.list + [d] && t.tasks == s.tasks + [Task(StartTask, d)]
      && t.queued && t.notifier == Waiting && |t.devices| == d + 1 && t.devices[..d] == s.devices
      && t.devices[d] == Device(2, Running, false, 0, 0, false)
    ensures Possible(s, [Arrival(link)] + ([Create(false, false)] + []))
         && After(s, [Arrival(link)] + ([Create(false, false)] + [])) == s
    ensures var es := [Arrival(link)] + ([Create(true, false)] + ([Drop] + []));
      && Possible(s, es)
      && var t := After(s, es);
      && t.list == s.list && t.tasks == s.tasks && t.notifier == Waiting
      && t.devices == s.devices + [Device(0, Initializing, true, 0, 0, false)]
  {
    FindSpec(s.links, s.list, link);
    assert Find(s.links, s.list, link) == |s.devices| by {
      FindNothing(s.links, s.list, link);
    }
    var s1 := Step(s, Arrival(link));
    var s2 := Step(s1, Create(true, true));
    Follow(s2, QueueStart(true), []);
    Follow(s1, Create(true, true), [QueueStart(true)] + []);
    Follow(s, Arrival(link), [Create(true, true)] + ([QueueStart(true)] + []));
    Follow(s1, Create(false, false), []);
    Follow(s, Arrival(link), [Create(false, false)] + []);
    var s3 := Step(s1, Create(true, false));
    Follow(s3, Drop, []);
    Follow(s1, Create(true, false), [Drop] + []);
    Follow(s, Arrival(link), [Create(true, false)] + ([Drop] + []));
  }

  lemma {:induction false} FindNothing(links: seq<nat>, list: seq<nat>, link: nat)
    requires Unlisted(links, list, link)
    ensures Find(links, list, link) == |links|
  {
    if list != [] {
      assert forall i :: 0 <= i < |list[1..]| ==> list[1..][i] == list[i + 1];
      FindNothing(links, list[1..], link);
    }
  }

  /** A listed link: another arrival changes nothing; its removal unlists it and queues the stop of its
      device; without memory for that nothing changes. */
  lemma RemovalUnlists(s: State, link: nat, d: nat)
    requires Inv(s) && s.cleanup == Registered && s.notifier == Waiting && d in s.list && d < |s.links| && s.links[d] == link
    ensures Possible(s, [Arrival(link)] + ([Drop] + [])) && After(s, [Arrival(link)] + ([Drop] + [])) == s
    ensures var es := [Removal(link)] + ([QueueStop(true)] + []);
      && Possible(s, es)
      && var t := After(s, es);
      && Unlisted(t.links, t.list, link) && t.links == s.links
      && (forall x :: x in s.list && x != d ==> x in t.list)
      && t.tasks == s.tasks + [Task(StopTask, d)] && t.queued && t.notifier == Waiting
      && t.devices == s.devices
    ensures var es := [Removal(link)] + ([QueueStop(false)] + ([Drop] + []));
      Possible(s, es) && After(s, es) == s
  {
    FindSpec(s.links, s.list, link);
    assert Find(s.links, s.list, link) == d by {
      ListedOnce(s, Find(s.links, s.list, link), d);
    }
    assert DeviceInv(s, d);
    var s1 := Step(s, Arrival(link));
    assert s.devices[d := Released(Referenced(s.devices[d]))] == s.devices;
    Follow(s1, Drop, []);
    Follow(s, Arrival(link), [Drop] + []);
    var s2 := Step(s, Removal(link));
    Follow(s2, QueueStop(true), []);
    Follow(s, Removal(link), [QueueStop(true)] + []);
    var s3 := Step(s2, QueueStop(false));
    Follow(s3, Drop, []);
    Follow(s2, QueueStop(false), [Drop] + []);
    Follow(s, Removal(link), [QueueStop(false)] + ([Drop] + []));
    WithoutUnlists(s, d);
  }

  lemma ListedOnce(s: State, a: nat, b: nat)
    requires Inv(s) && b in s.list && b < |s.links|
    requires a <= |s.links| && (a < |s.links| ==> a in s.list && s.links[a] == s.links[b])
    requires a == |s.links| ==> Unlisted(s.links, s.list, s.links[b])
    ensures a == b
  {
  }

  lemma WithoutUnlists(s: State, d: nat)
    requires Inv(s) && d in s.list && d < |s.links|
    ensures Unlisted(s.links, Without(s.list, d), s.links[d])
    ensures forall x :: x in s.list && x != d ==> x in Without(s.list, d)
  {
    var list := Without(s.list, d);
    forall i | 0 <= i < |list| && list[i] < |s.links| ensures s.links[list[i]] != s.links[d] {
      WithoutIn(s.list, d, list[i]);
      if s.links[list[i]] == s.links[d] {
        ListedOnce(s, list[i], d);
      }
    }
    forall x | x in s.list && x != d ensures x in list {
      WithoutIn(s.list, d, x);
    }
  }

  /** The link of the last notification of a run. */
  function Notified(es: seq<Event>): nat {
    if es == [] then 0
    else
      var last := es[|es| - 1];
      if last.Arrival? || last.Removal? then last.link else Notified(es[..|es| - 1])
  }

  /** Whether the last notification for the link that queued a task was an arrival. */
  function Connected(es: seq<Event>, link: nat): bool {
    if es == [] then false
    else
      var last, front := es[|es| - 1], es[..|es| - 1];
      if Notified(front) == link && last == QueueStart(true) then true
      else if Notified(front) == link && last == QueueStop(true) then false
      else Connected(front, link)
  }

  ghost predicate Lists(s: State, link: nat) {
    !Unlisted(s.links, s.list, link)
  }

  /** What the notification under way is about. */
  ghost predicate About(s: State, link: nat) {
    && (s.notifier.Creating? ==> s.notifier.link == link)
    && (s.notifier.Created? || s.notifier.Found? ==> s.notifier.device < |s.links| && s.links[s.notifier.device] == link)
  }

  lemma {:induction false} LastStep(s: State, es: seq<Event>)
    requires Possible(s, es) && es != []
    ensures var front := es[..|es| - 1];
      Possible(s, front) && Enabled(After(s, front), es[|es| - 1]) && After(s, es) == Step(After(s, front), es[|es| - 1])
    decreases |es|
  {
    var front := es[..|es| - 1];
    if |es| > 1 {
      LastStep(Step(s, es[0]), es[1..]);
      assert front[1..] == es[1..][..|es| - 2];
    } else {
      assert front == [] && es[1..] == [];
    }
  }

  /** Over every run up to the cleanup of the list: an interface is listed exactly if its last
      notification that queued a task was an arrival, whatever else failed or was repeated. */
  lemma {:induction false} ListedIffConnected(es: seq<Event>, link: nat)
    requires Possible(INITIAL, es) && PopDevice !in es
    ensures Lists(After(INITIAL, es), link) <==> Connected(es, link)
    ensures About(After(INITIAL, es), Notified(es))
    decreases |es|
  {
    if es != [] {
      var front, last := es[..|es| - 1], es[|es| - 1];
      LastStep(INITIAL, es);
      RunKeeps(INITIAL, front);
      var s := After(INITIAL, front);
      ListedIffConnected(front, link);
      assert last in es;
      ListingStep(s, last, Notified(front), link);
    }
  }

  lemma ListingStep(s: State, e: Event, about: nat, link: nat)
    requires Inv(s) && Enabled(s, e) && About(s, about) && !e.PopDevice?
    ensures About(Step(s, e), if e.Arrival? || e.Removal? then e.link else about)
    ensures Lists(Step(s, e), link)
        <==> if about == link && e == QueueStart(true) then true
             else if about == link && e == QueueStop(true) then false else Lists(s, link)
  {
    match e
    case Arrival(l) => FindSpec(s.links, s.list, l);
    case Removal(l) => FindSpec(s.links, s.list, l);
    case Create(_, _) => LinksGrow(s.links, s.list, about, link);
    case QueueStart(ok) => ListOneMore(s.links, s.list, s.notifier.device, link);
    case QueueStop(ok) => ListOneLess(s, s.notifier.device, link);
    case _ =>
  }

  lemma LinksGrow(links: seq<nat>, list: seq<nat>, more: nat, link: nat)
    requires forall i :: 0 <= i < |list| ==> list[i] < |links|
    ensures Unlisted(links + [more], list, link) <==> Unlisted(links, list, link)
  {
    assert forall i :: 0 <= i < |list| ==> (links + [more])[list[i]] == links[list[i]];
  }

  lemma ListOneMore(links: seq<nat>, list: seq<nat>, d: nat, link: nat)
    requires d < |links| && forall i :: 0 <= i < |list| ==> list[i] < |links|
    ensures Unlisted(links, list + [d], link) <==> Unlisted(links, list, link) && links[d] != link
  {
    if Unlisted(links, list + [d], link) {
      assert (list + [d])[|list|] == d;
      forall i | 0 <= i < |list| ensures links[list[i]] != link {
        assert (list + [d])[i] == list[i];
      }
    }
  }

  lemma ListOneLess(s: State, d: nat, link: nat)
    requires Inv(s) && d in s.list && d < |s.links|
    ensures Unlisted(s.links, Without(s.list, d), link) <==> Unlisted(s.links, s.list, link) || s.links[d] == link
  {
    var rest := Without(s.list, d);
    WithoutUnlists(s, d);
    if Unlisted(s.links, rest, link) && s.links[d] != link {
      forall i | 0 <= i < |s.list| && s.list[i] < |s.links| ensures s.links[s.list[i]] != link {
        if s.list[i] != d {
          assert s.list[i] in rest;
        }
      }
    }
    if Unlisted(s.links, s.list, link) {
      forall i | 0 <= i < |rest| && rest[i] < |s.links| ensures s.links[rest[i]] != link {
        WithoutIn(s.list, d, rest[i]);
      }
    }
  }

  // ------------------------------------------------------------- what is under way comes to its end

  /** A step that brings the threads nearer to the end of the cleanup; nothing new is allocated. */
  function NextStep(s: State): Event {
    match s.notifier
    case Creating(_) => Create(false, false)
    case Created(_) => QueueStart(false)
    case Found(_) => QueueStop(false)
    case Dropping(_) => Drop
    case Waiting =>
      match s.worker
      case Holding(_) => WorkerActs(true)
      case Done(_) => WorkerReleases
      case Looking => WorkerLooks
      case Idle =>
        if s.queued then WorkerBegins
        else match s.cleanup
          case Registered => Unregister
          case Unregistered => Flushed
          case Draining => if s.list == [] then Finish else PopDevice
          case Stopping(_) => StopDevice
          case _ => ReleaseDevice
  }

  function NotifierLeft(n: Notifier): nat {
    match n
    case Waiting => 0
    case Creating(_) => 1
    case Dropping(_) => 1
    case _ => 2
  }

  function WorkerLeft(w: Worker): nat {
    match w
    case Idle => 0
    case Looking => 1
    case Done(_) => 3
    case Holding(_) => 4
  }

  function CleanupLeft(c: Cleanup): nat {
    match c
    case Registered => 4
    case Unregistered => 3
    case Draining => 2
    case Stopping(_) => 4
    case Releasing(_) => 3
    case Finished => 0
  }

  function StepsLeft(s: State): nat {
    NotifierLeft(s.notifier) + 4 * |s.tasks| + (if s.queued then 2 else 0) + WorkerLeft(s.worker)
      + 3 * |s.list| + CleanupLeft(s.cleanup)
  }

  lemma NextStepWorks(s: State)
    requires Inv(s) && s.cleanup != Finished
    ensures Enabled(s, NextStep(s)) && StepsLeft(Step(s, NextStep(s))) < StepsLeft(s)
  {
    PointersAreLive(s);
  }

  /** From every reachable state the cleanup can be brought to its end, in a number of steps bounded by
      what is queued and listed; then every device is freed and each started one stopped. */
  lemma {:induction false} CleanupFinishes(s: State) returns (es: seq<Event>)
    requires Inv(s)
    ensures Possible(s, es) && |es| <= StepsLeft(s) && Inv(After(s, es)) && After(s, es).cleanup == Finished
    ensures var t := After(s, es);
      forall d :: 0 <= d < |t.devices| ==> t.devices[d].freed && t.devices[d].starts == t.devices[d].stops
    decreases StepsLeft(s)
  {
    if s.cleanup == Finished {
      es := [];
      CleanupIsComplete(s);
    } else {
      NextStepWorks(s);
      StepKeeps(s, NextStep(s));
      es := CleanupFinishes(Step(s, NextStep(s)));
      Follow(s, NextStep(s), es);
      es := [NextStep(s)] + es;
    }
  }

  /** One run of the worker goes through all tasks that are queued; then every listed device has been
      started, and of the others each started one stopped. */
  lemma {:induction false} WorkerFinishes(s: State) returns (es: seq<Event>)
    requires Inv(s) && s.notifier == Waiting && (s.cleanup == Registered || s.cleanup == Unregistered)
    ensures Possible(s, es) && Inv(After(s, es))
    ensures var t := After(s, es);
      && t.tasks == [] && t.worker == Idle && !t.queued && t.list == s.list && |t.devices| == |s.devices|
      && forall d :: 0 <= d < |t.devices| ==>
        t.devices[d].stops == (if d in t.list then 0 else t.devices[d].starts) && (d in t.list ==> t.devices[d].starts == 1)
    decreases StepsLeft(s)
  {
    if s.worker == Idle && !s.queued {
      es := [];
      forall d | 0 <= d < |s.devices|
        ensures s.devices[d].stops == (if d in s.list then 0 else s.devices[d].starts) && (d in s.list ==> s.devices[d].starts == 1)
      {
        assert DeviceInv(s, d);
      }
    } else {
      NextStepWorks(s);
      StepKeeps(s, NextStep(s));
      es := WorkerFinishes(Step(s, NextStep(s)));
      Follow(s, NextStep(s), es);
      es := [NextStep(s)] + es;
    }
  }

  /** A listed device fails exactly when its Start does. */
  lemma FailsIffStartFails(s: State, e: Event, d: nat)
    requires Inv(s) && Enabled(s, e) && d in s.list && d < |s.devices| && s.devices[d].state == Running && !e.PopDevice?
    ensures Step(s, e).devices[d].state == Failed <==> e == WorkerActs(false) && s.worker == Holding(Task(StartTask, d))
    ensures Step(s, e).devices[d].state == Failed || Step(s, e).devices[d].state == Running
  {
    assert DeviceInv(s, d);
    if e.WorkerActs? && s.worker.task.device == d {
      ConsTail(s.worker.task.action, Pending(s.tasks, d));
    }
  }
}
