/** The four-frame ring of CSaveData as a value, and the append log it refines. */
module SaveRing {
  import opened Words

  const FRAME_COUNT: nat := 4
  const MAX_WORKER_ITEM_COUNT: nat := 15

  /** A queued SaveFrameWorkerCallback: the pool entry it occupies and what it will write. */
  datatype Task = Task(item: nat, frame: nat, size: nat)

  datatype Ring = Ring(
    frameSize: nat,
    buffer: seq<byte>,
    offset: nat,
    index: nat,
    used: seq<bool>,
    done: seq<bool>,        // EventDone of each pool entry
    queue: seq<Task>,       // the work items IoQueueWorkItem holds, oldest first
    payload: seq<byte>,     // what has been written behind the file header
    disabled: bool)

  /** What every write keeps, whatever the callers do. */
  ghost predicate Shaped(r: Ring) {
    && 0 < r.frameSize
    && |r.buffer| == Start(FRAME_COUNT, r.frameSize)
    && |r.used| == FRAME_COUNT
    && |r.done| == MAX_WORKER_ITEM_COUNT
    && r.index < FRAME_COUNT
    && Start(r.index, r.frameSize) <= r.offset < Start(r.index + 1, r.frameSize)
    && forall t :: t in r.queue ==> TaskShaped(r, t)
  }

  ghost predicate TaskShaped(r: Ring, t: Task) {
    t.item < MAX_WORKER_ITEM_COUNT && t.frame < FRAME_COUNT && t.size <= r.frameSize
  }

  function Slice(buffer: seq<byte>, frameSize: nat, t: Task): seq<byte> {
    var lo := Start(t.frame, frameSize);
    if lo + t.size <= |buffer| then buffer[lo..lo + t.size] else []
  }

  function Slices(buffer: seq<byte>, frameSize: nat, queue: seq<Task>): (r: seq<seq<byte>>)
    ensures |r| == |queue|
  {
    seq(|queue|, i requires 0 <= i < |queue| => Slice(buffer, frameSize, queue[i]))
  }

  /** The bytes the queued work items will write, in order. */
  function Pending(buffer: seq<byte>, frameSize: nat, queue: seq<Task>): seq<byte> {
    Flatten(Slices(buffer, frameSize, queue))
  }

  function Partial(r: Ring): seq<byte>
    requires Shaped(r)
  {
    Bounds(r);
    r.buffer[Start(r.index, r.frameSize)..r.offset]
  }

  /** The append log the ring stands for. */
  function Log(r: Ring): seq<byte>
    requires Shaped(r)
  {
    r.payload + Pending(r.buffer, r.frameSize, r.queue) + Partial(r)
  }

  /** What is in memory only. */
  function Unwritten(r: Ring): seq<byte>
    requires Shaped(r)
  {
    Pending(r.buffer, r.frameSize, r.queue) + Partial(r)
  }

  lemma Bounds(r: Ring)
    requires Shaped(r)
    ensures Start(r.index + 1, r.frameSize) == Start(r.index, r.frameSize) + r.frameSize <= |r.buffer|
    ensures r.index + 1 < FRAME_COUNT ==>
      Start(r.index + 2, r.frameSize) == Start(r.index + 1, r.frameSize) + r.frameSize <= |r.buffer|
  {
    StartMono(r.index + 1, FRAME_COUNT, r.frameSize);
    if r.index + 1 < FRAME_COUNT {
      StartMono(r.index + 2, FRAME_COUNT, r.frameSize);
    }
  }

  // ---------------------------------------------------------------- operations

  /** GetNewWorkItem: the first pool entry whose event is signalled, or the pool's size. */
  function FirstDone(done: seq<bool>): (i: nat)
    ensures i <= |done|
    ensures i < |done| ==> done[i]
    ensures forall k :: 0 <= k < i ==> !done[k]
  {
    if done == [] || done[0] then 0 else 1 + FirstDone(done[1..])
  }

  function SaveFrame(r: Ring, frame: nat, size: nat): Ring {
    var i := FirstDone(r.done);
    if i == |r.done| then r
    else r.(done := r.done[i := false], queue := r.queue + [Task(i, frame, size)])
  }

  /** The bytes of one WriteData call after the clamp to one frame. */
  function Clamped(r: Ring, data: seq<byte>): seq<byte> {
    if |data| > r.frameSize then data[..r.frameSize] else data
  }

  /** (index + 1) % FRAME_COUNT */
  function Next(index: nat): (r: nat)
    requires index < FRAME_COUNT
    ensures r < FRAME_COUNT
  {
    if index + 1 == FRAME_COUNT then 0 else index + 1
  }

  /** The first copy, the end-of-frame test and the loop back to the start of the buffer. */
  function Fill(r: Ring, first: seq<byte>): Ring
    requires Shaped(r) && r.offset + |first| <= |r.buffer|
  {
    var reached := r.offset + |first|;
    var save := reached >= Start(r.index + 1, r.frameSize);
    r.(buffer := Patch(r.buffer, r.offset, first),
       offset := if reached == |r.buffer| then 0 else reached,
       used := if save then r.used[r.index := true] else r.used,
       index := if save then Next(r.index) else r.index)
  }

  /** The left-over bytes go to the start of the buffer when that frame is free. */
  function Leftover(r: Ring, rest: seq<byte>): Ring
    requires |r.used| == FRAME_COUNT && r.index < FRAME_COUNT && r.offset + |rest| <= |r.buffer|
  {
    if rest != [] && !r.used[r.index]
    then r.(buffer := Patch(r.buffer, r.offset, rest), offset := r.offset + |rest|)
    else r
  }

  function Write(r: Ring, data: seq<byte>): Ring
    requires Shaped(r)
  {
    if r.disabled || data == [] || r.used[r.index] then r else
    var d := Clamped(r, data);
    var n := Min(|r.buffer| - r.offset, |d|);
    Bounds(r);
    FillLeavesRoom(r, d, n);
    var kept := Leftover(Fill(r, d[..n]), d[n..]);
    if r.offset + n >= Start(r.index + 1, r.frameSize) then SaveFrame(kept, r.index, r.frameSize) else kept
  }

  /** After the first copy the left-over bytes still fit behind the new offset. */
  lemma FillLeavesRoom(r: Ring, d: seq<byte>, n: nat)
    requires Shaped(r) && |d| <= r.frameSize && n == Min(|r.buffer| - r.offset, |d|)
    ensures 0 <= n <= |d| && r.offset + n <= |r.buffer|
    ensures var f := Fill(r, d[..n]);
      && |f.used| == FRAME_COUNT && f.index < FRAME_COUNT && |f.buffer| == |r.buffer|
      && f.offset + (|d| - n) <= |f.buffer|
  {
    Bounds(r);
  }

  /** SaveFrameWorkerCallback for the oldest queued item; `written` tells whether the file took it. */
  function Work(r: Ring, written: bool): Ring
    requires Shaped(r) && r.queue != []
  {
    var t := r.queue[0];
    assert TaskShaped(r, t);
    r.(payload := if written then r.payload + Slice(r.buffer, r.frameSize, t) else r.payload,
       used := r.used[t.frame := false],
       done := r.done[t.item := true],
       queue := r.queue[1..])
  }

  /** All queued items run, in order, with a working file. */
  function Drain(r: Ring): Ring
    requires Shaped(r)
    decreases |r.queue|
  {
    if r.queue == [] then r else
      WorkShaped(r, true);
      Drain(Work(r, true))
  }

  function SavePartial(r: Ring): Ring {
    if r.offset > Start(r.index, r.frameSize)
    then SaveFrame(r, r.index, r.offset - Start(r.index, r.frameSize))
    else r
  }

  function WaitAll(r: Ring): Ring
    requires Shaped(r)
  {
    SavePartialShaped(r);
    Drain(SavePartial(r))
  }

  lemma WorkShaped(r: Ring, written: bool)
    requires Shaped(r) && r.queue != []
    ensures Shaped(Work(r, written))
  {
    assert TaskShaped(r, r.queue[0]);
    assert forall t :: t in r.queue[1..] ==> t in r.queue;
  }

  lemma SaveFrameShaped(r: Ring, frame: nat, size: nat)
    requires Shaped(r) && frame < FRAME_COUNT && size <= r.frameSize
    ensures Shaped(SaveFrame(r, frame, size))
  {
  }

  lemma SavePartialShaped(r: Ring)
    requires Shaped(r)
    ensures Shaped(SavePartial(r))
  {
    Bounds(r);
    if r.offset > Start(r.index, r.frameSize) {
      SaveFrameShaped(r, r.index, r.offset - Start(r.index, r.frameSize));
    }
  }

  lemma FillShaped(r: Ring, d: seq<byte>, n: nat)
    requires Shaped(r) && |d| <= r.frameSize && n == Min(|r.buffer| - r.offset, |d|)
    ensures n <= |d| && r.offset + n <= |r.buffer|
    ensures Shaped(Fill(r, d[..n]))
    ensures n < |d| ==> Fill(r, d[..n]).offset == 0 && |d| - n < r.frameSize
  {
    Bounds(r);
  }

  lemma LeftoverShaped(r: Ring, rest: seq<byte>)
    requires Shaped(r) && r.offset + |rest| <= |r.buffer|
    requires rest == [] || (r.offset == 0 && |rest| < r.frameSize)
    ensures Shaped(Leftover(r, rest))
  {
    Bounds(r);
    StartMono(0, r.index, r.frameSize);
    assert r.index > 0 ==> Start(1, r.frameSize) <= Start(r.index, r.frameSize) by {
      if r.index > 0 {
        StartMono(1, r.index, r.frameSize);
      }
    }
  }

  /** index * size <= offset < (index + 1) * size survives every write, overruns included. */
  lemma WriteShaped(r: Ring, data: seq<byte>)
    requires Shaped(r)
    ensures Shaped(Write(r, data))
  {
    if !(r.disabled || data == [] || r.used[r.index]) {
      Bounds(r);
      var d := Clamped(r, data);
      var n := Min(|r.buffer| - r.offset, |d|);
      FillShaped(r, d, n);
      FillLeavesRoom(r, d, n);
      LeftoverShaped(Fill(r, d[..n]), d[n..]);
      SaveFrameShaped(Leftover(Fill(r, d[..n]), d[n..]), r.index, r.frameSize);
    }
  }

  // ---------------------------------------------------------- the refined log

  /** The queue holds the frames just behind the current one, oldest first, each marked used. */
  ghost predicate Valid(r: Ring) {
    && Shaped(r)
    && QueueInPlace(r.index, r.frameSize, r.queue)
    && UsedMatches(r.index, r.used, |r.queue|)
    && PoolMatches(r.done, r.queue)
    && (r.used[r.index] ==> r.offset == Start(r.index, r.frameSize))
  }

  /** How many frames before `index`, going round, frame `f` lies: 1 to 4. */
  function Behind(index: nat, f: nat): nat
    requires index < FRAME_COUNT && f < FRAME_COUNT
  {
    if f < index then index - f else index + FRAME_COUNT - f
  }

  ghost predicate QueueInPlace(index: nat, frameSize: nat, queue: seq<Task>)
    requires index < FRAME_COUNT
  {
    && |queue| <= FRAME_COUNT
    && forall i :: 0 <= i < |queue| ==>
      && queue[i].frame < FRAME_COUNT
      && Behind(index, queue[i].frame) == |queue| - i
      && queue[i].size == frameSize
  }

  ghost predicate UsedMatches(index: nat, used: seq<bool>, queued: nat)
    requires index < FRAME_COUNT
  {
    && |used| == FRAME_COUNT
    && forall f :: 0 <= f < FRAME_COUNT ==> used[f] == (Behind(index, f) <= queued)
  }

  ghost predicate PoolMatches(done: seq<bool>, queue: seq<Task>) {
    && |done| == MAX_WORKER_ITEM_COUNT
    && Busy(done) == |queue|
    && (forall i :: 0 <= i < |queue| ==> queue[i].item < MAX_WORKER_ITEM_COUNT && !done[queue[i].item])
    && (forall i, j :: 0 <= i < j < |queue| ==> queue[i].item != queue[j].item)
    && (forall k :: 0 <= k < MAX_WORKER_ITEM_COUNT && !done[k] ==> Holds(queue, k))
  }

  ghost predicate Holds(queue: seq<Task>, item: nat) {
    exists i :: 0 <= i < |queue| && queue[i].item == item
  }

  function Busy(done: seq<bool>): nat {
    if done == [] then 0 else (if done[0] then 0 else 1) + Busy(done[1..])
  }

  lemma {:induction false} BusySet(done: seq<bool>, i: nat, b: bool)
    requires i < |done| && done[i] != b
    ensures Busy(done[i := b]) == if b then Busy(done) - 1 else Busy(done) + 1
  {
    if i > 0 {
      BusySet(done[1..], i - 1, b);
      assert done[i := b][1..] == done[1..][i - 1 := b];
    } else {
      assert done[i := b][1..] == done[1..];
    }
  }

  lemma {:induction false} NotAllBusy(done: seq<bool>)
    requires Busy(done) < |done|
    ensures FirstDone(done) < |done|
  {
    if !done[0] {
      NotAllBusy(done[1..]);
    }
  }

  /** Which bytes of a call enter the log: none when the current frame is in use; otherwise all
      that the clamp leaves, less what no longer fits when the wrap meets a frame in use. */
  function Accepted(r: Ring, data: seq<byte>): seq<byte>
    requires Shaped(r)
  {
    if r.disabled || data == [] || r.used[r.index] then [] else
    Bounds(r);
    var d := Clamped(r, data);
    var room := |r.buffer| - r.offset;
    if |d| > room && r.used[Next(r.index)] then d[..room] else d
  }

  /** A write that runs from the current frame into the next one although that one is still
      queued. At the end of the buffer the code tests the flag, so only the first three frames. */
  predicate Overruns(r: Ring, count: nat)
    requires |r.used| == FRAME_COUNT && r.index < FRAME_COUNT
  {
    && !r.disabled && !r.used[r.index]
    && r.index + 1 < FRAME_COUNT && r.used[r.index + 1]
    && r.offset + Min(count, r.frameSize) > Start(r.index + 1, r.frameSize)
  }

  // ----------------------------------------------------- queued bytes under writes

  lemma PendingSame(a: seq<byte>, b: seq<byte>, frameSize: nat, q: seq<Task>)
    requires forall i :: 0 <= i < |q| ==> Slice(a, frameSize, q[i]) == Slice(b, frameSize, q[i])
    ensures Pending(a, frameSize, q) == Pending(b, frameSize, q)
  {
    assert Slices(a, frameSize, q) == Slices(b, frameSize, q);
  }

  lemma PendingAppend(b: seq<byte>, frameSize: nat, q: seq<Task>, t: Task)
    ensures Pending(b, frameSize, q + [t]) == Pending(b, frameSize, q) + Slice(b, frameSize, t)
  {
    assert Slices(b, frameSize, q + [t]) == Slices(b, frameSize, q) + [Slice(b, frameSize, t)];
    FlattenAppend(Slices(b, frameSize, q), Slice(b, frameSize, t));
  }

  lemma PendingHead(b: seq<byte>, frameSize: nat, q: seq<Task>)
    requires q != []
    ensures Pending(b, frameSize, q) == Slice(b, frameSize, q[0]) + Pending(b, frameSize, q[1..])
  {
    assert Slices(b, frameSize, q)[1..] == Slices(b, frameSize, q[1..]);
  }

  lemma FrameBounds(f: nat, frameSize: nat)
    requires f < FRAME_COUNT
    ensures Start(f, frameSize) + frameSize == Start(f + 1, frameSize) <= Start(FRAME_COUNT, frameSize)
  {
    StartMono(f + 1, FRAME_COUNT, frameSize);
  }

  lemma FramesApart(f: nat, g: nat, frameSize: nat)
    requires f != g
    ensures Start(f, frameSize) + frameSize <= Start(g, frameSize) || Start(g, frameSize) + frameSize <= Start(f, frameSize)
  {
    if f < g {
      StartMono(f + 1, g, frameSize);
    } else {
      StartMono(g + 1, f, frameSize);
    }
  }

  /** Bytes written inside frame `f` leave the slice of a task on another frame alone. */
  lemma SliceOutside(b: seq<byte>, frameSize: nat, t: Task, f: nat, at: nat, data: seq<byte>)
    requires |b| == Start(FRAME_COUNT, frameSize) && t.frame < FRAME_COUNT && f < FRAME_COUNT
    requires t.frame != f && t.size <= frameSize
    requires Start(f, frameSize) <= at && at + |data| <= Start(f, frameSize) + frameSize <= |b|
    ensures Slice(Patch(b, at, data), frameSize, t) == Slice(b, frameSize, t)
  {
    FrameBounds(t.frame, frameSize);
    FramesApart(t.frame, f, frameSize);
    var lo := Start(t.frame, frameSize);
    var b' := Patch(b, at, data);
    assert b'[lo..lo + t.size] == b[lo..lo + t.size];
  }

  lemma PendingOutside(b: seq<byte>, frameSize: nat, index: nat, q: seq<Task>, f: nat, at: nat, data: seq<byte>)
    requires |b| == Start(FRAME_COUNT, frameSize) && f < FRAME_COUNT && index < FRAME_COUNT
    requires QueueInPlace(index, frameSize, q) && Behind(index, f) > |q|
    requires Start(f, frameSize) <= at && at + |data| <= Start(f, frameSize) + frameSize <= |b|
    ensures Pending(Patch(b, at, data), frameSize, q) == Pending(b, frameSize, q)
  {
    var b' := Patch(b, at, data);
    forall i | 0 <= i < |q| ensures Slice(b, frameSize, q[i]) == Slice(b', frameSize, q[i]) {
      SliceOutside(b, frameSize, q[i], f, at, data);
    }
    PendingSame(b, b', frameSize, q);
  }

  // -------------------------------------------------------- a frame enters the queue

  lemma SealQueue(index: nat, frameSize: nat, q: seq<Task>, item: nat)
    requires index < FRAME_COUNT && QueueInPlace(index, frameSize, q) && |q| < FRAME_COUNT
    ensures QueueInPlace(Next(index), frameSize, q + [Task(item, index, frameSize)])
  {
  }

  lemma SealPool(done: seq<bool>, q: seq<Task>, t: Task)
    requires PoolMatches(done, q) && |q| <= FRAME_COUNT && t.item == FirstDone(done)
    ensures t.item < |done|
    ensures PoolMatches(done[t.item := false], q + [t])
  {
    NotAllBusy(done);
    var q', done' := q + [t], done[t.item := false];
    assert Busy(done') == |q'| by {
      BusySet(done, t.item, false);
    }
    assert forall i :: 0 <= i < |q| ==> q'[i] == q[i];
    forall i | 0 <= i < |q'| ensures q'[i].item < MAX_WORKER_ITEM_COUNT && !done'[q'[i].item] {
    }
    forall i, j | 0 <= i < j < |q'| ensures q'[i].item != q'[j].item {
    }
    forall k | 0 <= k < MAX_WORKER_ITEM_COUNT && !done'[k] ensures Holds(q', k) {
      if k == t.item {
        assert q'[|q|].item == k;
      } else {
        var i :| 0 <= i < |q| && q[i].item == k;
        assert q'[i] == q[i];
      }
    }
  }

  /** The ring once the current frame is queued and `w` lies at the start of the next one. */
  function Sealed(r: Ring, b: seq<byte>, w: seq<byte>): Ring
    requires r.index < |r.used| == FRAME_COUNT
  {
    var next := Next(r.index);
    SaveFrame(r.(buffer := b, used := r.used[r.index := true], index := next,
                 offset := Start(next, r.frameSize) + |w|), r.index, r.frameSize)
  }

  lemma SealedValid(r: Ring, b: seq<byte>, w: seq<byte>)
    requires Valid(r) && !r.used[r.index] && |b| == |r.buffer| && |w| < r.frameSize
    requires r.used[Next(r.index)] ==> w == []
    ensures Valid(Sealed(r, b, w))
  {
    var next := Next(r.index);
    var t := Task(FirstDone(r.done), r.index, r.frameSize);
    SealQueue(r.index, r.frameSize, r.queue, t.item);
    SealPool(r.done, r.queue, t);
    FrameBounds(next, r.frameSize);
    var r' := Sealed(r, b, w);
    assert r'.queue == r.queue + [t] && r'.done == r.done[t.item := false];
    assert UsedMatches(next, r.used[r.index := true], |r.queue| + 1);
    assert Shaped(r') by {
      forall u | u in r'.queue ensures TaskShaped(r', u) {
        assert u in r.queue ==> TaskShaped(r, u);
      }
    }
  }

  /** `x` completes the current frame and `w` starts the next one. */
  lemma SealedLog(r: Ring, b: seq<byte>, x: seq<byte>, w: seq<byte>)
    requires Shaped(r) && Shaped(Sealed(r, b, w)) && |b| == |r.buffer| && FirstDone(r.done) < |r.done|
    requires Pending(b, r.frameSize, r.queue) == Pending(r.buffer, r.frameSize, r.queue)
    requires HoldsAt(b, Start(r.index, r.frameSize), Partial(r) + x) && |Partial(r) + x| == r.frameSize
    requires HoldsAt(b, Start(Next(r.index), r.frameSize), w)
    ensures Log(Sealed(r, b, w)) == Log(r) + x + w
  {
    var t := Task(FirstDone(r.done), r.index, r.frameSize);
    var r' := Sealed(r, b, w);
    var q := Pending(r.buffer, r.frameSize, r.queue);
    PendingAppend(b, r.frameSize, r.queue, t);
    assert Slice(b, r.frameSize, t) == Partial(r) + x;
    assert Partial(r') == w;
    assert Log(r') == r.payload + (q + (Partial(r) + x)) + w;
    assert r.payload + (q + (Partial(r) + x)) == Log(r) + x;
  }

  // ------------------------------------------------------------------- main results

  /** One write keeps the ring valid and appends exactly the accepted bytes to the log. */
  lemma WriteAppends(r: Ring, data: seq<byte>)
    requires Valid(r) && !Overruns(r, |data|)
    ensures Valid(Write(r, data))
    ensures Log(Write(r, data)) == Log(r) + Accepted(r, data)
  {
    Bounds(r);
    if r.disabled || data == [] || r.used[r.index] {
      assert Log(r) + [] == Log(r);
    } else {
      var d := Clamped(r, data);
      var k := Start(r.index + 1, r.frameSize) - r.offset;
      ClampedTwice(r, data);
      if |d| < k {
        WriteInside(r, d);
        WriteWhole(r, d);
      } else {
        WriteAcross(r, d, k);
      }
    }
  }

  lemma ClampedTwice(r: Ring, data: seq<byte>)
    requires Shaped(r) && data != []
    ensures var d := Clamped(r, data);
      d != [] && Write(r, data) == Write(r, d) && Accepted(r, data) == Accepted(r, d)
      && (Overruns(r, |data|) == Overruns(r, |d|))
  {
  }

  lemma PatchGrows<T>(b: seq<T>, lo: nat, at: nat, d: seq<T>)
    requires lo <= at && at + |d| <= |b|
    ensures Patch(b, at, d)[lo..at + |d|] == b[lo..at] + d
  {
  }

  lemma WriteInside(r: Ring, d: seq<byte>)
    requires Valid(r) && !r.used[r.index]
    requires r.offset + |d| < Start(r.index + 1, r.frameSize) <= |r.buffer|
    ensures var r' := r.(buffer := Patch(r.buffer, r.offset, d), offset := r.offset + |d|);
      Valid(r') && Log(r') == Log(r) + d
  {
    Bounds(r);
    var r' := r.(buffer := Patch(r.buffer, r.offset, d), offset := r.offset + |d|);
    PendingOutside(r.buffer, r.frameSize, r.index, r.queue, r.index, r.offset, d);
    forall t | t in r'.queue ensures TaskShaped(r', t) {
      assert TaskShaped(r, t);
    }
    PatchGrows(r.buffer, Start(r.index, r.frameSize), r.offset, d);
    AppendAssoc(r.payload + Pending(r.buffer, r.frameSize, r.queue), Partial(r), d);
  }

  /** The buffer after a write that completes the current frame: `x` at the end of it, `w` at
      the start of the next. */
  function Across(r: Ring, x: seq<byte>, w: seq<byte>): seq<byte>
    requires Shaped(r)
    requires r.offset + |x| == Start(r.index + 1, r.frameSize) && |w| <= r.frameSize
  {
    Bounds(r);
    FrameBounds(Next(r.index), r.frameSize);
    Patch(Patch(r.buffer, r.offset, x), Start(Next(r.index), r.frameSize), w)
  }

  lemma AcrossPending(r: Ring, x: seq<byte>, w: seq<byte>)
    requires Valid(r) && !r.used[r.index]
    requires r.offset + |x| == Start(r.index + 1, r.frameSize) && |w| <= r.frameSize
    requires r.used[Next(r.index)] ==> w == []
    ensures Pending(Across(r, x, w), r.frameSize, r.queue) == Pending(r.buffer, r.frameSize, r.queue)
  {
    Bounds(r);
    var next := Next(r.index);
    FrameBounds(next, r.frameSize);
    var mid := Patch(r.buffer, r.offset, x);
    PendingOutside(r.buffer, r.frameSize, r.index, r.queue, r.index, r.offset, x);
    if w == [] {
      assert Across(r, x, w) == mid;
    } else {
      PendingOutside(mid, r.frameSize, r.index, r.queue, next, Start(next, r.frameSize), w);
    }
  }

  lemma AcrossCurrent(r: Ring, x: seq<byte>, w: seq<byte>)
    requires Shaped(r)
    requires r.offset + |x| == Start(r.index + 1, r.frameSize) && |w| <= r.frameSize
    ensures HoldsAt(Across(r, x, w), Start(r.index, r.frameSize), Partial(r) + x)
  {
    Bounds(r);
    var next := Next(r.index);
    FrameBounds(next, r.frameSize);
    FramesApart(r.index, next, r.frameSize);
    var lo := Start(r.index, r.frameSize);
    PatchGrows(r.buffer, lo, r.offset, x);
    PatchApart(Patch(r.buffer, r.offset, x), Start(next, r.frameSize), w, lo, lo + r.frameSize);
  }

  lemma PatchApart<T>(b: seq<T>, at: nat, d: seq<T>, lo: nat, hi: nat)
    requires at + |d| <= |b| && lo <= hi <= |b| && (hi <= at || at + |d| <= lo)
    ensures Patch(b, at, d)[lo..hi] == b[lo..hi]
  {
  }

  lemma AcrossNext(r: Ring, x: seq<byte>, w: seq<byte>)
    requires Shaped(r)
    requires r.offset + |x| == Start(r.index + 1, r.frameSize) && |w| <= r.frameSize
    ensures HoldsAt(Across(r, x, w), Start(Next(r.index), r.frameSize), w)
    ensures |Across(r, x, w)| == |r.buffer|
  {
    FrameBounds(Next(r.index), r.frameSize);
  }

  lemma AcceptedAcross(r: Ring, d: seq<byte>, k: nat)
    requires Shaped(r) && !r.used[r.index] && !r.disabled && d != [] && |d| <= r.frameSize
    requires r.offset + k == Start(r.index + 1, r.frameSize) && 0 < k <= |d|
    requires !Overruns(r, |d|)
    ensures Accepted(r, d) == d[..k] + (if r.used[Next(r.index)] then [] else d[k..])
  {
    Bounds(r);
    assert d == d[..k] + d[k..];
    assert d[..k] + [] == d[..k];
  }

  lemma SealedAcross(r: Ring, x: seq<byte>, w: seq<byte>)
    requires Valid(r) && !r.used[r.index]
    requires r.offset + |x| == Start(r.index + 1, r.frameSize) && |w| < r.frameSize
    requires |Partial(r) + x| == r.frameSize
    requires r.used[Next(r.index)] ==> w == []
    ensures var r' := Sealed(r, Across(r, x, w), w);
      Valid(r') && Log(r') == Log(r) + (x + w)
  {
    AcrossPending(r, x, w);
    AcrossCurrent(r, x, w);
    AcrossNext(r, x, w);
    SealedValid(r, Across(r, x, w), w);
    NotAllBusy(r.done);
    SealedLog(r, Across(r, x, w), x, w);
    AppendAssoc(Log(r), x, w);
  }

  lemma WriteAcross(r: Ring, d: seq<byte>, k: nat)
    requires Valid(r) && !r.used[r.index] && !r.disabled && d != [] && |d| <= r.frameSize
    requires r.offset + k == Start(r.index + 1, r.frameSize) && 0 < k <= |d|
    requires !Overruns(r, |d|)
    ensures Valid(Write(r, d)) && Log(Write(r, d)) == Log(r) + Accepted(r, d)
  {
    SpillFits(r, d, k);
    SealedAcross(r, d[..k], if r.used[Next(r.index)] then [] else d[k..]);
    WriteIsSealed(r, d, k);
    AcceptedAcross(r, d, k);
  }

  lemma SpillFits(r: Ring, d: seq<byte>, k: nat)
    requires Shaped(r) && |d| <= r.frameSize
    requires r.offset + k == Start(r.index + 1, r.frameSize) && 0 < k <= |d|
    ensures |d[k..]| < r.frameSize && |Partial(r) + d[..k]| == r.frameSize
    ensures Start(Next(r.index), r.frameSize) + r.frameSize <= |r.buffer|
  {
    Bounds(r);
    FrameBounds(Next(r.index), r.frameSize);
  }

  lemma WriteIsSealed(r: Ring, d: seq<byte>, k: nat)
    requires Shaped(r) && !r.used[r.index] && !r.disabled && d != [] && |d| <= r.frameSize
    requires r.offset + k == Start(r.index + 1, r.frameSize) && 0 < k <= |d|
    requires !Overruns(r, |d|)
    ensures var w := if r.used[Next(r.index)] then [] else d[k..];
      Write(r, d) == Sealed(r, Across(r, d[..k], w), w)
  {
    Bounds(r);
    if r.index + 1 < FRAME_COUNT {
      var w := if r.used[r.index + 1] then [] else d[k..];
      assert w == d[k..];
      SplitPatch(r.buffer, r.offset, d, k);
      WriteWhole(r, d);
    } else {
      WriteSplit(r, d, k);
    }
  }

  /** A write that ends inside the buffer is one copy. */
  lemma WriteWhole(r: Ring, d: seq<byte>)
    requires Shaped(r) && !r.used[r.index] && !r.disabled && d != [] && |d| <= r.frameSize
    requires r.offset + |d| <= |r.buffer|
    ensures var f := Fill(r, d);
      Write(r, d) == if r.offset + |d| >= Start(r.index + 1, r.frameSize) then SaveFrame(f, r.index, r.frameSize) else f
  {
    assert d[..|d|] == d && d[|d|..] == [];
  }

  /** A write that reaches the end of the buffer goes on at its start if the frame there is free. */
  lemma WriteSplit(r: Ring, d: seq<byte>, k: nat)
    requires Shaped(r) && !r.used[r.index] && !r.disabled && d != [] && |d| <= r.frameSize
    requires r.index + 1 == FRAME_COUNT && r.offset + k == |r.buffer| && 0 < k <= |d|
    ensures |d| - k <= |r.buffer|
    ensures var w := if r.used[0] then [] else d[k..];
      Write(r, d) == Sealed(r, Patch(Patch(r.buffer, r.offset, d[..k]), 0, w), w)
  {
    Bounds(r);
    PatchNothing(Patch(r.buffer, r.offset, d[..k]), 0, []);
  }

  lemma SplitPatch<T>(b: seq<T>, at: nat, d: seq<T>, k: nat)
    requires at + |d| <= |b| && k <= |d|
    ensures Patch(b, at, d) == Patch(Patch(b, at, d[..k]), at + k, d[k..])
    ensures k == |d| ==> forall to: nat | to <= |b| :: Patch(b, at, d) == Patch(Patch(b, at, d[..k]), to, [])
  {
    if k == |d| {
      assert d[..k] == d;
      forall to: nat | to <= |b| ensures Patch(b, at, d) == Patch(Patch(b, at, d), to, []) {
        PatchNothing(Patch(b, at, d), to, []);
      }
    }
  }

  // --------------------------------------------------------------- a frame leaves

  lemma UnsealQueue(index: nat, frameSize: nat, q: seq<Task>, used: seq<bool>)
    requires index < FRAME_COUNT && QueueInPlace(index, frameSize, q) && q != []
    requires UsedMatches(index, used, |q|)
    ensures QueueInPlace(index, frameSize, q[1..])
    ensures UsedMatches(index, used[q[0].frame := false], |q| - 1)
  {
    forall f | 0 <= f < FRAME_COUNT
      ensures used[q[0].frame := false][f] == (Behind(index, f) <= |q| - 1)
    {
    }
  }

  lemma UnsealPool(done: seq<bool>, q: seq<Task>)
    requires PoolMatches(done, q) && q != []
    ensures PoolMatches(done[q[0].item := true], q[1..])
  {
    BusySet(done, q[0].item, true);
    var q' := q[1..];
    forall i | 0 <= i < |q'| ensures q'[i].item < MAX_WORKER_ITEM_COUNT && !done[q[0].item := true][q'[i].item] {
      assert q'[i] == q[i + 1];
    }
    forall i, j | 0 <= i < j < |q'| ensures q'[i].item != q'[j].item {
      assert q'[i] == q[i + 1] && q'[j] == q[j + 1];
    }
    forall k | 0 <= k < MAX_WORKER_ITEM_COUNT && !done[q[0].item := true][k] ensures Holds(q', k) {
      var i :| 0 <= i < |q| && q[i].item == k;
      assert q'[i - 1] == q[i];
    }
  }

  lemma WorkValid(r: Ring, written: bool)
    requires Valid(r) && r.queue != []
    ensures Valid(Work(r, written))
  {
    assert TaskShaped(r, r.queue[0]);
    WorkShaped(r, written);
    UnsealQueue(r.index, r.frameSize, r.queue, r.used);
    UnsealPool(r.done, r.queue);
  }

  /** A worker that succeeds moves the oldest frame from the queue to the file and leaves the log
      as it was. One that fails takes exactly that frame out of the log. */
  lemma WorkKeepsLog(r: Ring)
    requires Valid(r) && r.queue != []
    ensures Valid(Work(r, true)) && Log(Work(r, true)) == Log(r)
    ensures Valid(Work(r, false))
    ensures var lost := Slice(r.buffer, r.frameSize, r.queue[0]);
      var rest := Pending(r.buffer, r.frameSize, r.queue[1..]) + Partial(r);
      && |lost| == r.frameSize
      && Log(r) == r.payload + lost + rest
      && Log(Work(r, false)) == r.payload + rest
  {
    assert TaskShaped(r, r.queue[0]);
    FrameBounds(r.queue[0].frame, r.frameSize);
    WorkValid(r, true);
    WorkValid(r, false);
    PendingHead(r.buffer, r.frameSize, r.queue);
    var lost := Slice(r.buffer, r.frameSize, r.queue[0]);
    var rest := Pending(r.buffer, r.frameSize, r.queue[1..]);
    AppendAssoc(r.payload, lost, rest);
    AppendAssoc(r.payload + lost, rest, Partial(r));
    AppendAssoc(r.payload, rest, Partial(r));
  }

  /** Running the whole queue moves all of it into the file and releases its frames. */
  lemma {:induction false} DrainPayload(r: Ring)
    requires Shaped(r)
    ensures Drain(r).payload == r.payload + Pending(r.buffer, r.frameSize, r.queue)
    ensures Drain(r) == r.(payload := Drain(r).payload, used := Drain(r).used, done := Drain(r).done, queue := [])
    ensures |Drain(r).used| == FRAME_COUNT && |Drain(r).done| == MAX_WORKER_ITEM_COUNT
    decreases |r.queue|
  {
    if r.queue == [] {
      assert Slices(r.buffer, r.frameSize, r.queue) == [];
    } else {
      assert TaskShaped(r, r.queue[0]);
      WorkShaped(r, true);
      DrainPayload(Work(r, true));
      PendingHead(r.buffer, r.frameSize, r.queue);
      AppendAssoc(r.payload, Slice(r.buffer, r.frameSize, r.queue[0]), Pending(r.buffer, r.frameSize, r.queue[1..]));
    }
  }

  lemma {:induction false} DrainReleases(r: Ring, f: nat)
    requires Shaped(r) && f < FRAME_COUNT
    requires !r.used[f] || exists i :: 0 <= i < |r.queue| && r.queue[i].frame == f
    ensures Shaped(Drain(r)) && !Drain(r).used[f]
    decreases |r.queue|
  {
    if r.queue != [] {
      assert TaskShaped(r, r.queue[0]);
      WorkShaped(r, true);
      var r' := Work(r, true);
      if r'.used[f] {
        var i :| 0 <= i < |r.queue| && r.queue[i].frame == f;
        assert r'.queue[i - 1].frame == f;
      }
      DrainReleases(r', f);
    }
  }

  lemma {:induction false} DrainSignals(r: Ring, k: nat)
    requires Shaped(r) && k < MAX_WORKER_ITEM_COUNT
    requires r.done[k] || exists i :: 0 <= i < |r.queue| && r.queue[i].item == k
    ensures |Drain(r).done| == MAX_WORKER_ITEM_COUNT && Drain(r).done[k]
    decreases |r.queue|
  {
    if r.queue != [] {
      assert TaskShaped(r, r.queue[0]);
      WorkShaped(r, true);
      var r' := Work(r, true);
      if !r'.done[k] {
        var i :| 0 <= i < |r.queue| && r.queue[i].item == k;
        assert r'.queue[i - 1].item == k;
      }
      DrainSignals(r', k);
    }
  }

  /** WaitAllWorkItems leaves the whole log in the file and no work item queued. */
  lemma WaitAllPayload(r: Ring)
    requires Valid(r)
    ensures WaitAll(r).payload == Log(r)
    ensures WaitAll(r) == r.(payload := Log(r), used := WaitAll(r).used, done := WaitAll(r).done, queue := [])
  {
    SavePartialShaped(r);
    var s := SavePartial(r);
    DrainPayload(s);
    SavePartialPending(r);
    AppendAssoc(r.payload, Pending(r.buffer, r.frameSize, r.queue), Partial(r));
  }

  lemma SavePartialPending(r: Ring)
    requires Valid(r)
    ensures var s := SavePartial(r);
      && s == r.(queue := s.queue, done := s.done)
      && Pending(r.buffer, r.frameSize, s.queue) == Pending(r.buffer, r.frameSize, r.queue) + Partial(r)
  {
    Bounds(r);
    NotAllBusy(r.done);
    var s := SavePartial(r);
    if r.offset > Start(r.index, r.frameSize) {
      var t := Task(FirstDone(r.done), r.index, r.offset - Start(r.index, r.frameSize));
      assert s.queue == r.queue + [t];
      assert Slice(r.buffer, r.frameSize, t) == Partial(r);
      PendingAppend(r.buffer, r.frameSize, r.queue, t);
    } else {
      assert Partial(r) == [];
    }
  }

  /** The state WaitAllWorkItems leaves: everything written, every frame and pool entry free, but
      the position within the current frame kept. */
  lemma WaitAllIdle(r: Ring)
    requires Valid(r)
    ensures Valid(WaitAll(r)) && WaitAll(r).queue == []
    ensures Log(WaitAll(r)) == Log(r) + Partial(r)
  {
    SavePartialShaped(r);
    var s := SavePartial(r);
    var w := WaitAll(r);
    WaitAllPayload(r);
    DrainPayload(s);
    NotAllBusy(r.done);
    forall f | 0 <= f < FRAME_COUNT ensures !w.used[f] {
      if r.used[f] {
        QueuedAt(r.index, r.frameSize, r.queue, f);
        var i := |r.queue| - Behind(r.index, f);
        assert s.queue[i] == r.queue[i];
      }
      DrainReleases(s, f);
    }
    forall k | 0 <= k < MAX_WORKER_ITEM_COUNT ensures w.done[k] {
      if !s.done[k] {
        HeldAfterSave(r, k);
      }
      DrainSignals(s, k);
    }
    AllDone(w.done);
    assert Slices(w.buffer, w.frameSize, []) == [];
    assert w.payload + [] == w.payload;
  }

  lemma HeldAfterSave(r: Ring, k: nat)
    requires Valid(r) && k < MAX_WORKER_ITEM_COUNT && |SavePartial(r).done| == |r.done| && !SavePartial(r).done[k]
    ensures Holds(SavePartial(r).queue, k)
  {
    var s := SavePartial(r);
    if r.done[k] {
      assert s.queue[|r.queue|].item == k;
    } else {
      var i :| 0 <= i < |r.queue| && r.queue[i].item == k;
      assert s.queue[i] == r.queue[i];
    }
  }

  lemma {:induction false} AllDone(done: seq<bool>)
    requires forall k :: 0 <= k < |done| ==> done[k]
    ensures Busy(done) == 0
  {
    if done != [] {
      AllDone(done[1..]);
    }
  }

  /** Where in the queue a used frame sits. */
  lemma QueuedAt(index: nat, frameSize: nat, q: seq<Task>, f: nat)
    requires index < FRAME_COUNT && f < FRAME_COUNT
    requires QueueInPlace(index, frameSize, q) && Behind(index, f) <= |q|
    ensures q[|q| - Behind(index, f)].frame == f
  {
    var i := |q| - Behind(index, f);
    assert Behind(index, q[i].frame) == Behind(index, f);
  }

  /** Stopping a second time without new data writes the unfinished frame again: the file stays
      as it was exactly when the current frame is empty. */
  lemma WaitAllTwice(r: Ring)
    requires Valid(r)
    ensures WaitAll(r).payload == Log(r)
    ensures Shaped(WaitAll(r))
    ensures WaitAll(WaitAll(r)).payload == Log(r) + Partial(r)
    ensures WaitAll(WaitAll(r)).payload == WaitAll(r).payload <==> r.offset == Start(r.index, r.frameSize)
  {
    WaitAllIdle(r);
    WaitAllPayload(r);
    WaitAllPayload(WaitAll(r));
    Bounds(r);
    assert |Partial(r)| == r.offset - Start(r.index, r.frameSize);
    assert |Log(r) + Partial(r)| == |Log(r)| + |Partial(r)|;
    assert Partial(r) == [] ==> Log(r) + Partial(r) == Log(r);
  }

  /** The pool of fifteen never runs out: at most the four frames are queued, and each write or stop finds
      a free work item. */
  lemma PoolSuffices(r: Ring)
    requires Valid(r)
    ensures |r.done| == 15 && Busy(r.done) == |r.queue| <= 4
    ensures FirstDone(r.done) < 15 && r.done[FirstDone(r.done)]
  {
    NotAllBusy(r.done);
  }

  // ------------------------------------------------------------------- overruns

  /** For a given length the log is right whatever the bytes are, exactly when the write does not
      run into a frame that is still queued. */
  lemma WriteAppendsIff(r: Ring, count: nat)
    requires Valid(r) && 0 < count
    ensures (forall data: seq<byte> | |data| == count ::
               Shaped(Write(r, data)) && Log(Write(r, data)) == Log(r) + Accepted(r, data))
            <==> !Overruns(r, count)
  {
    if Overruns(r, count) {
      var data := OverrunWitness(r, count);
      assert |data| == count;
    } else {
      forall data: seq<byte> | |data| == count
        ensures Shaped(Write(r, data)) && Log(Write(r, data)) == Log(r) + Accepted(r, data)
      {
        WriteAppends(r, data);
      }
    }
  }

  /** Bytes of the given length whose write changes a byte already in the log. */
  lemma OverrunWitness(r: Ring, count: nat) returns (data: seq<byte>)
    requires Valid(r) && Overruns(r, count)
    ensures |data| == count && Shaped(Write(r, data))
    ensures !(Log(r) <= Log(Write(r, data)))
  {
    Bounds(r);
    var before := r.buffer[Start(r.index + 1, r.frameSize)];
    data := seq(count, i => if before == 0 then 1 else 0);
    WriteShaped(r, data);
    OldestIsNext(r);
    OverrunHitsOldest(r, data);
    var r' := Write(r, data);
    FirstOfLog(r);
    FirstOfLog(r');
    assert Log(r')[|r.payload|] != Log(r)[|r.payload|];
  }

  /** The log byte just behind the file's is the first byte of the oldest queued frame. */
  lemma FirstOfLog(r: Ring)
    requires Shaped(r) && r.queue != [] && 0 < r.queue[0].size
    ensures |r.payload| < |Log(r)| && Start(r.queue[0].frame, r.frameSize) < |r.buffer|
    ensures Log(r)[|r.payload|] == r.buffer[Start(r.queue[0].frame, r.frameSize)]
  {
    assert TaskShaped(r, r.queue[0]);
    FrameBounds(r.queue[0].frame, r.frameSize);
    PendingHead(r.buffer, r.frameSize, r.queue);
  }

  lemma OldestIsNext(r: Ring)
    requires Valid(r) && !r.used[r.index] && r.index + 1 < FRAME_COUNT && r.used[r.index + 1]
    ensures |r.queue| == FRAME_COUNT - 1
    ensures r.queue[0].frame == r.index + 1 && r.queue[0].size == r.frameSize
  {
    assert Behind(r.index, r.index + 1) == FRAME_COUNT - 1 && Behind(r.index, r.index) == FRAME_COUNT;
    QueuedAt(r.index, r.frameSize, r.queue, r.index + 1);
  }

  lemma OverrunHitsOldest(r: Ring, data: seq<byte>)
    requires Valid(r) && Overruns(r, |data|)
    requires r.queue != [] && r.queue[0].frame == r.index + 1 && r.queue[0].size == r.frameSize
    ensures Write(r, data).payload == r.payload
    ensures r.queue <= Write(r, data).queue
    ensures var lo := Start(r.index + 1, r.frameSize);
      && |Write(r, data).buffer| == |r.buffer| && lo < |r.buffer|
      && lo - r.offset < |Clamped(r, data)|
      && Write(r, data).buffer[lo] == Clamped(r, data)[lo - r.offset]
  {
    Bounds(r);
    var d := Clamped(r, data);
    var n := Min(|r.buffer| - r.offset, |d|);
    assert n == |d| && d[..n] == d && d[n..] == [];
    assert Write(r, data).buffer == Patch(r.buffer, r.offset, d);
  }

  // ----------------------------------------------------------------------- runs

  datatype Op = WriteOp(data: seq<byte>) | WorkOp(written: bool)

  /** One event: the stream writes, or the oldest work item runs and its file write succeeds or
      fails. */
  function Step(r: Ring, op: Op): (r': Ring)
    requires Shaped(r)
    ensures Shaped(r')
  {
    match op
    case WriteOp(data) => WriteShaped(r, data); Write(r, data)
    case WorkOp(written) => if r.queue == [] then r else WorkShaped(r, written); Work(r, written)
  }

  function Run(r: Ring, ops: seq<Op>): (r': Ring)
    requires Shaped(r)
    ensures Shaped(r')
    decreases |ops|
  {
    if ops == [] then r else Run(Step(r, ops[0]), ops[1..])
  }

  function AcceptedIn(r: Ring, ops: seq<Op>): seq<byte>
    requires Shaped(r)
    decreases |ops|
  {
    if ops == [] then []
    else (if ops[0].WriteOp? then Accepted(r, ops[0].data) else []) + AcceptedIn(Step(r, ops[0]), ops[1..])
  }

  ghost predicate NoOverrun(r: Ring, ops: seq<Op>)
    requires Shaped(r)
    decreases |ops|
  {
    ops == [] || ((ops[0].WriteOp? ==> !Overruns(r, |ops[0].data|)) && NoOverrun(Step(r, ops[0]), ops[1..]))
  }

  function Offered(ops: seq<Op>): seq<byte> {
    if ops == [] then []
    else (if ops[0].WriteOp? then ops[0].data else []) + Offered(ops[1..])
  }

  function Initial(frameSize: nat): Ring {
    Ring(frameSize, seq(Start(FRAME_COUNT, frameSize), i => 0), 0, 0,
         [false, false, false, false], seq(MAX_WORKER_ITEM_COUNT, i => true), [], [], false)
  }

  lemma InitialValid(frameSize: nat)
    requires 0 < frameSize
    ensures Valid(Initial(frameSize)) && Log(Initial(frameSize)) == []
  {
    AllDone(Initial(frameSize).done);
    assert Slices(Initial(frameSize).buffer, frameSize, []) == [];
  }

  /** Whether each work item that ran wrote its frame, in order. */
  function Outcomes(r: Ring, ops: seq<Op>): seq<bool>
    requires Shaped(r)
    decreases |ops|
  {
    if ops == [] then []
    else (if ops[0].WorkOp? && r.queue != [] then [ops[0].written] else []) + Outcomes(Step(r, ops[0]), ops[1..])
  }

  /** The frames at the front of a stream of bytes whose writes succeeded. */
  function Kept(stream: seq<byte>, frameSize: nat, outcomes: seq<bool>): seq<byte>
    requires Start(|outcomes|, frameSize) <= |stream|
    decreases |outcomes|
  {
    if outcomes == [] then []
    else (if outcomes[0] then stream[..frameSize] else []) + Kept(stream[frameSize..], frameSize, outcomes[1..])
  }

  /** The stream without the frames whose writes failed. */
  function Surviving(stream: seq<byte>, frameSize: nat, outcomes: seq<bool>): seq<byte>
    requires Start(|outcomes|, frameSize) <= |stream|
  {
    Kept(stream, frameSize, outcomes) + stream[Start(|outcomes|, frameSize)..]
  }

  function Failures(outcomes: seq<bool>): nat {
    if outcomes == [] then 0 else (if outcomes[0] then 0 else 1) + Failures(outcomes[1..])
  }

  lemma {:induction false} KeptLength(stream: seq<byte>, frameSize: nat, outcomes: seq<bool>)
    requires Start(|outcomes|, frameSize) <= |stream|
    ensures |Kept(stream, frameSize, outcomes)| + Start(Failures(outcomes), frameSize) == Start(|outcomes|, frameSize)
    decreases |outcomes|
  {
    if outcomes != [] {
      KeptLength(stream[frameSize..], frameSize, outcomes[1..]);
    }
  }

  lemma {:induction false} KeptWhole(stream: seq<byte>, frameSize: nat, outcomes: seq<bool>)
    requires Start(|outcomes|, frameSize) <= |stream| && Failures(outcomes) == 0
    ensures Kept(stream, frameSize, outcomes) == stream[..Start(|outcomes|, frameSize)]
    decreases |outcomes|
  {
    if outcomes != [] {
      KeptWhole(stream[frameSize..], frameSize, outcomes[1..]);
      FrontOfTail(stream, frameSize, Start(|outcomes| - 1, frameSize));
    }
  }

  lemma FrontOfTail<T>(s: seq<T>, d: nat, k: nat)
    requires d + k <= |s|
    ensures s[..d] + s[d..][..k] == s[..d + k]
  {
  }

  lemma SurvivingLength(stream: seq<byte>, frameSize: nat, outcomes: seq<bool>)
    requires Start(|outcomes|, frameSize) <= |stream|
    ensures |Surviving(stream, frameSize, outcomes)| == |stream| - Start(Failures(outcomes), frameSize)
    ensures Failures(outcomes) == 0 ==> Surviving(stream, frameSize, outcomes) == stream
  {
    KeptLength(stream, frameSize, outcomes);
    if Failures(outcomes) == 0 {
      KeptWhole(stream, frameSize, outcomes);
      Halves(stream, Start(|outcomes|, frameSize));
    }
  }

  lemma Halves<T>(s: seq<T>, k: nat)
    requires k <= |s|
    ensures s[..k] + s[k..] == s
  {
  }

  /** What a worker does to the bytes in memory: the first frame leaves them, for the file or not. */
  lemma WorkTakesFrame(r: Ring, written: bool)
    requires Valid(r) && r.queue != []
    ensures Valid(Work(r, written)) && r.frameSize <= |Unwritten(r)|
    ensures Unwritten(Work(r, written)) == Unwritten(r)[r.frameSize..]
    ensures Work(r, written).payload == if written then r.payload + Unwritten(r)[..r.frameSize] else r.payload
  {
    assert TaskShaped(r, r.queue[0]);
    FrameBounds(r.queue[0].frame, r.frameSize);
    WorkValid(r, written);
    PendingHead(r.buffer, r.frameSize, r.queue);
    var first := Slice(r.buffer, r.frameSize, r.queue[0]);
    AppendAssoc(first, Pending(r.buffer, r.frameSize, r.queue[1..]), Partial(r));
    assert |first| == r.frameSize;
  }

  lemma WriteExtends(r: Ring, data: seq<byte>)
    requires Valid(r) && !Overruns(r, |data|)
    ensures Valid(Write(r, data)) && Write(r, data).payload == r.payload && Write(r, data).frameSize == r.frameSize
    ensures Unwritten(Write(r, data)) == Unwritten(r) + Accepted(r, data)
  {
    WriteAppends(r, data);
    WriteLeavesFile(r, data);
    var w := Write(r, data);
    LogIs(r);
    LogIs(w);
    AppendAssoc(r.payload, Unwritten(r), Accepted(r, data));
    SameTail(r.payload, Unwritten(w), Unwritten(r) + Accepted(r, data));
  }

  lemma LogIs(r: Ring)
    requires Shaped(r)
    ensures Log(r) == r.payload + Unwritten(r)
  {
    AppendAssoc(r.payload, Pending(r.buffer, r.frameSize, r.queue), Partial(r));
  }

  lemma WriteLeavesFile(r: Ring, data: seq<byte>)
    requires Shaped(r)
    ensures Write(r, data).payload == r.payload && Write(r, data).frameSize == r.frameSize
  {
  }

  lemma SameTail<T>(a: seq<T>, b: seq<T>, c: seq<T>)
    requires a + b == a + c
    ensures b == c
  {
    assert b == (a + b)[|a|..] && c == (a + c)[|a|..];
  }

  /** A run has taken frames off the stream of the bytes in memory and those accepted on the way. */
  ghost predicate Refines(r: Ring, ops: seq<Op>)
    requires Shaped(r)
  {
    var stream, outcomes := Unwritten(r) + AcceptedIn(r, ops), Outcomes(r, ops);
    && Valid(Run(r, ops)) && Start(|outcomes|, r.frameSize) <= |stream|
    && Run(r, ops).payload == r.payload + Kept(stream, r.frameSize, outcomes)
    && Unwritten(Run(r, ops)) == stream[Start(|outcomes|, r.frameSize)..]
  }

  lemma WriteRefines(r: Ring, ops: seq<Op>)
    requires Valid(r) && ops != [] && ops[0].WriteOp? && !Overruns(r, |ops[0].data|) && Refines(Step(r, ops[0]), ops[1..])
    ensures Refines(r, ops)
  {
    var r', rest := Step(r, ops[0]), ops[1..];
    WriteExtends(r, ops[0].data);
    AppendAssoc(Unwritten(r), Accepted(r, ops[0].data), AcceptedIn(r', rest));
    assert Outcomes(r, ops) == Outcomes(r', rest);
  }

  lemma WorkRefines(r: Ring, ops: seq<Op>)
    requires Valid(r) && ops != [] && ops[0].WorkOp? && r.queue != [] && Refines(Step(r, ops[0]), ops[1..])
    ensures Refines(r, ops)
  {
    var r', rest := Step(r, ops[0]), ops[1..];
    var accepted, outcomes := AcceptedIn(r', rest), Outcomes(r, ops);
    assert AcceptedIn(r, ops) == accepted && outcomes[0] == ops[0].written && outcomes[1..] == Outcomes(r', rest);
    WorkTakesFrame(r, ops[0].written);
    NextFrame(Unwritten(r), accepted, r.frameSize, r.payload, outcomes);
    assert Run(r, ops) == Run(r', rest);
  }

  lemma IdleRefines(r: Ring, ops: seq<Op>)
    requires Shaped(r) && ops != [] && ops[0].WorkOp? && r.queue == [] && Refines(r, ops[1..])
    ensures Refines(r, ops)
  {
    assert AcceptedIn(r, ops) == AcceptedIn(r, ops[1..]) && Outcomes(r, ops) == Outcomes(r, ops[1..]);
  }

  /** Over any interleaving of writes and workers without an overrun the ring is a queue of bytes:
      each worker takes the next frame of what was accepted, for the file or, if the file does not
      take it, for nobody; the rest is still in memory. */
  lemma {:induction false} RunRefinesLog(r: Ring, ops: seq<Op>)
    requires Valid(r) && NoOverrun(r, ops)
    ensures Refines(r, ops)
    decreases |ops|
  {
    if ops == [] {
      assert Unwritten(r) + [] == Unwritten(r) && r.payload + [] == r.payload;
    } else {
      var r', rest := Step(r, ops[0]), ops[1..];
      if ops[0].WriteOp? {
        WriteAppends(r, ops[0].data);
        RunRefinesLog(r', rest);
        WriteRefines(r, ops);
      } else if r.queue != [] {
        WorkValid(r, ops[0].written);
        RunRefinesLog(r', rest);
        WorkRefines(r, ops);
      } else {
        RunRefinesLog(r', rest);
        IdleRefines(r, ops);
      }
    }
  }

  lemma NextFrame(unwritten: seq<byte>, more: seq<byte>, frameSize: nat, payload: seq<byte>, outcomes: seq<bool>)
    requires frameSize <= |unwritten| && outcomes != []
    requires Start(|outcomes| - 1, frameSize) <= |unwritten[frameSize..] + more|
    ensures Start(|outcomes|, frameSize) <= |unwritten + more|
    ensures payload + Kept(unwritten + more, frameSize, outcomes)
         == (if outcomes[0] then payload + unwritten[..frameSize] else payload)
            + Kept(unwritten[frameSize..] + more, frameSize, outcomes[1..])
    ensures (unwritten + more)[Start(|outcomes|, frameSize)..]
         == (unwritten[frameSize..] + more)[Start(|outcomes| - 1, frameSize)..]
  {
    SplitTail(unwritten, more, frameSize);
    var rest, n := unwritten[frameSize..] + more, Start(|outcomes| - 1, frameSize);
    AppendAssoc(payload, unwritten[..frameSize], Kept(rest, frameSize, outcomes[1..]));
    TailOfTail(unwritten + more, frameSize, n);
  }

  /** From a new stream to WaitAllWorkItems: the file's payload is the accepted bytes without the
      frames whose writes failed, however the bytes were split into writes and the workers
      scheduled; it is all of them if and only if no write failed. */
  lemma StoppedFileHoldsLog(frameSize: nat, ops: seq<Op>)
    requires 0 < frameSize && NoOverrun(Initial(frameSize), ops)
    ensures var accepted, outcomes := AcceptedIn(Initial(frameSize), ops), Outcomes(Initial(frameSize), ops);
      var file := WaitAll(Run(Initial(frameSize), ops)).payload;
      && Start(|outcomes|, frameSize) <= |accepted|
      && file == Surviving(accepted, frameSize, outcomes)
      && |file| == |accepted| - Start(Failures(outcomes), frameSize)
      && (file == accepted <==> Failures(outcomes) == 0)
  {
    var r := Initial(frameSize);
    var accepted, outcomes := AcceptedIn(r, ops), Outcomes(r, ops);
    InitialValid(frameSize);
    RunRefinesLog(r, ops);
    assert Unwritten(r) == [] && [] + accepted == accepted && [] + Kept(accepted, frameSize, outcomes) == Kept(accepted, frameSize, outcomes);
    var end := Run(r, ops);
    WaitAllPayload(end);
    LogIs(end);
    SurvivingLength(accepted, frameSize, outcomes);
    if Failures(outcomes) > 0 {
      StartMono(1, Failures(outcomes), frameSize);
    }
  }

  // -------------------------------------------------------------- a run into an overrun

  /** A whole frame, written to an empty one, is queued. */
  lemma FullWrite(r: Ring, data: seq<byte>)
    requires Valid(r) && !r.disabled && !r.used[r.index] && r.offset == Start(r.index, r.frameSize) && |data| == r.frameSize
    ensures !Overruns(r, |data|) && Valid(Write(r, data))
    ensures var w := Write(r, data);
      && w.index == Next(r.index) && w.offset == Start(w.index, r.frameSize) && |w.queue| == |r.queue| + 1
      && w.frameSize == r.frameSize && !w.disabled
  {
    WriteAppends(r, data);
    WriteIsSealed(r, data, r.frameSize);
    NotAllBusy(r.done);
  }

  lemma Follow(r: Ring, op: Op, ops: seq<Op>)
    requires Shaped(r) && (op.WriteOp? ==> !Overruns(r, |op.data|)) && NoOverrun(Step(r, op), ops)
    ensures NoOverrun(r, [op] + ops) && Run(r, [op] + ops) == Run(Step(r, op), ops)
  {
    assert ([op] + ops)[1..] == ops;
  }

  /** Four frames written, one of them taken by a worker, and a byte into it: the next write of a
      frame runs into the second one, which is still queued. */
  lemma OverrunExample(frame: seq<byte>, b: byte)
    requires 2 <= |frame|
    ensures var full := WriteOp(frame);
      var ops := [full] + ([full] + ([full] + ([full] + [WorkOp(true), WriteOp([b])])));
      NoOverrun(Initial(|frame|), ops) && Overruns(Run(Initial(|frame|), ops), |frame|)
  {
    var full, last, r := WriteOp(frame), [WorkOp(true), WriteOp([b])], Initial(|frame|);
    InitialValid(|frame|);
    FullWrite(r, frame);
    var r1 := Write(r, frame);
    FullWrite(r1, frame);
    var r2 := Write(r1, frame);
    FullWrite(r2, frame);
    var r3 := Write(r2, frame);
    FullWrite(r3, frame);
    IntoTheNext(Write(r3, frame), b);
    Follow(r3, full, last);
    Follow(r2, full, [full] + last);
    Follow(r1, full, [full] + ([full] + last));
    Follow(r, full, [full] + ([full] + ([full] + last)));
  }

  lemma IntoTheNext(r: Ring, b: byte)
    requires Valid(r) && r.index == r.offset == 0 && |r.queue| == FRAME_COUNT && 2 <= r.frameSize && !r.disabled
    ensures var last := [WorkOp(true), WriteOp([b])];
      NoOverrun(r, last) && Overruns(Run(r, last), r.frameSize)
  {
    var r1 := Work(r, true);
    WorkTakesFrame(r, true);
    Bounds(r1);
    assert Behind(0, 0) == 4 && Behind(0, 1) == 3;
    WriteWhole(r1, [b]);
    var one := [WriteOp([b])];
    assert one == [WriteOp([b])] + [];
    Follow(r1, WriteOp([b]), []);
    Follow(r, WorkOp(true), one);
    assert [WorkOp(true)] + one == [WorkOp(true), WriteOp([b])];
  }
}
