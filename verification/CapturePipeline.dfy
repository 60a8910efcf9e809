/** The capture pipeline of avstream/avshws on the 64-bit path as a value: the pin's stream
    pointers, the scatter/gather list of the simulated hardware and the device's running totals. */
module CapturePipeline {
  import opened Words

  /** A frame in the pin's queue: its name, OffsetOut.Remaining, and whether it carries data. */
  datatype Frame = Frame(name: nat, bytes: nat, hasData: bool)

  /** SCATTER_GATHER_ENTRY; `frame` names the frame of its clone. */
  datatype Entry = Entry(frame: nat, byteCount: nat)

  datatype Clone = Clone(frame: nat, remaining: nat, dataUsed: nat)

  datatype Pipe = Pipe(
    // the pin
    frames: seq<Frame>,       // from the leading edge on
    advancing: bool,          // the leading frame is programmed but not advanced past yet
    clones: seq<Clone>,
    previous: bool,           // m_PreviousStreamPointer is set; it means the last clone
    frameNumber: nat,
    // the device
    last: nat,                // m_LastMappingsCompleted
    // the hardware
    list: seq<Entry>,
    queued: nat,
    bytesQueued: nat,
    completed: nat,           // m_NumMappingsCompleted
    skipped: nat,             // m_NumFramesSkipped
    // history since Start
    programmed: seq<nat>,     // names in the order they were programmed
    delivered: seq<nat>,      // names in the order their clones were deleted by a completion
    total: nat,               // mappings completed
    lastTotal: nat)           // the same at the last interrupt

  // ----------------------------------------------------------------------- steps

  /** CHardwareSimulation::Start and the counters CCaptureDevice::Start resets. The count of
      queued bytes is left as it is. */
  function Start(s: Pipe): Pipe {
    s.(last := 0, list := [], queued := 0, completed := 0, skipped := 0,
       programmed := [], delivered := [], total := 0, lastTotal := 0)
  }

  /** CHardwareSimulation::Stop: the list is emptied. */
  function Stop(s: Pipe): Pipe {
    s.(list := [], queued := 0, completed := 0, bytesQueued := 0)
  }

  /** CCapturePin::CleanupReferences: every clone goes, the previous pointer stays. */
  function Cleanup(s: Pipe): Pipe {
    s.(clones := [])
  }

  /** Process up to and including ProgramScatterGatherMappings for the leading frame. */
  function Program(s: Pipe, cloneOk: bool, allocOk: bool): Pipe
    requires s.frames != []
  {
    var f := s.frames[0];
    if !f.hasData then s.(frames := s.frames[1..])
    else if !s.previous && !cloneOk then s
    else
      var clones := if s.previous then s.clones else s.clones + [Clone(f.name, f.bytes, 0)];
      if allocOk then
        s.(clones := clones, previous := false, advancing := f.bytes > 0,
           list := s.list + [Entry(f.name, f.bytes)], queued := s.queued + 1,
           bytesQueued := U32(s.bytesQueued + f.bytes), programmed := s.programmed + [f.name])
      else s.(clones := clones, previous := f.bytes != 0)
  }

  /** KsStreamPointerAdvanceOffsets on the leading edge; AVStream accounts the bytes to the frame. */
  function Advance(s: Pipe): Pipe
    requires s.frames != []
  {
    s.(frames := s.frames[1..], advancing := false,
       clones := Account(s.clones, s.frames[0].name, s.frames[0].bytes))
  }

  function Account(clones: seq<Clone>, name: nat, bytes: nat): (r: seq<Clone>)
    ensures |r| == |clones|
    ensures forall i :: 0 <= i < |r| ==> r[i] == AccountOne(clones[i], name, bytes)
  {
    if clones == [] then [] else [AccountOne(clones[0], name, bytes)] + Account(clones[1..], name, bytes)
  }

  function AccountOne(c: Clone, name: nat, bytes: nat): Clone {
    if c.frame == name then c.(dataUsed := c.dataUsed + bytes) else c
  }

  /** Whether Process goes on behind the leading frame: it has no data, or all of it is programmed. */
  function GoesOn(s: Pipe, cloneOk: bool, allocOk: bool): bool
    requires s.frames != []
  {
    !s.frames[0].hasData || ((s.previous || cloneOk) && allocOk && s.frames[0].bytes > 0)
  }

  function Passed(s: Pipe, cloneOk: bool, allocOk: bool): Pipe
    requires s.frames != [] && GoesOn(s, cloneOk, allocOk)
  {
    var s1 := Program(s, cloneOk, allocOk);
    if s.frames[0].hasData then Advance(s1) else s1
  }

  /** Process: frames are programmed and advanced past until none is left or one cannot be
      programmed; `env` tells for each frame whether its clone and its list entry succeed. */
  function Process(s: Pipe, env: seq<(bool, bool)>): Pipe
    requires |env| >= |s.frames|
    decreases |s.frames|
  {
    if s.frames == [] then s else
    var (cloneOk, allocOk) := env[0];
    if GoesOn(s, cloneOk, allocOk) then Process(Passed(s, cloneOk, allocOk), env[1..]) else Program(s, cloneOk, allocOk)
  }

  datatype Filled = Filled(list: seq<Entry>, bytesQueued: nat, count: nat, remaining: nat)

  /** The loop of FillScatterGatherBuffers; `rows` is what one pass copies, Height rows of it. */
  function FillLoop(list: seq<Entry>, bytesQueued: nat, remaining: nat, rows: nat): Filled {
    if remaining > 0 && list != [] && bytesQueued >= remaining then
      var r := FillLoop(list[1..], U32(bytesQueued - list[0].byteCount), U32(remaining - rows), rows);
      r.(count := r.count + 1)
    else Filled(list, bytesQueued, 0, remaining)
  }

  /** FakeHardware up to the interrupt: a frame that cannot be placed is counted as skipped. */
  function Fill(s: Pipe, imageSize: nat, rows: nat): Pipe {
    var r := FillLoop(s.list, s.bytesQueued, imageSize, rows);
    s.(list := r.list, queued := |r.list|, bytesQueued := r.bytesQueued,
       completed := U32(s.completed + r.count), total := s.total + r.count,
       skipped := if r.remaining > 0 then U32(s.skipped + 1) else s.skipped)
  }

  /** CompleteMappings: how many clones go, and what is left of the others. */
  function CompleteLoop(clones: seq<Clone>, n: nat): (seq<Clone>, nat) {
    if n == 0 || clones == [] then (clones, 0)
    else
      var c := clones[0];
      if c.dataUsed >= c.remaining then
        var r := CompleteLoop(clones[1..], n - 1);
        (r.0, r.1 + 1)
      else ([c.(remaining := c.remaining - c.dataUsed)] + clones[1..], 0)
  }

  /** CCaptureDevice::Interrupt: the difference of the two totals, in 32 bits. */
  function Delta(s: Pipe): nat {
    U32(s.completed - s.last)
  }

  function Interrupt(s: Pipe): Pipe {
    var r := CompleteLoop(s.clones, Delta(s));
    CompleteLoopBound(s.clones, Delta(s));
    s.(clones := r.0, frameNumber := s.frameNumber + r.1, last := s.completed, lastTotal := s.total,
       delivered := s.delivered + Names(s.clones)[..r.1])
  }

  function Names(clones: seq<Clone>): (r: seq<nat>)
    ensures |r| == |clones|
  {
    seq(|clones|, i requires 0 <= i < |clones| => clones[i].frame)
  }

  function EntryNames(list: seq<Entry>): (r: seq<nat>)
    ensures |r| == |list|
  {
    seq(|list|, i requires 0 <= i < |list| => list[i].frame)
  }

  function SumBytes(list: seq<Entry>): nat {
    if list == [] then 0 else list[0].byteCount + SumBytes(list[1..])
  }

  /** A clone as it was, or advanced by the bytes it has used. */
  ghost predicate Shrunk(c: Clone, c': Clone) {
    c' == c || (c.dataUsed < c.remaining && c' == c.(remaining := c.remaining - c.dataUsed))
  }

  lemma {:induction false} CompleteLoopBound(clones: seq<Clone>, n: nat)
    ensures CompleteLoop(clones, n).1 <= |clones| && CompleteLoop(clones, n).1 <= n
    ensures Names(CompleteLoop(clones, n).0) == Names(clones)[CompleteLoop(clones, n).1..]
    ensures forall i :: 0 <= i < CompleteLoop(clones, n).1 ==> clones[i].dataUsed >= clones[i].remaining
    ensures var r := CompleteLoop(clones, n);
      r.1 < n && r.1 < |clones| ==> clones[r.1].dataUsed < clones[r.1].remaining
  {
    if n > 0 && clones != [] && clones[0].dataUsed >= clones[0].remaining {
      CompleteLoopBound(clones[1..], n - 1);
      assert Names(clones)[1..] == Names(clones[1..]);
    }
  }

  ghost predicate AllShrunk(before: seq<Clone>, after: seq<Clone>) {
    |before| == |after| && forall i :: 0 <= i < |after| ==> Shrunk(before[i], after[i])
  }

  lemma {:induction false} CompleteLoopShrinks(clones: seq<Clone>, n: nat)
    ensures var r := CompleteLoop(clones, n); r.1 <= |clones| && AllShrunk(clones[r.1..], r.0)
  {
    if n > 0 && clones != [] && clones[0].dataUsed >= clones[0].remaining {
      CompleteLoopShrinks(clones[1..], n - 1);
      var k := CompleteLoop(clones[1..], n - 1).1;
      assert clones[1..][k..] == clones[k + 1..];
    }
  }

  // ------------------------------------------------------------------- the invariant

  /** Conservation: nothing programmed is lost, and the counters say what is there. */
  ghost predicate Conserved(s: Pipe) {
    && s.queued == |s.list| < TWO_32
    && s.bytesQueued == U32(SumBytes(s.list))
    && s.total <= |s.programmed| && EntryNames(s.list) == s.programmed[s.total..]
    && s.lastTotal <= s.total < s.lastTotal + TWO_32
    && s.completed == U32(s.total) && s.last == U32(s.lastTotal)
  }

  /** Order: frames are delivered in programming order, never before they are complete, and the
      live clones are the rest plus at most the one pending clone. */
  ghost predicate Ordered(s: Pipe) {
    && |s.delivered| <= s.lastTotal <= |s.programmed|
    && s.delivered == s.programmed[..|s.delivered|]
    && (s.previous || s.advancing ==> s.frames != [] && s.frames[0].hasData && s.frames[0].bytes > 0)
    && Names(s.clones) == s.programmed[|s.delivered|..] + PendingNames(s)
  }

  function PendingNames(s: Pipe): seq<nat> {
    if s.previous && s.frames != [] then [s.frames[0].name] else []
  }

  /** Every clone but the one at the leading edge has its bytes accounted. */
  ghost predicate Accounted(s: Pipe) {
    && !(s.previous && s.advancing)
    && (forall i :: 0 <= i < |s.clones| && s.clones[i].dataUsed < s.clones[i].remaining ==>
          i == |s.clones| - 1 && (s.previous || s.advancing))
    && (s.previous || s.advancing ==>
          s.clones != [] && s.frames != [] && AtLeadingEdge(s.clones[|s.clones| - 1], s.frames[0]))
  }

  ghost predicate AtLeadingEdge(c: Clone, f: Frame) {
    c.frame == f.name && c.remaining == f.bytes && c.dataUsed == 0 < f.bytes
  }

  ghost predicate Inv(s: Pipe) {
    Conserved(s) && Ordered(s) && Accounted(s)
  }

  /** No clone is held and nothing is queued: where Start finds the pipeline after a Stop. */
  ghost predicate Quiet(s: Pipe) {
    s.clones == [] && !s.previous && !s.advancing && s.bytesQueued == 0
  }

  lemma StartInv(s: Pipe)
    requires Quiet(s)
    ensures Inv(Start(s))
  {
  }

  // ------------------------------------------------------------------ programming

  /** The one event that breaks the correspondence: a new clone of a frame with nothing left in
      it, for which no list entry can be allocated, is neither queued nor remembered. */
  ghost predicate Orphans(s: Pipe, cloneOk: bool, allocOk: bool)
    requires s.frames != []
  {
    s.frames[0].hasData && s.frames[0].bytes == 0 && !s.previous && cloneOk && !allocOk
  }

  lemma {:induction false} SumAppend(list: seq<Entry>, e: Entry)
    ensures SumBytes(list + [e]) == SumBytes(list) + e.byteCount
  {
    if list == [] {
      assert list + [e] == [e] && [e][1..] == [];
    } else {
      assert (list + [e])[1..] == list[1..] + [e];
      SumAppend(list[1..], e);
    }
  }

  lemma ProgramConserved(s: Pipe, cloneOk: bool, allocOk: bool)
    requires s.frames != [] && Conserved(s) && |s.list| + 1 < TWO_32
    ensures Conserved(Program(s, cloneOk, allocOk))
  {
    var f := s.frames[0];
    var e := Entry(f.name, f.bytes);
    SumAppend(s.list, e);
    U32Add(SumBytes(s.list), f.bytes);
    assert EntryNames(s.list + [e]) == EntryNames(s.list) + [f.name];
    assert (s.programmed + [f.name])[s.total..] == s.programmed[s.total..] + [f.name];
  }

  lemma AppendTail<T>(s: seq<T>, x: T, d: nat)
    requires d <= |s|
    ensures (s + [x])[d..] == s[d..] + [x] && (s + [x])[..d] == s[..d]
  {
  }

  lemma NamesAppend(clones: seq<Clone>, c: Clone)
    ensures Names(clones + [c]) == Names(clones) + [c.frame]
  {
  }

  lemma ProgramOrdered(s: Pipe, cloneOk: bool, allocOk: bool)
    requires s.frames != [] && !s.advancing && Ordered(s) && Accounted(s) && !Orphans(s, cloneOk, allocOk)
    ensures Ordered(Program(s, cloneOk, allocOk))
  {
    var f := s.frames[0];
    if f.hasData && (s.previous || cloneOk) {
      NamesAppend(s.clones, Clone(f.name, f.bytes, 0));
      AppendTail(s.programmed, f.name, |s.delivered|);
    }
  }

  lemma ProgramAccounted(s: Pipe, cloneOk: bool, allocOk: bool)
    requires s.frames != [] && !s.advancing && Accounted(s) && Ordered(s) && !Orphans(s, cloneOk, allocOk)
    ensures Accounted(Program(s, cloneOk, allocOk))
  {
  }

  lemma AdvanceKeeps(s: Pipe)
    requires Inv(s) && s.advancing
    ensures s.frames != [] && Inv(Advance(s))
  {
    assert Names(Advance(s).clones) == Names(s.clones);
  }

  /** One pass of Process keeps the invariant if and only if it leaves no orphan. */
  lemma ProgramKeepsIff(s: Pipe, cloneOk: bool, allocOk: bool)
    requires Inv(s) && s.frames != [] && !s.advancing && |s.list| + 1 < TWO_32
    ensures Inv(Program(s, cloneOk, allocOk)) <==> !Orphans(s, cloneOk, allocOk)
  {
    if Orphans(s, cloneOk, allocOk) {
      var s' := Program(s, cloneOk, allocOk);
      assert |Names(s'.clones)| == |Names(s.clones)| + 1;
    } else {
      ProgramConserved(s, cloneOk, allocOk);
      ProgramOrdered(s, cloneOk, allocOk);
      ProgramAccounted(s, cloneOk, allocOk);
    }
  }

  // ---------------------------------------------------------------------- filling

  lemma {:induction false} FillLoopTakes(list: seq<Entry>, bytesQueued: nat, remaining: nat, rows: nat)
    requires bytesQueued == U32(SumBytes(list))
    ensures var r := FillLoop(list, bytesQueued, remaining, rows);
      r.count <= |list| && r.list == list[r.count..] && r.bytesQueued == U32(SumBytes(r.list))
    decreases |list|
  {
    if remaining > 0 && list != [] && bytesQueued >= remaining {
      var first: int := list[0].byteCount;
      U32Add(SumBytes(list), -first);
      FillLoopTakes(list[1..], U32(bytesQueued - list[0].byteCount), U32(remaining - rows), rows);
    }
  }

  /** Whatever the image size, filling moves entries from the list to the completed count. */
  lemma FillKeeps(s: Pipe, imageSize: nat, rows: nat)
    requires Inv(s) && s.total == s.lastTotal
    ensures Inv(Fill(s, imageSize, rows))
  {
    FillLoopTakes(s.list, s.bytesQueued, imageSize, rows);
    var r := FillLoop(s.list, s.bytesQueued, imageSize, rows);
    U32Add(s.total, r.count);
    assert EntryNames(r.list) == s.programmed[s.total + r.count..] by {
      EntryNamesTail(s.list, r.count);
      TailOfTail(s.programmed, s.total, r.count);
    }
  }

  lemma EntryNamesTail(list: seq<Entry>, k: nat)
    requires k <= |list|
    ensures EntryNames(list[k..]) == EntryNames(list)[k..]
  {
  }

  /** With an image of exactly the copied rows the loop runs once or not at all. */
  lemma FillExact(list: seq<Entry>, bytesQueued: nat, size: nat)
    requires size < TWO_32
    ensures FillLoop(list, bytesQueued, size, size)
         == if size > 0 && list != [] && bytesQueued >= size
            then Filled(list[1..], U32(bytesQueued - list[0].byteCount), 1, 0)
            else Filled(list, bytesQueued, 0, size)
  {
    if size > 0 && list != [] && bytesQueued >= size {
      assert U32(size - size) == 0;
      assert FillLoop(list[1..], U32(bytesQueued - list[0].byteCount), 0, size)
        == Filled(list[1..], U32(bytesQueued - list[0].byteCount), 0, 0);
    }
  }

  /** When a frame is there to take, one pass takes exactly one entry and leaves nothing of the
      image over if and only if the image size is exactly the copied rows. */
  lemma FillsOnceIff(s: Pipe, imageSize: nat, rows: nat)
    requires 0 < rows <= imageSize < TWO_32 && s.list != [] && s.bytesQueued >= imageSize
    ensures var r := FillLoop(s.list, s.bytesQueued, imageSize, rows);
      (r.count == 1 && r.remaining == 0) <==> imageSize == rows
  {
    var rest := U32(imageSize - rows);
    assert rest == imageSize - rows;
    assert FillLoop(s.list, s.bytesQueued, imageSize, rows).count
      == 1 + FillLoop(s.list[1..], U32(s.bytesQueued - s.list[0].byteCount), rest, rows).count;
  }

  /** Each running tick is exactly one completion or exactly one skip. */
  lemma TickIsOneOrSkip(s: Pipe, imageSize: nat)
    requires Inv(s) && s.total == s.lastTotal && 0 < imageSize < TWO_32
    ensures var s' := Fill(s, imageSize, imageSize);
      && (s'.total == s.total + 1 <==> s.list != [] && s.bytesQueued >= imageSize)
      && (s'.total == s.total + 1 ==> s'.skipped == s.skipped && s'.list == s.list[1..])
      && (s'.total != s.total + 1 ==> s'.total == s.total && s'.skipped == U32(s.skipped + 1) && s'.list == s.list)
      && Delta(s') == s'.total - s.total
  {
    if s.list != [] && s.bytesQueued >= imageSize {
      FillsOnceIff(s, imageSize, imageSize);
      FillLoopTakes(s.list, s.bytesQueued, imageSize, imageSize);
    }
    FillKeeps(s, imageSize, imageSize);
    DeltaIsExact(Fill(s, imageSize, imageSize));
  }

  // -------------------------------------------------------------------- interrupts

  /** The 32-bit difference of the totals is the number of mappings completed in between. */
  lemma DeltaIsExact(s: Pipe)
    requires Conserved(s)
    ensures Delta(s) == s.total - s.lastTotal
  {
    var n := s.total - s.lastTotal;
    U32Add(s.lastTotal, n);
    var y := s.completed - s.last;
    if U32(s.lastTotal) + n < TWO_32 {
      RemainderIsUnique(U32(s.lastTotal) + n, TWO_32, 0, U32(s.lastTotal) + n);
      RemainderIsUnique(y, TWO_32, 0, n);
    } else {
      RemainderIsUnique(U32(s.lastTotal) + n, TWO_32, 1, U32(s.lastTotal) + n - TWO_32);
      RemainderIsUnique(y, TWO_32, -1, n);
    }
  }

  lemma PrefixGrows<T>(s: seq<T>, d: nat, k: nat)
    requires d + k <= |s|
    ensures s[..d] + s[d..][..k] == s[..d + k] && s[d..][k..] == s[d + k..]
  {
  }

  lemma InterruptOrdered(s: Pipe)
    requires Inv(s)
    ensures Ordered(Interrupt(s))
  {
    DeltaIsExact(s);
    CompleteLoopBound(s.clones, Delta(s));
    var k, d := CompleteLoop(s.clones, Delta(s)).1, |s.delivered|;
    SplitTail(s.programmed[d..], PendingNames(s), k);
    PrefixGrows(s.programmed, d, k);
  }

  lemma {:induction false} LastStays(clones: seq<Clone>, n: nat)
    requires clones != [] && clones[|clones| - 1].dataUsed == 0 < clones[|clones| - 1].remaining
    ensures var r := CompleteLoop(clones, n).0; r != [] && r[|r| - 1] == clones[|clones| - 1]
  {
    if n > 0 && clones[0].dataUsed >= clones[0].remaining {
      LastStays(clones[1..], n - 1);
    }
  }

  lemma InterruptAccounted(s: Pipe)
    requires Inv(s)
    ensures Accounted(Interrupt(s))
  {
    CompleteLoopBound(s.clones, Delta(s));
    CompleteLoopShrinks(s.clones, Delta(s));
    var s' := Interrupt(s);
    var k := CompleteLoop(s.clones, Delta(s)).1;
    assert |Names(s'.clones)| == |Names(s.clones)| - k;
    forall i | 0 <= i < |s'.clones| && s'.clones[i].dataUsed < s'.clones[i].remaining
      ensures i == |s'.clones| - 1 && (s.previous || s.advancing)
    {
      assert s.clones[k + i].dataUsed < s.clones[k + i].remaining;
    }
    if s.previous || s.advancing {
      LastStays(s.clones, Delta(s));
    }
  }

  lemma InterruptKeeps(s: Pipe)
    requires Inv(s)
    ensures Inv(Interrupt(s))
  {
    InterruptOrdered(s);
    InterruptAccounted(s);
  }

  /** How many completed frames have not been delivered yet. */
  function Lag(s: Pipe): int {
    s.lastTotal - |s.delivered|
  }

  /** An interrupt that completes the very frame that Process has programmed but not advanced past. */
  predicate Disturbs(s: Pipe) {
    s.advancing && s.total == |s.programmed| && s.total > s.lastTotal
  }

  /** An interrupt delivers all that was completed since the last one, and none of what was missed
      before, unless it disturbs Process: then one frame is missed, if none was before. */
  lemma InterruptDeliversIff(s: Pipe)
    requires Inv(s)
    ensures Lag(Interrupt(s)) == if Disturbs(s) then Max(Lag(s), 1) else Lag(s)
  {
    DeltaIsExact(s);
    CompleteLoopBound(s.clones, Delta(s));
    assert |Names(s.clones)| == |s.programmed| - |s.delivered| + |PendingNames(s)|;
  }

  // -------------------------------------------------------------------------- runs

  datatype Event =
    | Arrive(frame: Frame)
    | ProgramEvent(cloneOk: bool, allocOk: bool)
    | AdvanceEvent
    | FillEvent
    | InterruptEvent

  /** What the code's own order allows: Process advances before it programs again, an interrupt
      follows every fill, and memory holds fewer than 2^32 entries. */
  ghost predicate Enabled(s: Pipe, e: Event) {
    match e
    case Arrive(_) => true
    case ProgramEvent(c, a) => s.frames != [] && !s.advancing && |s.list| + 1 < TWO_32 && !Orphans(s, c, a)
    case AdvanceEvent => s.advancing && s.frames != []
    case FillEvent => s.total == s.lastTotal
    case InterruptEvent => true
  }

  function Step(s: Pipe, e: Event, imageSize: nat, rows: nat): Pipe
    requires Enabled(s, e)
  {
    match e
    case Arrive(f) => s.(frames := s.frames + [f])
    case ProgramEvent(c, a) => Program(s, c, a)
    case AdvanceEvent => Advance(s)
    case FillEvent => Fill(s, imageSize, rows)
    case InterruptEvent => Interrupt(s)
  }

  ghost predicate Possible(s: Pipe, es: seq<Event>, imageSize: nat, rows: nat)
    decreases |es|
  {
    es == [] || (Enabled(s, es[0]) && Possible(Step(s, es[0], imageSize, rows), es[1..], imageSize, rows))
  }

  function Run(s: Pipe, es: seq<Event>, imageSize: nat, rows: nat): Pipe
    requires Possible(s, es, imageSize, rows)
    decreases |es|
  {
    if es == [] then s else Run(Step(s, es[0], imageSize, rows), es[1..], imageSize, rows)
  }

  lemma StepKeeps(s: Pipe, e: Event, imageSize: nat, rows: nat)
    requires Inv(s) && Enabled(s, e)
    ensures Inv(Step(s, e, imageSize, rows))
  {
    match e
    case Arrive(f) =>
    case ProgramEvent(c, a) => ProgramKeepsIff(s, c, a);
    case AdvanceEvent => AdvanceKeeps(s);
    case FillEvent => FillKeeps(s, imageSize, rows);
    case InterruptEvent => InterruptKeeps(s);
  }

  lemma {:induction false} RunKeeps(s: Pipe, es: seq<Event>, imageSize: nat, rows: nat)
    requires Inv(s) && Possible(s, es, imageSize, rows)
    ensures Inv(Run(s, es, imageSize, rows))
    decreases |es|
  {
    if es != [] {
      StepKeeps(s, es[0], imageSize, rows);
      RunKeeps(Step(s, es[0], imageSize, rows), es[1..], imageSize, rows);
    }
  }

  /** Frames are numbered as they are delivered. */
  lemma {:induction false} FramesNumbered(s: Pipe, es: seq<Event>, imageSize: nat, rows: nat)
    requires Possible(s, es, imageSize, rows)
    ensures var e := Run(s, es, imageSize, rows); e.frameNumber - |e.delivered| == s.frameNumber - |s.delivered|
    decreases |es|
  {
    if es != [] {
      if es[0].InterruptEvent? {
        CompleteLoopBound(s.clones, Delta(s));
      }
      FramesNumbered(Step(s, es[0], imageSize, rows), es[1..], imageSize, rows);
    }
  }

  function Ticks(es: seq<Event>): nat {
    if es == [] then 0 else (if es[0].FillEvent? then 1 else 0) + Ticks(es[1..])
  }

  lemma {:induction false} TicksAreCounted(s: Pipe, es: seq<Event>, imageSize: nat)
    requires Inv(s) && s.skipped < TWO_32 && 0 < imageSize < TWO_32 && Possible(s, es, imageSize, imageSize)
    ensures var e := Run(s, es, imageSize, imageSize);
      s.total <= e.total <= s.total + Ticks(es) && e.skipped == U32(s.skipped + Ticks(es) - (e.total - s.total))
    decreases |es|
  {
    if es != [] {
      var s1 := Step(s, es[0], imageSize, imageSize);
      StepKeeps(s, es[0], imageSize, imageSize);
      TicksAreCounted(s1, es[1..], imageSize);
      if es[0].FillEvent? {
        TickIsOneOrSkip(s, imageSize);
        U32Add(s.skipped + 1, Ticks(es[1..]) - (Run(s, es, imageSize, imageSize).total - s1.total));
      }
    }
  }

  /** Since a Start each tick has completed one mapping or skipped one frame: the two counters add up to
      the ticks, the second one kept in 32 bits. */
  lemma TicksAddUp(s: Pipe, es: seq<Event>, imageSize: nat)
    requires Quiet(s) && 0 < imageSize < TWO_32 && Possible(Start(s), es, imageSize, imageSize)
    ensures var e := Run(Start(s), es, imageSize, imageSize);
      e.total <= Ticks(es) && e.skipped == U32(Ticks(es) - e.total)
  {
    StartInv(s);
    TicksAreCounted(Start(s), es, imageSize);
  }

  /** Between Start and Stop, in every interleaving of the pin's thread with the hardware: all
      that was programmed is completed or still queued, in order, and what has been delivered is a
      prefix of what is complete. */
  lemma FramesConserved(s: Pipe, es: seq<Event>, imageSize: nat, rows: nat)
    requires Quiet(s) && Possible(Start(s), es, imageSize, rows)
    ensures var e := Run(Start(s), es, imageSize, rows);
      && |e.programmed| == e.total + e.queued
      && e.queued == |e.list| && e.bytesQueued == U32(SumBytes(e.list))
      && e.programmed == e.programmed[..e.total] + EntryNames(e.list)
      && e.delivered <= e.programmed[..e.total]
      && e.frameNumber == s.frameNumber + |e.delivered|
      && Names(e.clones) == e.programmed[|e.delivered|..] + PendingNames(e)
  {
    StartInv(s);
    RunKeeps(Start(s), es, imageSize, rows);
    FramesNumbered(Start(s), es, imageSize, rows);
    var e := Run(Start(s), es, imageSize, rows);
    Prefixes(e.programmed, |e.delivered|, e.total);
  }

  lemma Prefixes<T>(s: seq<T>, d: nat, t: nat)
    requires d <= t <= |s|
    ensures s == s[..t] + s[t..] && s[..d] <= s[..t]
  {
  }

  /** No interrupt of the run disturbs Process. */
  ghost predicate Undisturbed(s: Pipe, es: seq<Event>, imageSize: nat, rows: nat)
    requires Possible(s, es, imageSize, rows)
    decreases |es|
  {
    es == [] || ((es[0].InterruptEvent? ==> !Disturbs(s))
                 && Undisturbed(Step(s, es[0], imageSize, rows), es[1..], imageSize, rows))
  }

  lemma {:induction false} RunLags(s: Pipe, es: seq<Event>, imageSize: nat, rows: nat)
    requires Inv(s) && 0 <= Lag(s) <= 1 && Possible(s, es, imageSize, rows)
    ensures Lag(Run(s, es, imageSize, rows)) == if Undisturbed(s, es, imageSize, rows) then Lag(s) else 1
    decreases |es|
  {
    if es != [] {
      StepKeeps(s, es[0], imageSize, rows);
      if es[0].InterruptEvent? {
        InterruptDeliversIff(s);
      }
      RunLags(Step(s, es[0], imageSize, rows), es[1..], imageSize, rows);
    }
  }

  /** Over every run from a Start: the delivered frames are exactly those completed by the last
      interrupt, in programming order, if and only if no interrupt disturbed Process; otherwise the
      last one of them is missing for good, and no more than that one. */
  lemma DeliversAllIff(s: Pipe, es: seq<Event>, imageSize: nat, rows: nat)
    requires Quiet(s) && Possible(Start(s), es, imageSize, rows)
    ensures var e := Run(Start(s), es, imageSize, rows);
      && e.lastTotal <= |e.programmed|
      && (e.delivered == e.programmed[..e.lastTotal] <==> Undisturbed(Start(s), es, imageSize, rows))
      && (!Undisturbed(Start(s), es, imageSize, rows) ==> e.lastTotal > 0 && e.delivered == e.programmed[..e.lastTotal - 1])
  {
    StartInv(s);
    RunKeeps(Start(s), es, imageSize, rows);
    RunLags(Start(s), es, imageSize, rows);
  }

  /** Without disturbance, and between ticks, the live clones are the queued entries and the pending
      one. */
  lemma UndisturbedClones(s: Pipe, es: seq<Event>, imageSize: nat, rows: nat)
    requires Quiet(s) && Possible(Start(s), es, imageSize, rows) && Undisturbed(Start(s), es, imageSize, rows)
    ensures var e := Run(Start(s), es, imageSize, rows);
      e.total == e.lastTotal ==> Names(e.clones) == EntryNames(e.list) + PendingNames(e)
  {
    StartInv(s);
    RunKeeps(Start(s), es, imageSize, rows);
    RunLags(Start(s), es, imageSize, rows);
  }

  /** Such a disturbance: the hardware fills and completes the first frame before Process advances. */
  lemma DisturbedExample(s: Pipe, f: Frame, size: nat)
    requires Quiet(s) && s.frames == [] && f.hasData && 0 < size <= f.bytes < TWO_32
    ensures var es := [Arrive(f), ProgramEvent(true, true), FillEvent, InterruptEvent, AdvanceEvent];
      && Possible(Start(s), es, size, size)
      && var e := Run(Start(s), es, size, size);
      e.lastTotal == 1 && e.programmed == [f.name] && e.delivered == []
  {
    var s1 := Step(Start(s), Arrive(f), size, size);
    assert s1.frames == [f];
    var s2 := Program(s1, true, true);
    FirstMissed(s2, f, size);
    var s4, last := Interrupt(Fill(s2, size, size)), [AdvanceEvent];
    assert last == [AdvanceEvent] + [];
    Follow(s4, AdvanceEvent, [], size, size);
    Follow(Fill(s2, size, size), InterruptEvent, last, size, size);
    var es2 := [InterruptEvent] + last;
    Follow(s2, FillEvent, es2, size, size);
    var es3 := [FillEvent] + es2;
    Follow(s1, ProgramEvent(true, true), es3, size, size);
    var es4 := [ProgramEvent(true, true)] + es3;
    Follow(Start(s), Arrive(f), es4, size, size);
    assert [Arrive(f)] + es4 == [Arrive(f), ProgramEvent(true, true), FillEvent, InterruptEvent, AdvanceEvent];
  }

  lemma FirstMissed(s: Pipe, f: Frame, size: nat)
    requires s.frames == [f] && s.advancing && s.clones == [Clone(f.name, f.bytes, 0)]
    requires s.list == [Entry(f.name, f.bytes)] && s.bytesQueued == f.bytes && 0 < size <= f.bytes < TWO_32
    requires s.completed == s.last == s.total == s.lastTotal == 0 && s.delivered == []
    ensures var e := Interrupt(Fill(s, size, size));
      e.lastTotal == 1 && e.programmed == s.programmed && e.delivered == [] && e.advancing && e.frames == [f]
  {
    FillExact(s.list, s.bytesQueued, size);
    var s3 := Fill(s, size, size);
    assert s3.total == 1 && Delta(s3) == 1;
    assert CompleteLoop(s3.clones, 1).1 == 0;
  }

  /** A step and the run behind it are one run. */
  lemma Follow(s: Pipe, e: Event, es: seq<Event>, imageSize: nat, rows: nat)
    requires Enabled(s, e) && Possible(Step(s, e, imageSize, rows), es, imageSize, rows)
    ensures Possible(s, [e] + es, imageSize, rows)
    ensures Run(s, [e] + es, imageSize, rows) == Run(Step(s, e, imageSize, rows), es, imageSize, rows)
  {
    assert ([e] + es)[1..] == es;
  }

  /** A whole call of Process keeps the invariant and stops between frames, for every pattern of
      failing clones and allocations, as long as no empty frame lacks a list entry. */
  lemma {:induction false} ProcessKeeps(s: Pipe, env: seq<(bool, bool)>)
    requires Inv(s) && !s.advancing && |env| >= |s.frames| && |s.list| + |s.frames| < TWO_32
    requires forall i :: 0 <= i < |s.frames| && s.frames[i].bytes == 0 ==> env[i].1
    ensures Inv(Process(s, env)) && !Process(s, env).advancing
    ensures Lag(Process(s, env)) == Lag(s)
    decreases |s.frames|
  {
    if s.frames != [] {
      var (cloneOk, allocOk) := env[0];
      var s1 := Program(s, cloneOk, allocOk);
      assert Inv(s1) by {
        ProgramKeepsIff(s, cloneOk, allocOk);
      }
      if !s.frames[0].hasData {
        ProcessKeeps(s1, env[1..]);
      } else if (s.previous || cloneOk) && allocOk && s.frames[0].bytes > 0 {
        AdvanceKeeps(s1);
        ProcessKeeps(Advance(s1), env[1..]);
      }
    }
  }

  function FrameNames(frames: seq<Frame>): seq<nat> {
    if frames == [] then [] else (if frames[0].hasData then [frames[0].name] else []) + FrameNames(frames[1..])
  }

  /** The events of a whole call of Process. */
  function PassEvents(s: Pipe, env: seq<(bool, bool)>): seq<Event>
    requires |env| >= |s.frames|
    decreases |s.frames|
  {
    if s.frames == [] then [] else
    var (cloneOk, allocOk) := env[0];
    [ProgramEvent(cloneOk, allocOk)]
      + if !GoesOn(s, cloneOk, allocOk) then []
        else (if s.frames[0].hasData then [AdvanceEvent] else []) + PassEvents(Passed(s, cloneOk, allocOk), env[1..])
  }

  /** Run without interruption, they make of the pipeline what the call does. */
  lemma {:induction false} ProcessIsRun(s: Pipe, env: seq<(bool, bool)>, imageSize: nat, rows: nat)
    requires Inv(s) && !s.advancing && |env| >= |s.frames| && |s.list| + |s.frames| < TWO_32
    requires forall i :: 0 <= i < |s.frames| && s.frames[i].bytes == 0 ==> env[i].1
    ensures Possible(s, PassEvents(s, env), imageSize, rows)
    ensures Run(s, PassEvents(s, env), imageSize, rows) == Process(s, env)
    decreases |s.frames|
  {
    if s.frames != [] {
      var (cloneOk, allocOk) := env[0];
      var s1, e := Program(s, cloneOk, allocOk), ProgramEvent(cloneOk, allocOk);
      ProgramKeepsIff(s, cloneOk, allocOk);
      if GoesOn(s, cloneOk, allocOk) {
        var s2 := Passed(s, cloneOk, allocOk);
        var rest := PassEvents(s2, env[1..]);
        if s.frames[0].hasData {
          AdvanceKeeps(s1);
          ProcessIsRun(s2, env[1..], imageSize, rows);
          Follow(s1, AdvanceEvent, rest, imageSize, rows);
          Follow(s, e, [AdvanceEvent] + rest, imageSize, rows);
        } else {
          ProcessIsRun(s2, env[1..], imageSize, rows);
          assert [] + rest == rest;
          Follow(s, e, rest, imageSize, rows);
        }
      } else {
        Follow(s, e, [], imageSize, rows);
      }
    }
  }

  function ArrivedIn(es: seq<Event>): seq<Frame> {
    if es == [] then [] else (if es[0].Arrive? then [es[0].frame] else []) + ArrivedIn(es[1..])
  }

  /** The frames with data that are still to be programmed. */
  function ToCome(s: Pipe): seq<nat>
    requires s.advancing ==> s.frames != []
  {
    FrameNames(if s.advancing then s.frames[1..] else s.frames)
  }

  lemma {:induction false} FrameNamesAppend(frames: seq<Frame>, f: Frame)
    ensures FrameNames(frames + [f]) == FrameNames(frames) + FrameNames([f])
  {
    if frames != [] {
      assert (frames + [f])[1..] == frames[1..] + [f];
      FrameNamesAppend(frames[1..], f);
      AppendAssoc(if frames[0].hasData then [frames[0].name] else [], FrameNames(frames[1..]), FrameNames([f]));
    } else {
      assert frames + [f] == [f] && [] + FrameNames([f]) == FrameNames([f]);
    }
  }

  /** Every frame that carries data is programmed in the order of arrival, and none is passed over: what
      has been programmed and what is still to come are the frames there were and those that arrived. */
  lemma {:induction false} ProgrammedAsArrived(s: Pipe, es: seq<Event>, imageSize: nat, rows: nat)
    requires Inv(s) && Possible(s, es, imageSize, rows)
    requires forall f :: f in s.frames + ArrivedIn(es) && f.hasData ==> f.bytes > 0
    ensures var e := Run(s, es, imageSize, rows);
      && (e.advancing ==> e.frames != [])
      && e.programmed + ToCome(e) == s.programmed + (ToCome(s) + FrameNames(ArrivedIn(es)))
    decreases |es|
  {
    if es == [] {
      assert ToCome(s) + [] == ToCome(s);
    } else {
      var s1 := Step(s, es[0], imageSize, rows);
      StepKeeps(s, es[0], imageSize, rows);
      ArrivalStep(s, es[0], imageSize, rows);
      forall f | f in s1.frames + ArrivedIn(es[1..]) && f.hasData ensures f.bytes > 0 {
        assert f in s.frames + ArrivedIn(es);
      }
      ProgrammedAsArrived(s1, es[1..], imageSize, rows);
      var a, b := if es[0].Arrive? then [es[0].frame] else [], ArrivedIn(es[1..]);
      FrameNamesJoin(a, b);
      AppendAssoc(ToCome(s), FrameNames(a), FrameNames(b));
      AppendAssoc(s1.programmed, ToCome(s1), FrameNames(b));
      AppendAssoc(s.programmed, ToCome(s) + FrameNames(a), FrameNames(b));
    }
  }

  lemma {:induction false} FrameNamesJoin(a: seq<Frame>, b: seq<Frame>)
    requires |a| <= 1
    ensures FrameNames(a + b) == FrameNames(a) + FrameNames(b)
  {
    if a == [] {
      assert a + b == b && [] + FrameNames(b) == FrameNames(b);
    } else {
      assert (a + b)[1..] == b && a[1..] == [];
      assert FrameNames(a) == (if a[0].hasData then [a[0].name] else []) + FrameNames([]);
    }
  }

  lemma ArrivalStep(s: Pipe, e: Event, imageSize: nat, rows: nat)
    requires Inv(s) && Enabled(s, e) && Inv(Step(s, e, imageSize, rows))
    requires s.frames != [] && s.frames[0].hasData ==> s.frames[0].bytes > 0
    ensures var t := Step(s, e, imageSize, rows);
      t.programmed + ToCome(t) == s.programmed + (ToCome(s) + FrameNames(if e.Arrive? then [e.frame] else []))
    ensures forall f :: f in Step(s, e, imageSize, rows).frames ==> f in s.frames || (e.Arrive? && f == e.frame)
  {
    var t := Step(s, e, imageSize, rows);
    assert ToCome(s) + [] == ToCome(s);
    if e.Arrive? {
      if s.advancing {
        assert t.frames[1..] == s.frames[1..] + [e.frame];
        FrameNamesAppend(s.frames[1..], e.frame);
      } else {
        FrameNamesAppend(s.frames, e.frame);
      }
    } else if e.ProgramEvent? && s.frames[0].hasData {
      AppendAssoc(s.programmed, [s.frames[0].name], FrameNames(s.frames[1..]));
    } else if e.ProgramEvent? {
      assert [] + FrameNames(s.frames[1..]) == FrameNames(s.frames[1..]);
    }
  }

  /** When nothing fails, a call programs every frame that carries data, in order, and leaves none. */
  lemma {:induction false} ProcessProgramsAll(s: Pipe, env: seq<(bool, bool)>)
    requires |env| >= |s.frames| && forall i :: 0 <= i < |s.frames| ==> env[i] == (true, true)
    requires forall i :: 0 <= i < |s.frames| && s.frames[i].hasData ==> s.frames[i].bytes > 0
    ensures Process(s, env).frames == [] && Process(s, env).programmed == s.programmed + FrameNames(s.frames)
    decreases |s.frames|
  {
    if s.frames != [] {
      var s1 := Program(s, true, true);
      if s.frames[0].hasData {
        assert env[0] == (true, true);
        ProcessProgramsAll(Advance(s1), env[1..]);
        AppendAssoc(s.programmed, [s.frames[0].name], FrameNames(s.frames[1..]));
      } else {
        ProcessProgramsAll(s1, env[1..]);
        assert [] + FrameNames(s.frames[1..]) == FrameNames(s.frames[1..]);
      }
    } else {
      assert s.programmed + [] == s.programmed;
    }
  }

  // ------------------------------------------------------------------ stop and restart

  /** The pipeline after a stop, CleanupReferences and another Start, with new frames queued. */
  function Restarted(s: Pipe, frames: seq<Frame>): Pipe {
    Start(Cleanup(Stop(s))).(frames := frames)
  }

  /** The live clones are those of the frames not delivered, and the pending one. */
  ghost predicate Corresponds(s: Pipe) {
    |s.delivered| <= |s.programmed| && Names(s.clones) == s.programmed[|s.delivered|..] + PendingNames(s)
  }

  /** A stop and a cleanup leave nothing behind in list, counters and clones, whatever was there; only the
      previous pointer may be. */
  lemma StopLeavesNothing(s: Pipe)
    ensures var t := Cleanup(Stop(s));
      && t.list == [] && t.queued == |t.list| && t.bytesQueued == SumBytes(t.list) && t.completed == 0 && t.clones == []
      && (Quiet(t.(advancing := false)) <==> !s.previous)
  {
  }

  /** How many clones are missing for frames programmed and not delivered, or remembered as pending. */
  function Missing(s: Pipe): int {
    |s.programmed| - |s.delivered| + (if s.previous then 1 else 0) - |s.clones|
  }

  /** The event that forgets a pending clone: its frame turns out empty and gets no list entry. */
  ghost predicate NeverForgets(s: Pipe, es: seq<Event>, imageSize: nat, rows: nat)
    requires Possible(s, es, imageSize, rows)
    decreases |es|
  {
    es == [] || ((es[0].ProgramEvent? && s.previous && s.frames[0].hasData && s.frames[0].bytes == 0 ==> es[0].allocOk)
                 && NeverForgets(Step(s, es[0], imageSize, rows), es[1..], imageSize, rows))
  }

  /** No run makes up for a missing clone. */
  lemma {:induction false} MissingStays(s: Pipe, es: seq<Event>, imageSize: nat, rows: nat)
    requires Possible(s, es, imageSize, rows) && NeverForgets(s, es, imageSize, rows)
    ensures Missing(Run(s, es, imageSize, rows)) == Missing(s)
    decreases |es|
  {
    if es != [] {
      if es[0].InterruptEvent? {
        CompleteLoopBound(s.clones, Delta(s));
        assert |Names(Interrupt(s).clones)| == |s.clones| - CompleteLoop(s.clones, Delta(s)).1;
      }
      MissingStays(Step(s, es[0], imageSize, rows), es[1..], imageSize, rows);
    }
  }

  /** Stopped with a clone pending, every run after the next Start is one clone short, however it
      goes, because the pointer to the pending clone survives it; stopped without one, none is. */
  lemma RestartIsShort(s: Pipe, frames: seq<Frame>, es: seq<Event>, imageSize: nat, rows: nat)
    requires Possible(Restarted(s, frames), es, imageSize, rows)
    requires NeverForgets(Restarted(s, frames), es, imageSize, rows)
    ensures Missing(Run(Restarted(s, frames), es, imageSize, rows)) == if s.previous then 1 else 0
  {
    MissingStays(Restarted(s, frames), es, imageSize, rows);
  }

  /** After a stop and cleanup the correspondence of clones and frames holds in every later run, with
      whatever frames, if and only if no clone was pending. */
  lemma RestartableIff(s: Pipe, imageSize: nat, rows: nat)
    requires Inv(s) && !s.advancing
    ensures (forall frames, es | Possible(Restarted(s, frames), es, imageSize, rows)
               :: Corresponds(Run(Restarted(s, frames), es, imageSize, rows)))
        <==> !s.previous
  {
    if s.previous {
      var frames, es := [Frame(0, 1, true)], [ProgramEvent(true, true)];
      var r := Restarted(s, frames);
      assert es == [ProgramEvent(true, true)] + [];
      Follow(r, ProgramEvent(true, true), [], imageSize, rows);
      assert Run(r, es, imageSize, rows) == Program(r, true, true);
      assert !Corresponds(Run(r, es, imageSize, rows));
    } else {
      forall frames, es | Possible(Restarted(s, frames), es, imageSize, rows)
        ensures Corresponds(Run(Restarted(s, frames), es, imageSize, rows))
      {
        assert Inv(Restarted(s, frames));
        RunKeeps(Restarted(s, frames), es, imageSize, rows);
      }
    }
  }

  /** A run that stops with a clone pending: there is a clone for the frame, but no list entry. */
  lemma PendingExample(s: Pipe, f: Frame, imageSize: nat, rows: nat)
    requires Quiet(s) && s.frames == [] && f.hasData && 0 < f.bytes
    ensures var es := [Arrive(f), ProgramEvent(true, false)];
      && Possible(Start(s), es, imageSize, rows)
      && Run(Start(s), es, imageSize, rows).previous
  {
    var s1, last := Step(Start(s), Arrive(f), imageSize, rows), [ProgramEvent(true, false)];
    assert s1.frames == [f] && last == [ProgramEvent(true, false)] + [];
    Follow(s1, ProgramEvent(true, false), [], imageSize, rows);
    Follow(Start(s), Arrive(f), last, imageSize, rows);
  }

  /** A run that comes to an orphan: an empty frame with its Data pointer set, and no memory for its
      list entry. The clone is left to nobody. */
  lemma OrphanExample(s: Pipe, name: nat, imageSize: nat, rows: nat)
    requires Quiet(s) && s.frames == []
    ensures Possible(Start(s), [Arrive(Frame(name, 0, true))], imageSize, rows)
    ensures var e := Run(Start(s), [Arrive(Frame(name, 0, true))], imageSize, rows);
      e.frames != [] && Orphans(e, true, false) && Names(Program(e, true, false).clones) == [name] && Program(e, true, false).programmed == []
  {
    var f := Frame(name, 0, true);
    assert [Arrive(f)] == [Arrive(f)] + [];
    Follow(Start(s), Arrive(f), [], imageSize, rows);
  }
}
