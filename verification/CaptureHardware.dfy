/** The classes of avstream/avshws behind CapturePipeline: CHardwareSimulation, CCapturePin and
    CCaptureDevice with the fields the pipeline's value abstracts. */
module CaptureHardware {
  import opened Words
  import P = CapturePipeline

  // ------------------------------------------------------------------ rows with a pitch

  /** `y` rows of `width` bytes, `stride` apart, end inside `length` bytes. */
  ghost predicate Fits(y: nat, stride: nat, width: nat, length: nat) {
    y == 0 || Start(y - 1, stride) + width <= length
  }

  lemma FitsBefore(y: nat, stride: nat, width: nat, length: nat)
    requires 0 < y && Fits(y, stride, width, length)
    ensures Fits(y - 1, stride, width, length)
  {
  }

  /** `dst` after the first `y` rows of `src` were copied, `stride` bytes apart. */
  ghost function WithRows(dst: seq<byte>, stride: nat, src: seq<byte>, width: nat, y: nat): (r: seq<byte>)
    requires Fits(y, stride, width, |dst|) && Start(y, width) <= |src|
    ensures |r| == |dst|
  {
    if y == 0 then dst else
      FitsBefore(y, stride, width, |dst|);
      Patch(WithRows(dst, stride, src, width, y - 1), Start(y - 1, stride), src[Start(y - 1, width)..Start(y, width)])
  }

  /** With a pitch of at least the width, byte `x` of row `r` of the image lands in row `r`. */
  lemma {:induction false} RowLands(dst: seq<byte>, stride: nat, src: seq<byte>, width: nat, y: nat, r: nat, x: nat)
    requires Fits(y, stride, width, |dst|) && Start(y, width) <= |src| && width <= stride
    requires r < y && x < width
    ensures Start(r, stride) + x < |dst| && Start(r, width) + x < |src|
    ensures WithRows(dst, stride, src, width, y)[Start(r, stride) + x] == src[Start(r, width) + x]
    decreases y
  {
    FitsBefore(y, stride, width, |dst|);
    var before := WithRows(dst, stride, src, width, y - 1);
    var row := src[Start(y - 1, width)..Start(y, width)];
    RowPlace(y, stride, width, r, x);
    StartMono(r + 1, y, width);
    if r < y - 1 {
      RowLands(dst, stride, src, width, y - 1, r, x);
    }
    PatchIndex(before, Start(y - 1, stride), row, Start(r, stride) + x);
  }

  /** Where byte `x` of row `r` lies in relation to row `y - 1`. */
  lemma RowPlace(y: nat, stride: nat, width: nat, r: nat, x: nat)
    requires r < y && x < width <= stride
    ensures r < y - 1 ==> Start(r, stride) + x < Start(y - 1, stride)
    ensures Start(r, stride) + x < Start(y - 1, stride) + width
  {
    if r < y - 1 {
      StartMono(r + 1, y - 1, stride);
    }
  }

  /** A byte in no row keeps its value: the gaps between rows and all behind the last. */
  lemma {:induction false} GapKept(dst: seq<byte>, stride: nat, src: seq<byte>, width: nat, y: nat, i: nat)
    requires Fits(y, stride, width, |dst|) && Start(y, width) <= |src| && i < |dst|
    requires forall r: nat :: r < y ==> !InRow(i, r, stride, width)
    ensures WithRows(dst, stride, src, width, y)[i] == dst[i]
    decreases y
  {
    if y > 0 {
      FitsBefore(y, stride, width, |dst|);
      GapKept(dst, stride, src, width, y - 1, i);
      assert !InRow(i, y - 1, stride, width);
      PatchIndex(WithRows(dst, stride, src, width, y - 1), Start(y - 1, stride), src[Start(y - 1, width)..Start(y, width)], i);
    }
  }

  ghost predicate InRow(i: int, r: nat, stride: nat, width: nat) {
    Start(r, stride) <= i < Start(r, stride) + width
  }

  // ----------------------------------------------------------------------- hardware

  /** SCATTER_GATHER_ENTRY: the frame's buffer, its size, the clone's frame and the pitch its
      stream header gives (0 when it gives none). */
  datatype SgEntry = SgEntry(virtual: array<byte>, byteCount: nat, frame: nat, pitch: int)

  /** The distance between rows: the absolute pitch, or the width when there is none. */
  function Stride(pitch: int, width: nat): nat {
    if pitch == 0 then width else if pitch < 0 then -pitch else pitch
  }

  function Entries(list: seq<SgEntry>): (r: seq<P.Entry>)
    ensures |r| == |list|
  {
    seq(|list|, i requires 0 <= i < |list| => P.Entry(list[i].frame, list[i].byteCount))
  }

  class HardwareSimulation {
    const imageSize: nat
    const height: nat
    const width: nat          // in bytes: m_Width times the bytes per pixel
    const synthesisBuffer: array<byte>
    var list: seq<SgEntry>
    var queued: nat
    var bytesQueued: nat
    var completed: nat
    var skipped: nat

    ghost predicate Counting()
      reads this
    {
      queued == |list| && completed < TWO_32
    }

    /** The image is exactly its rows, and every queued buffer takes them. */
    ghost predicate Ready()
      reads this
    {
      && Counting() && imageSize == Start(height, width) == synthesisBuffer.Length < TWO_32
      && forall e :: e in list ==> Takes(e)
    }

    ghost predicate Takes(e: SgEntry) {
      Fits(height, Stride(e.pitch, width), width, e.virtual.Length) && e.virtual != synthesisBuffer
    }

    /** The first entry's buffer holds `before` with the synthesized rows in it. */
    ghost predicate Filled(e: SgEntry, before: seq<byte>)
      reads e.virtual, synthesisBuffer
    {
      && Fits(height, Stride(e.pitch, width), width, |before|) && Start(height, width) <= synthesisBuffer.Length
      && e.virtual[..] == WithRows(before, Stride(e.pitch, width), synthesisBuffer[..], width, height)
    }

    /** The value of the list and its counters, on top of the rest of a pipeline. */
    ghost predicate Shows(s: P.Pipe)
      reads this
    {
      s.list == Entries(list) && s.queued == queued && s.bytesQueued == bytesQueued
        && s.completed == completed && s.skipped == skipped
    }

    constructor (height: nat, width: nat)
      requires Start(height, width) < TWO_32
      ensures Ready() && list == [] && bytesQueued == 0 && completed == 0 && skipped == 0
    {
      this.height, this.width, imageSize := height, width, Start(height, width);
      synthesisBuffer := new byte[Start(height, width)](i => 0);
      list, queued, bytesQueued, completed, skipped := [], 0, 0, 0, 0;
    }

    /** The 64-bit body: one entry for the whole frame, none when no entry can be allocated. */
    method ProgramScatterGatherMappings(buffer: array<byte>, count: nat, frame: nat, pitch: int, allocOk: bool)
      returns (inserted: nat)
      requires Counting()
      modifies this`list, this`queued, this`bytesQueued
      ensures Counting() && (old(Ready()) && Takes(SgEntry(buffer, count, frame, pitch)) ==> Ready())
      ensures inserted == (if allocOk then count else 0)
      ensures list == if allocOk then old(list) + [SgEntry(buffer, count, frame, pitch)] else old(list)
      ensures Entries(list) == if allocOk then old(Entries(list)) + [P.Entry(frame, count)] else old(Entries(list))
      ensures bytesQueued == if allocOk then U32(old(bytesQueued) + count) else old(bytesQueued)
    {
      inserted := 0;
      if allocOk {
        list := list + [SgEntry(buffer, count, frame, pitch)];
        inserted := count;
        queued := queued + 1;
        bytesQueued := U32(bytesQueued + count);
      }
    }

    /** FillScatterGatherBuffers: the oldest buffer takes the rows of the image, or the frame is
        starved and nothing changes. */
    method FillScatterGatherBuffers() returns (success: bool)
      requires Ready()
      modifies this`list, this`queued, this`bytesQueued, this`completed, if list == [] then {} else {list[0].virtual}
      ensures Ready()
      ensures var r := P.FillLoop(old(Entries(list)), old(bytesQueued), imageSize, Start(height, width));
        && Entries(list) == r.list && bytesQueued == r.bytesQueued
        && completed == U32(old(completed) + r.count) && success == (r.remaining == 0)
        && (r.count > 0 ==> list == old(list)[1..] && old(list) != [])
        && (r.count == 0 ==> list == old(list))
      ensures synthesisBuffer[..] == old(synthesisBuffer[..])
      ensures list != old(list) ==> old(list) != [] && Filled(old(list)[0], old(list[0].virtual[..]))
    {
      var bufferRemaining := imageSize;
      while bufferRemaining > 0 && queued > 0 && bytesQueued >= bufferRemaining
        invariant Ready() && (bufferRemaining == imageSize || bufferRemaining == 0)
        invariant bufferRemaining == imageSize ==> list == old(list) && bytesQueued == old(bytesQueued)
        invariant bufferRemaining == imageSize ==> completed == old(completed)
        invariant bufferRemaining == imageSize && list != [] ==> list[0].virtual[..] == old(list[0].virtual[..])
        invariant bufferRemaining == 0 < imageSize ==> old(list) != [] && old(bytesQueued) >= imageSize
        invariant bufferRemaining == 0 < imageSize ==> list == old(list)[1..] && completed == U32(old(completed) + 1)
        invariant bufferRemaining == 0 < imageSize ==> bytesQueued == U32(old(bytesQueued) - old(list)[0].byteCount)
        invariant bufferRemaining == 0 < imageSize ==> Filled(old(list)[0], old(list[0].virtual[..]))
        invariant synthesisBuffer[..] == old(synthesisBuffer[..])
        decreases bufferRemaining
      {
        var e := list[0];
        assert e in list;
        CopyRows(e);
        assert Entries(list)[1..] == Entries(list[1..]);
        list := list[1..];
        queued := queued - 1;
        bufferRemaining := bufferRemaining - Start(height, width);
        completed := U32(completed + 1);
        bytesQueued := U32(bytesQueued - e.byteCount);
      }
      success := bufferRemaining == 0;
      P.FillExact(old(Entries(list)), old(bytesQueued), imageSize);
    }

    method CopyRow(virtual: array<byte>, stride: nat, row: nat, buffer: nat, ghost dst: seq<byte>, ghost y: nat)
      requires virtual != synthesisBuffer && |dst| == virtual.Length
      requires Fits(y + 1, stride, width, |dst|) && Start(y + 1, width) <= synthesisBuffer.Length
      requires Fits(y, stride, width, |dst|) && Start(y, width) <= synthesisBuffer.Length
      requires row == Start(y, stride) && buffer == Start(y, width)
      requires virtual[..] == WithRows(dst, stride, synthesisBuffer[..], width, y)
      modifies virtual
      ensures virtual[..] == WithRows(dst, stride, synthesisBuffer[..], width, y + 1)
    {
      NextRow(dst, stride, synthesisBuffer[..], width, y);
      CopySynthesized(virtual, row, buffer);
    }

    /** RtlCopyMemory of one row. */
    method CopySynthesized(virtual: array<byte>, row: nat, buffer: nat)
      requires virtual != synthesisBuffer && row + width <= virtual.Length && buffer + width <= synthesisBuffer.Length
      modifies virtual
      ensures virtual[..] == Patch(old(virtual[..]), row, synthesisBuffer[..][buffer..buffer + width])
    {
      assert synthesisBuffer[..][buffer..buffer + width] == synthesisBuffer[buffer..buffer + width];
      CopyMemory(virtual, row, synthesisBuffer, buffer, width);
    }

    /** The inner loop: Height rows, each at its pitch. */
    method CopyRows(e: SgEntry)
      requires Start(height, width) == synthesisBuffer.Length && e.virtual != synthesisBuffer
      requires Fits(height, Stride(e.pitch, width), width, e.virtual.Length)
      modifies e.virtual
      ensures e.virtual[..] == WithRows(old(e.virtual[..]), Stride(e.pitch, width), old(synthesisBuffer[..]), width, height)
    {
      var stride := Stride(e.pitch, width);
      var buffer, row := 0, 0;
      for y := 0 to height
        invariant Fits(y, stride, width, e.virtual.Length) && Start(y, width) <= synthesisBuffer.Length
        invariant buffer == Start(y, width) && row == Start(y, stride)
        invariant synthesisBuffer[..] == old(synthesisBuffer[..])
        invariant e.virtual[..] == WithRows(old(e.virtual[..]), stride, synthesisBuffer[..], width, y)
      {
        StartMono(y + 1, height, width);
        FitsUpTo(y + 1, height, stride, width, e.virtual.Length);
        CopyRow(e.virtual, stride, row, buffer, old(e.virtual[..]), y);
        buffer := buffer + width;
        row := row + stride;
      }
    }
  }

  /** Where the rows of a filled buffer lie: behind each other where the stream header gives no pitch, at
      multiples of the pitch where it gives one at least as long as a row, negative or not. */
  lemma FilledRows(h: HardwareSimulation, e: SgEntry, before: seq<byte>, r: int, x: int)
    requires h.Filled(e, before) && 0 <= r < h.height && 0 <= x < h.width
    ensures 0 <= r * h.width + x < h.synthesisBuffer.Length
    ensures e.pitch == 0 ==>
      r * h.width + x < e.virtual.Length && e.virtual[r * h.width + x] == h.synthesisBuffer[r * h.width + x]
    ensures e.pitch >= h.width ==>
      0 <= r * e.pitch + x < e.virtual.Length && e.virtual[r * e.pitch + x] == h.synthesisBuffer[r * h.width + x]
    ensures h.width <= -e.pitch ==>
      0 <= r * -e.pitch + x < e.virtual.Length && e.virtual[r * -e.pitch + x] == h.synthesisBuffer[r * h.width + x]
  {
    var stride := Stride(e.pitch, h.width);
    StartIsProduct(r, h.width);
    StartIsProduct(r, stride);
    assert Start(r, h.width) + x < h.synthesisBuffer.Length by {
      StartMono(r + 1, h.height, h.width);
    }
    if stride >= h.width {
      RowLands(before, stride, h.synthesisBuffer[..], h.width, h.height, r, x);
    }
  }

  /** And what of it keeps its old bytes: all that lies to the right of the rows, and below the last. */
  lemma FilledGaps(h: HardwareSimulation, e: SgEntry, before: seq<byte>, pitch: int, y: int, x: int)
    requires h.Filled(e, before) && 0 < pitch && (e.pitch == pitch || e.pitch == -pitch) && h.width <= pitch
    requires 0 <= y && 0 <= x < pitch && (x >= h.width || y >= h.height) && 0 <= y * pitch + x < |before|
    ensures |before| == e.virtual.Length && e.virtual[y * pitch + x] == before[y * pitch + x]
  {
    var i := y * pitch + x;
    forall r: nat | r < h.height ensures !InRow(i, r, pitch, h.width) {
      StartIsProduct(r, pitch);
      MultipleIsLarge(pitch, y - r);
      assert y * pitch == r * pitch + pitch * (y - r);
    }
    GapKept(before, pitch, h.synthesisBuffer[..], h.width, h.height, i);
  }

  lemma NextRow(dst: seq<byte>, stride: nat, src: seq<byte>, width: nat, y: nat)
    requires Fits(y + 1, stride, width, |dst|) && Start(y + 1, width) <= |src|
    ensures Fits(y, stride, width, |dst|) && Start(y, width) + width == Start(y + 1, width)
    ensures Start(y, stride) + width <= |dst|
    ensures WithRows(dst, stride, src, width, y + 1)
         == Patch(WithRows(dst, stride, src, width, y), Start(y, stride), src[Start(y, width)..Start(y, width) + width])
  {
    FitsBefore(y + 1, stride, width, |dst|);
  }

  lemma FitsUpTo(y: nat, height: nat, stride: nat, width: nat, length: nat)
    requires 0 < y <= height && Fits(height, stride, width, length)
    ensures Fits(y, stride, width, length)
  {
    StartMono(y - 1, height - 1, stride);
  }
}
