/** The looping source of CWaveObject as a value: captured frames, dropped frames and runs. */
module WaveLoop {
  import opened Words
  import opened WaveFormat

  /** A position in a looping wave. */
  datatype Source = Source(data: seq<byte>, pointer: nat, time: int)

  ghost predicate Valid(s: Source) {
    s.pointer < |s.data| < TWO_32
  }

  /** Byte `p` of the wave repeated for ever. */
  function At(data: seq<byte>, p: nat): byte
    requires data != []
  {
    data[p % |data|]
  }

  /** `n` bytes of the wave repeated for ever, from position `p` on. */
  function Looped(data: seq<byte>, p: nat, n: nat): (r: seq<byte>)
    requires data != []
    ensures |r| == n
  {
    seq<byte>(n, i requires 0 <= i => At(data, p + i))
  }

  /** The bytes a time interval is worth, each product kept in a ULONG. */
  function BytesFor(f: Format, delta: nat): nat {
    U32(U32(U32(f.samplesPerSec * delta / 10000000) * (f.bitsPerSample / 8)) * f.channels)
  }

  /** As long as nothing wraps, that is the whole sample frames of the interval. */
  lemma BytesForExact(f: Format, delta: nat)
    requires (f.samplesPerSec * delta / 10000000) * (f.bitsPerSample / 8) * f.channels < TWO_32
    requires 0 < f.channels && 8 <= f.bitsPerSample
    ensures BytesFor(f, delta) == (f.samplesPerSec * delta / 10000000) * (f.bitsPerSample / 8) * f.channels
  {
    var n, b, c := f.samplesPerSec * delta / 10000000, f.bitsPerSample / 8, f.channels;
    ProductGrows(n, b);
    ProductGrows(n * b, c);
    U32Small(n);
    U32Small(n * b);
    U32Small(n * b * c);
  }

  lemma ProductGrows(a: nat, b: nat)
    requires 0 < b
    ensures 0 <= a <= a * b
  {
    assert a * b == a + a * (b - 1);
  }

  function Synthesize(s: Source, bytes: nat, delta: int, bufferSize: nat): (Source, seq<byte>)
    requires Valid(s)
  {
    if delta < 0 then (s, [])
    else
      var n := Min(bytes, bufferSize);
      (s.(pointer := (s.pointer + n) % |s.data|, time := s.time + delta), Looped(s.data, s.pointer, n))
  }

  /** The pointer and the bytes are added in a ULONG. */
  function Skip(s: Source, bytes: nat, delta: int): Source
    requires Valid(s)
  {
    if delta <= 0 then s
    else s.(pointer := U32(s.pointer + bytes) % |s.data|, time := s.time + delta)
  }

  // ------------------------------------------------------------- remainder arithmetic

  lemma AddRemainder(a: nat, b: nat, d: nat)
    requires 0 < d
    ensures (a % d + b) % d == (a + b) % d
  {
    var q, x := a / d, (a % d + b) / d;
    assert a == d * q + a % d;
    assert a + b == d * (q + x) + (a % d + b) % d by {
      assert a % d + b == d * x + (a % d + b) % d;
    }
    RemainderIsUnique(a + b, d, q + x, (a % d + b) % d);
  }

  lemma OneTurn(a: nat, d: nat)
    requires 0 < d && a < 2 * d
    ensures a % d == if a >= d then a - d else a
  {
    if a >= d {
      RemainderIsUnique(a, d, 1, a - d);
    } else {
      RemainderIsUnique(a, d, 0, a);
    }
  }

  lemma AtReduced(data: seq<byte>, p: nat, i: nat)
    requires data != []
    ensures At(data, p % |data| + i) == At(data, p + i)
  {
    AddRemainder(p, i, |data|);
  }

  lemma AtStraight(data: seq<byte>, p: nat)
    requires p < |data|
    ensures At(data, p) == data[p]
  {
    OneTurn(p, |data|);
  }

  /** Two loops in a row are one longer loop. */
  lemma LoopedAppend(data: seq<byte>, p: nat, n: nat, m: nat)
    requires data != []
    ensures Looped(data, p, n + m) == Looped(data, p, n) + Looped(data, (p + n) % |data|, m)
  {
    var q := (p + n) % |data|;
    forall i | 0 <= i < m ensures Looped(data, p, n + m)[n + i] == Looped(data, q, m)[i] {
      AtReduced(data, p + n, i);
      assert Looped(data, p, n + m)[n + i] == At(data, p + (n + i));
      assert p + (n + i) == p + n + i;
    }
  }

  /** A loop that does not reach the end of the wave is a piece of it. */
  lemma LoopedStraight(data: seq<byte>, p: nat, n: nat)
    requires data != [] && p + n <= |data|
    ensures Looped(data, p, n) == data[p..p + n]
  {
    forall i | 0 <= i < n ensures Looped(data, p, n)[i] == data[p..p + n][i] {
      AtStraight(data, p + i);
    }
  }

  // ------------------------------------------------------------------- main results

  /** A dropped frame moves the source exactly as a captured one if and only if the sum stays in
      32 bits or 2^32 is a whole number of loops. */
  lemma SkipIsSynthesizeIff(s: Source, bytes: nat, delta: int, bufferSize: nat)
    requires Valid(s) && 0 < delta && bytes <= bufferSize && bytes < TWO_32
    ensures Skip(s, bytes, delta) == Synthesize(s, bytes, delta, bufferSize).0
        <==> s.pointer + bytes < TWO_32 || TWO_32 % |s.data| == 0
  {
    var d := |s.data|;
    var x := s.pointer + bytes;
    if x >= TWO_32 {
      assert U32(x) == x - TWO_32 by {
        RemainderIsUnique(x, TWO_32, 1, x - TWO_32);
      }
      ShiftedRemainder(x - TWO_32, TWO_32, d);
    } else {
      assert U32(x) == x;
    }
  }

  lemma ShiftedRemainder(a: nat, b: nat, d: nat)
    requires 0 < d
    ensures a % d == (a + b) % d <==> b % d == 0
  {
    var r := b % d;
    AddRemainder(b, a, d);
    AddRemainder(a, r, d);
    assert (a + b) % d == (a % d + r) % d by {
      assert (r + a) % d == (a + r) % d;
    }
    OneTurn(a % d + r, d);
  }

  /** An interval that is not positive moves nothing, captured or skipped, and gives no byte. */
  lemma NoTimeNoMove(s: Source, f: Format, delta: int, bufferSize: nat)
    requires Valid(s) && delta <= 0
    ensures var bytes := if delta < 0 then 0 else BytesFor(f, delta);
      Skip(s, bytes, delta) == s && Synthesize(s, bytes, delta, bufferSize) == (s, [])
    ensures delta < 0 ==> forall bytes :: Synthesize(s, bytes, delta, bufferSize) == (s, [])
    ensures forall bytes :: Skip(s, bytes, delta) == s
  {
    if delta == 0 {
      assert f.samplesPerSec * delta == 0;
      assert U32(0 * (f.bitsPerSample / 8)) == 0 && U32(0 * f.channels) == 0;
      OneTurn(s.pointer, |s.data|);
    }
  }

  /** A frame is captured into a buffer of the given size, or dropped when there is none. */
  function Frame(s: Source, bytes: nat, delta: int, available: nat): Source
    requires Valid(s)
  {
    if available > 0 then Synthesize(s, bytes, delta, available).0 else Skip(s, bytes, delta)
  }

  lemma FrameValid(s: Source, bytes: nat, delta: int, available: nat)
    requires Valid(s)
    ensures Valid(Frame(s, bytes, delta, available)) && Frame(s, bytes, delta, available).data == s.data
  {
  }

  function Frames(s: Source, bytes: nat, delta: int, available: seq<nat>): (s': Source)
    requires Valid(s)
    ensures Valid(s')
    decreases |available|
  {
    if available == [] then s
    else
      FrameValid(s, bytes, delta, available[0]);
      Frames(Frame(s, bytes, delta, available[0]), bytes, delta, available[1..])
  }

  /** Every buffer takes a whole interval and no skip wraps. */
  ghost predicate Ample(size: nat, bytes: nat, available: seq<nat>)
    requires 0 < size
  {
    && (forall a :: a in available ==> a == 0 || bytes <= a)
    && (size + bytes <= TWO_32 || TWO_32 % size == 0 || 0 !in available)
  }

  /** Whichever frames are captured and whichever dropped, after n frames the source stands n
      intervals further: the same place as if all had been captured. */
  lemma {:induction false} AnyMixSamePosition(s: Source, bytes: nat, delta: int, available: seq<nat>)
    requires Valid(s) && 0 < delta && bytes < TWO_32 && Ample(|s.data|, bytes, available)
    ensures Frames(s, bytes, delta, available)
         == s.(pointer := (s.pointer + |available| * bytes) % |s.data|, time := s.time + |available| * delta)
    decreases |available|
  {
    if available == [] {
      OneTurn(s.pointer, |s.data|);
    } else {
      var s1 := Frame(s, bytes, delta, available[0]);
      FrameValid(s, bytes, delta, available[0]);
      assert available[0] in available;
      FrameMoves(s, bytes, delta, available[0]);
      assert forall a :: a in available[1..] ==> a in available;
      AnyMixSamePosition(s1, bytes, delta, available[1..]);
      var n := |available| - 1;
      AddRemainder(s.pointer + bytes, n * bytes, |s.data|);
      OneMore(n, bytes);
      OneMore(n, delta);
    }
  }

  lemma OneMore(n: nat, x: int)
    ensures (n + 1) * x == x + n * x
  {
  }

  lemma FrameMoves(s: Source, bytes: nat, delta: int, available: nat)
    requires Valid(s) && 0 < delta && bytes < TWO_32 && Ample(|s.data|, bytes, [available])
    ensures Frame(s, bytes, delta, available)
         == s.(pointer := (s.pointer + bytes) % |s.data|, time := s.time + delta)
  {
    assert available in [available];
    if available == 0 {
      SkipIsSynthesizeIff(s, bytes, delta, bytes);
    }
  }

  /** A captured frame's bytes depend on its number alone, not on which earlier ones were dropped. */
  lemma FrameContent(s: Source, bytes: nat, delta: int, before: seq<nat>, bufferSize: nat)
    requires Valid(s) && 0 < delta && bytes < TWO_32 && Ample(|s.data|, bytes, before)
    requires bytes <= bufferSize
    ensures Synthesize(Frames(s, bytes, delta, before), bytes, delta, bufferSize).1
         == Looped(s.data, s.pointer + |before| * bytes, bytes)
  {
    AnyMixSamePosition(s, bytes, delta, before);
    LoopedAppend(s.data, s.pointer, |before| * bytes, bytes);
    LoopedAppend(s.data, s.pointer + |before| * bytes, 0, bytes);
  }

  /** By how many bytes the pointer falls behind in one frame: those a short buffer does not take, and
      2^32 when the sum of a skip wraps. */
  function LostIn(s: Source, bytes: nat, available: nat): nat
    requires bytes < TWO_32
  {
    if available > 0 then bytes - Min(bytes, available)
    else if s.pointer + bytes >= TWO_32 then TWO_32 else 0
  }

  function Lost(s: Source, bytes: nat, delta: int, available: seq<nat>): nat
    requires Valid(s) && bytes < TWO_32
    decreases |available|
  {
    if available == [] then 0
    else
      FrameValid(s, bytes, delta, available[0]);
      LostIn(s, bytes, available[0]) + Lost(Frame(s, bytes, delta, available[0]), bytes, delta, available[1..])
  }

  lemma FrameLoses(s: Source, bytes: nat, delta: int, available: nat)
    requires Valid(s) && 0 < delta && bytes < TWO_32
    ensures var end := Frame(s, bytes, delta, available);
      && end.time == s.time + delta
      && (end.pointer + LostIn(s, bytes, available)) % |s.data| == (s.pointer + bytes) % |s.data|
  {
    var x, lost := s.pointer + bytes, LostIn(s, bytes, available);
    if available == 0 {
      RemainderIsUnique(x, TWO_32, if x >= TWO_32 then 1 else 0, x - lost);
    }
    AddRemainder(x - lost, lost, |s.data|);
  }

  /** A position behind `b` by `rest`, which is behind `a` by `lost`. */
  lemma LossesAdd(c: nat, rest: nat, b: nat, lost: nat, a: nat, m: nat, n: nat, d: nat)
    requires 0 < d && (b + lost) % d == (a + m) % d && (c + rest) % d == (b + n) % d
    ensures (c + (lost + rest)) % d == (a + (m + n)) % d
  {
    AddRemainder(c + rest, lost, d);
    AddRemainder(b + n, lost, d);
    AddRemainder(b + lost, n, d);
    AddRemainder(a + m, n, d);
  }

  /** After any frames at all, whatever the buffers: the time is exact, and the pointer is behind its
      place by what the frames lost. */
  lemma {:induction false} PositionIs(s: Source, bytes: nat, delta: int, available: seq<nat>)
    requires Valid(s) && 0 < delta && bytes < TWO_32
    ensures var end := Frames(s, bytes, delta, available);
      && end.data == s.data && end.time == s.time + |available| * delta
      && (end.pointer + Lost(s, bytes, delta, available)) % |s.data| == (s.pointer + |available| * bytes) % |s.data|
    decreases |available|
  {
    if available != [] {
      var s1, n := Frame(s, bytes, delta, available[0]), |available| - 1;
      var rest, lost := Lost(s1, bytes, delta, available[1..]), LostIn(s, bytes, available[0]);
      FrameValid(s, bytes, delta, available[0]);
      FrameLoses(s, bytes, delta, available[0]);
      PositionIs(s1, bytes, delta, available[1..]);
      LossesAdd(Frames(s, bytes, delta, available).pointer, rest, s1.pointer, lost, s.pointer, bytes, n * bytes, |s.data|);
      OneMore(n, bytes);
      OneMore(n, delta);
    }
  }

  /** The source stands where capturing every frame whole would have left it if and only if what was
      lost is a whole number of loops: a short buffer leaves the pointer behind until others have
      lost the rest of a loop. */
  lemma SamePositionIff(s: Source, bytes: nat, delta: int, available: seq<nat>)
    requires Valid(s) && 0 < delta && bytes < TWO_32
    ensures Frames(s, bytes, delta, available)
         == s.(pointer := (s.pointer + |available| * bytes) % |s.data|, time := s.time + |available| * delta)
        <==> Lost(s, bytes, delta, available) % |s.data| == 0
  {
    var end := Frames(s, bytes, delta, available);
    PositionIs(s, bytes, delta, available);
    ShiftedRemainder(end.pointer, Lost(s, bytes, delta, available), |s.data|);
    OneTurn(end.pointer, |s.data|);
  }

  /** What short buffers do not take of their intervals. */
  function Missing(bytes: nat, available: seq<nat>): nat {
    if available == [] then 0
    else (if available[0] > 0 then bytes - Min(bytes, available[0]) else 0) + Missing(bytes, available[1..])
  }

  /** As long as no skip can wrap, only short buffers lose anything. */
  lemma {:induction false} LostIsMissing(s: Source, bytes: nat, delta: int, available: seq<nat>)
    requires Valid(s) && |s.data| + bytes <= TWO_32
    ensures Lost(s, bytes, delta, available) == Missing(bytes, available)
    decreases |available|
  {
    if available != [] {
      FrameValid(s, bytes, delta, available[0]);
      LostIsMissing(Frame(s, bytes, delta, available[0]), bytes, delta, available[1..]);
    }
  }

  /** A buffer for one of an interval's two bytes leaves a wave of two bytes half a loop behind; a
      second one brings it back. */
  lemma ShortBuffersExample(s: Source)
    requires |s.data| == 2 && s.pointer == 0
    ensures Frames(s, 2, 1, [1]).pointer != (s.pointer + 1 * 2) % 2
    ensures Frames(s, 2, 1, [1, 1]).pointer == (s.pointer + 2 * 2) % 2
  {
    var s1 := Frame(s, 2, 1, 1);
    assert s1.pointer == 1;
    assert Frames(s, 2, 1, [1]) == Frames(s1, 2, 1, [1][1..]);
    assert Frames(s, 2, 1, [1, 1]) == Frames(s1, 2, 1, [1, 1][1..]);
    assert [1, 1][1..] == [1];
  }
}
