/** ToneGenerator (audio/sysvad/ToneGenerator.cpp): frames of a tone cut into buffers of any size,
    the rest of a frame being carried over to the next call. */
module ToneGenerator {
  import opened Words

  /** Frame number `k` of the tone. What its samples are is not modelled. */
  type Tone = nat -> seq<byte>

  ghost predicate Framed(tone: Tone, size: nat) {
    0 < size && forall k: nat :: |tone(k)| == size
  }

  /** Byte `i` of all frames laid end to end. */
  ghost function At(tone: Tone, size: nat, i: nat): byte
    requires Framed(tone, size)
  {
    tone(i / size)[i % size]
  }

  /** `n` bytes of all frames laid end to end, from byte `p` on. */
  ghost function Stream(tone: Tone, size: nat, p: nat, n: nat): (r: seq<byte>)
    requires Framed(tone, size)
    ensures |r| == n
  {
    seq<byte>(n, i requires 0 <= i => At(tone, size, p + i))
  }

  /** The bytes from position `p` to the next frame border. */
  function Residual(size: nat, p: nat): (r: nat)
    requires 0 < size
    ensures r < size
  {
    if p % size == 0 then 0 else size - p % size
  }

  lemma AtFrame(tone: Tone, size: nat, k: nat, o: nat)
    requires Framed(tone, size) && o < size
    ensures At(tone, size, Start(k, size) + o) == tone(k)[o]
  {
    StartIsProduct(k, size);
    RemainderIsUnique(Start(k, size) + o, size, k, o);
  }

  lemma StreamAppend(tone: Tone, size: nat, p: nat, n: nat, m: nat)
    requires Framed(tone, size)
    ensures Stream(tone, size, p, n + m) == Stream(tone, size, p, n) + Stream(tone, size, p + n, m)
  {
  }

  /** A piece of one frame is a piece of the stream. */
  lemma StreamPiece(tone: Tone, size: nat, k: nat, o: nat, n: nat)
    requires Framed(tone, size) && o + n <= size
    ensures Stream(tone, size, Start(k, size) + o, n) == tone(k)[o..o + n]
  {
    var piece := Stream(tone, size, Start(k, size) + o, n);
    forall i | 0 <= i < n ensures piece[i] == tone(k)[o..o + n][i] {
      AtFrame(tone, size, k, o + i);
      assert Start(k, size) + o + i == Start(k, size) + (o + i);
    }
  }

  lemma ResidualOf(size: nat, k: nat, rest: nat)
    requires rest < size && rest <= Start(k, size)
    ensures Residual(size, Start(k, size) - rest) == rest
  {
    StartIsProduct(k, size);
    if rest > 0 {
      RemainderIsUnique(Start(k, size) - rest, size, k - 1, size - rest);
    } else {
      RemainderIsUnique(Start(k, size), size, k, 0);
    }
  }

  // -------------------------------------------------------------------------- calls

  /** One call: its length, and whether it is answered with silence. */
  datatype Call = Call(length: nat, silent: bool)

  /** The stream position after a call: an unmuted call uses up its length, or the whole residual
      if that is longer. */
  function Move(size: nat, p: nat, c: Call): nat
    requires 0 < size
  {
    if c.silent then p else p + Max(c.length, Residual(size, p))
  }

  function MoveAll(size: nat, p: nat, cs: seq<Call>): nat
    requires 0 < size
    decreases |cs|
  {
    if cs == [] then p else MoveAll(size, Move(size, p, cs[0]), cs[1..])
  }

  /** What the unmuted calls deliver, joined. */
  ghost function Delivered(tone: Tone, size: nat, p: nat, cs: seq<Call>): seq<byte>
    requires Framed(tone, size)
    decreases |cs|
  {
    if cs == [] then []
    else (if cs[0].silent then [] else Stream(tone, size, p, cs[0].length))
           + Delivered(tone, size, Move(size, p, cs[0]), cs[1..])
  }

  function Total(cs: seq<Call>): nat {
    if cs == [] then 0 else (if cs[0].silent then 0 else cs[0].length) + Total(cs[1..])
  }

  /** Each unmuted call is at least as long as the residual it finds. */
  ghost predicate Covering(size: nat, p: nat, cs: seq<Call>)
    requires 0 < size
    decreases |cs|
  {
    cs == [] || ((cs[0].silent || cs[0].length >= Residual(size, p)) && Covering(size, Move(size, p, cs[0]), cs[1..]))
  }

  /** The tone does not depend on how it is cut up, nor on muted calls in between: what is delivered
      is one stretch of the stream. */
  lemma {:induction false} ChunkingDoesNotMatter(tone: Tone, size: nat, p: nat, cs: seq<Call>)
    requires Framed(tone, size) && Covering(size, p, cs)
    ensures Delivered(tone, size, p, cs) == Stream(tone, size, p, Total(cs))
    ensures MoveAll(size, p, cs) == p + Total(cs)
    decreases |cs|
  {
    if cs != [] {
      ChunkingDoesNotMatter(tone, size, Move(size, p, cs[0]), cs[1..]);
      if !cs[0].silent {
        StreamAppend(tone, size, p, cs[0].length, Total(cs[1..]));
      }
    }
  }

  /** The position keeps up with the delivered bytes if and only if every unmuted call covers its
      residual; otherwise frame bytes are lost. */
  lemma {:induction false} NothingLostIff(size: nat, p: nat, cs: seq<Call>)
    requires 0 < size
    ensures p + Total(cs) <= MoveAll(size, p, cs)
    ensures MoveAll(size, p, cs) == p + Total(cs) <==> Covering(size, p, cs)
    decreases |cs|
  {
    if cs != [] {
      NothingLostIff(size, Move(size, p, cs[0]), cs[1..]);
    }
  }

  /** Frames of four bytes in calls of 1, 2 and 1 bytes: the second call finds a residual of three,
      delivers two of them, and the third begins the next frame; byte 3 of the tone is lost. */
  lemma ShortResidualExample(tone: Tone)
    requires Framed(tone, 4)
    ensures var cs := [Call(1, false), Call(2, false), Call(1, false)];
      && !Covering(4, 0, cs)
      && Delivered(tone, 4, 0, cs) == [tone(0)[0], tone(0)[1], tone(0)[2], tone(1)[0]]
  {
    var a, b, c := Call(1, false), Call(2, false), Call(1, false);
    assert [a, b, c][1..] == [b, c] && [b, c][1..] == [c] && [c][1..] == [];
    assert Move(4, 0, a) == 1 && Move(4, 1, b) == 4;
    assert Delivered(tone, 4, 4, [c]) == Stream(tone, 4, 4, 1) + [];
    assert Delivered(tone, 4, 1, [b, c]) == Stream(tone, 4, 1, 2) + Delivered(tone, 4, 4, [c]);
    assert At(tone, 4, 0) == tone(0)[0] && At(tone, 4, 1) == tone(0)[1] && At(tone, 4, 2) == tone(0)[2];
    assert At(tone, 4, 4) == tone(1)[0];
    assert !Covering(4, 1, [b, c]);
  }

  // --------------------------------------------------------------------- the object

  class ToneGenerator {
    const frameSize: nat
    const tone: Tone             // the computation of one frame
    const partialFrame: array<byte>
    var partialFrameBytes: nat
    var theta: nat               // frames begun: the phase in sample increments
    var mute: bool

    ghost predicate Valid()
      reads this, partialFrame
    {
      && Framed(tone, frameSize) && partialFrame.Length == frameSize
      && partialFrameBytes < frameSize && partialFrameBytes <= Start(theta, frameSize)
      && (partialFrameBytes > 0 ==> theta > 0 && Carried() == tone(theta - 1)[frameSize - partialFrameBytes..])
    }

    function Carried(): seq<byte>
      requires partialFrameBytes <= frameSize == partialFrame.Length
      reads this, partialFrame
    {
      partialFrame[frameSize - partialFrameBytes..]
    }

    /** How many bytes of the stream have been used up. */
    ghost function Position(): nat
      requires Valid()
      reads this, partialFrame
    {
      Start(theta, frameSize) - partialFrameBytes
    }

    constructor (frameSize: nat, tone: Tone)
      requires Framed(tone, frameSize)
      ensures Valid() && Position() == 0 && !mute && this.tone == tone && this.frameSize == frameSize
      ensures fresh(partialFrame)
    {
      this.frameSize, this.tone := frameSize, tone;
      partialFrame := new byte[frameSize](i => 0);
      partialFrameBytes, theta, mute := 0, 0, false;
    }

    /** InitNewFrame: the next frame is written to `at`, and the phase moves on. */
    method InitNewFrame(frame: array<byte>, at: nat)
      requires Framed(tone, frameSize) && at + frameSize <= frame.Length
      modifies frame, this`theta
      ensures theta == old(theta) + 1
      ensures frame[..] == Patch(old(frame[..]), at, tone(old(theta)))
    {
      var samples := tone(theta);
      for i := 0 to frameSize
        invariant theta == old(theta)
        invariant forall k :: at <= k < at + i ==> frame[k] == samples[k - at]
        invariant forall k :: 0 <= k < frame.Length && !(at <= k < at + i) ==> frame[k] == old(frame[k])
      {
        frame[at + i] := samples[i];
      }
      theta := theta + 1;
    }

    method ZeroMemory(buffer: array<byte>, at: nat, n: nat)
      requires at + n <= buffer.Length
      modifies buffer
      ensures forall k :: at <= k < at + n ==> buffer[k] == 0
      ensures buffer[at + n..] == old(buffer[at + n..])
    {
      for i := 0 to n
        invariant forall k :: 0 <= k < buffer.Length ==> buffer[k] == if at <= k < at + i then 0 else old(buffer[k])
      {
        buffer[at + i] := 0;
      }
    }

    /** Silence when muted or when the floating point state cannot be saved; otherwise the next
        bytes of the stream. */
    method GenerateSine(buffer: array<byte>, saved: bool)
      requires Valid() && buffer != partialFrame
      modifies this`theta, this`partialFrameBytes, partialFrame, buffer
      ensures Valid()
      ensures Position() == Move(frameSize, old(Position()), Call(buffer.Length, mute || !saved))
      ensures mute || !saved ==> forall i :: 0 <= i < buffer.Length ==> buffer[i] == 0
      ensures !mute && saved ==> buffer[..] == Stream(tone, frameSize, old(Position()), buffer.Length)
    {
      ResidualOf(frameSize, theta, partialFrameBytes);
      if mute || !saved {
        ZeroMemory(buffer, 0, buffer.Length);
        return;
      }
      Generate(buffer);
      assert buffer[..] == buffer[..buffer.Length];
    }

    /** Residual, whole frames, partial frame. */
    method Generate(buffer: array<byte>)
      requires Valid() && buffer != partialFrame
      modifies this`theta, this`partialFrameBytes, partialFrame, buffer
      ensures Valid()
      ensures Position() == old(Position()) + Max(buffer.Length, old(partialFrameBytes))
      ensures Holds(buffer, old(Position()), buffer.Length)
    {
      var done := CopyResidual(buffer);
      if done < buffer.Length {
        done := CopyFrames(buffer, done);
        if done < buffer.Length {
          CopyPartial(buffer, done);
        }
      }
    }

    /** The front of `buffer` continues the stream from the position at entry. */
    ghost predicate Holds(buffer: array<byte>, p: nat, n: nat)
      requires Framed(tone, frameSize)
      reads buffer
    {
      n <= buffer.Length && buffer[..n] == Stream(tone, frameSize, p, n)
    }

    /** The residual is copied as far as it fits, and then given up. */
    method CopyResidual(buffer: array<byte>) returns (done: nat)
      requires Valid() && buffer != partialFrame
      modifies this`partialFrameBytes, partialFrame, buffer
      ensures Valid() && partialFrameBytes == 0 && theta == old(theta)
      ensures done == Min(old(partialFrameBytes), buffer.Length) && Holds(buffer, old(Position()), done)
    {
      done := 0;
      if partialFrameBytes > 0 {
        var offset := frameSize - partialFrameBytes;
        done := if partialFrameBytes < buffer.Length then partialFrameBytes else buffer.Length;
        StreamPiece(tone, frameSize, theta - 1, offset, done);
        assert partialFrame[offset..offset + done] == Carried()[..done];
        assert tone(theta - 1)[offset..][..done] == tone(theta - 1)[offset..offset + done];
        CopyMemory(buffer, 0, partialFrame, offset, done);
        ZeroMemory(partialFrame, offset, done);
        partialFrameBytes := 0;
      }
    }

    /** Whole frames, as many as fit behind `start`. */
    method CopyFrames(buffer: array<byte>, start: nat) returns (done: nat)
      requires Valid() && buffer != partialFrame && partialFrameBytes == 0 && start <= buffer.Length
      requires start <= Position() && Holds(buffer, Position() - start, start)
      modifies this`theta, buffer
      ensures Valid() && start <= done <= buffer.Length < done + frameSize
      ensures Position() == old(Position()) + (done - start) && Holds(buffer, old(Position()) - start, done)
    {
      done := start;
      var frames := (buffer.Length - done) / frameSize;
      ghost var p := Position() - start;
      FramesFit(buffer.Length - start, frameSize);
      for i := 0 to frames
        invariant Valid() && done == start + Start(i, frameSize) <= buffer.Length
        invariant Position() == p + done && Holds(buffer, p, done)
      {
        StartMono(i + 1, frames, frameSize);
        NextFrame(buffer, p, done);
        done := done + frameSize;
      }
    }

    /** One frame at the end of what is there. */
    method NextFrame(buffer: array<byte>, ghost p: nat, done: nat)
      requires Valid() && buffer != partialFrame && partialFrameBytes == 0 && done + frameSize <= buffer.Length
      requires Position() == p + done && Holds(buffer, p, done)
      modifies this`theta, buffer
      ensures Valid() && theta == old(theta) + 1 && Holds(buffer, p, done + frameSize)
    {
      ghost var before := buffer[..];
      InitNewFrame(buffer, done);
      assert tone(theta - 1)[0..frameSize] == tone(theta - 1);
      StreamGrows(tone, frameSize, p, before, done, theta - 1, frameSize);
    }

    /** The last, partial frame: its front goes to the buffer, the rest is carried over. */
    method CopyPartial(buffer: array<byte>, done: nat)
      requires Valid() && buffer != partialFrame && partialFrameBytes == 0
      requires done < buffer.Length < done + frameSize && done <= Position()
      requires Holds(buffer, Position() - done, done)
      modifies this`theta, this`partialFrameBytes, partialFrame, buffer
      ensures Valid() && Position() == old(Position()) + (buffer.Length - done)
      ensures Holds(buffer, old(Position()) - done, buffer.Length)
    {
      var length := buffer.Length - done;
      ghost var p, before := Position() - done, buffer[..];
      SplitFrame(buffer, done, length);
      StreamGrows(tone, frameSize, p, before, done, theta - 1, length);
    }

    /** The front of the frame just made is zeroed, the rest is the residual. */
    method CarryOver(length: nat)
      requires Framed(tone, frameSize) && partialFrame.Length == frameSize && 0 < length < frameSize
      requires theta > 0 && partialFrame[..] == tone(theta - 1)
      modifies this`partialFrameBytes, partialFrame
      ensures Valid() && partialFrameBytes == frameSize - length
    {
      assert partialFrame[0 + length..] == tone(theta - 1)[length..];
      ZeroMemory(partialFrame, 0, length);
      partialFrameBytes := frameSize - length;
    }

    /** One frame is made in the partial frame; `length` bytes of it are copied out and zeroed. */
    method SplitFrame(buffer: array<byte>, at: nat, length: nat)
      requires Valid() && buffer != partialFrame && partialFrameBytes == 0
      requires 0 < length < frameSize && at + length <= buffer.Length
      modifies this`theta, this`partialFrameBytes, partialFrame, buffer
      ensures Valid() && theta == old(theta) + 1 && partialFrameBytes == frameSize - length
      ensures buffer[..] == Patch(old(buffer[..]), at, tone(old(theta))[0..length])
    {
      InitNewFrame(partialFrame, 0);
      assert partialFrame[..] == tone(theta - 1) && partialFrame[0..0 + length] == tone(theta - 1)[0..length];
      CopyMemory(buffer, at, partialFrame, 0, length);
      CarryOver(length);
    }
  }

  /** `length` bytes of frame `k` continue a stretch of the stream that ends where the frame begins. */
  lemma StreamGrows(tone: Tone, size: nat, p: nat, before: seq<byte>, done: nat, k: nat, length: nat)
    requires Framed(tone, size) && length <= size && done + length <= |before| && p + done == Start(k, size)
    requires before[..done] == Stream(tone, size, p, done)
    ensures Patch(before, done, tone(k)[0..length])[..done + length] == Stream(tone, size, p, done + length)
  {
    StreamPiece(tone, size, k, 0, length);
    StreamAppend(tone, size, p, done, length);
    PatchFront(before, done, tone(k)[0..length]);
  }

  lemma FramesFit(length: nat, size: nat)
    requires 0 < size
    ensures Start(length / size, size) <= length < Start(length / size, size) + size
  {
    StartIsProduct(length / size, size);
    assert length == size * (length / size) + length % size;
  }
}
