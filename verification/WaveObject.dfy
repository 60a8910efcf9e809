/** CWaveObject (avstream/avssamp/wave.cpp) and the pin's CaptureFrame: the objects that parse a
    wave file and play it in a loop. */
module WaveObject {
  import opened Words
  import opened WaveFormat
  import F = WaveFile
  import L = WaveLoop

  datatype Status = Success | InvalidParameter | NotFound | ReadFailed | InsufficientResources

  /** The status a parse ends with; NeverReturns has none. */
  function StatusOf(p: F.Parsed): Status
    requires p != F.NeverReturns
  {
    match p
    case Wave(_, _) => Success
    case InvalidParameter => InvalidParameter
    case BlockNotFound => NotFound
    case ReadFailed => ReadFailed
    case NoMemory => InsufficientResources
  }

  /** Reads block headers until `tag` turns up; on success the position and size of the block's data. */
  method ParseForBlock(file: seq<byte>, tag: dword, blockPosition: nat)
    returns (status: Status, position: nat, size: dword)
    requires F.ParseForBlock(file, tag, blockPosition) != F.Endless
    ensures status.Success? || status.NotFound?
    ensures F.ParseForBlock(file, tag, blockPosition)
         == if status.Success? then F.Found(position, size) else F.NotFound
    ensures status.NotFound? ==> position == blockPosition
  {
    var readPos := blockPosition;
    size := 0;
    while readPos + 8 <= |file|
      invariant size == 0
      invariant F.ParseForBlock(file, tag, readPos) == F.ParseForBlock(file, tag, blockPosition)
      decreases |file| - readPos
    {
      var found: int, length: int := Get32(file, readPos), Get32(file, readPos + 4);
      if found == tag {
        size := length;
        readPos := readPos + 8;
        break;
      }
      readPos := readPos + U32(length + 8);
    }
    if size == 0 {
      status, position := NotFound, blockPosition;
    } else {
      status, position := Success, readPos;
    }
  }

  class WaveObject {
    var waveFormat: Format
    var waveData: array?<byte>
    var wavePointer: nat
    var synthesisTime: int

    constructor ()
      ensures waveData == null && wavePointer == 0 && synthesisTime == 0
    {
      waveFormat, waveData := Format(0, 0, 0, 0, 0, 0, []), null;
      wavePointer, synthesisTime := 0, 0;
    }

    /** ParseAndRead on a file of the given bytes; `memory` tells whether the pool has room. */
    method ParseAndRead(file: seq<byte>, memory: bool) returns (status: Status)
      requires F.ParseAndRead(file, memory) != F.NeverReturns
      requires waveData == null
      modifies this`waveFormat, this`waveData
      ensures status == StatusOf(F.ParseAndRead(file, memory))
      ensures status.Success? ==> waveData != null && fresh(waveData) && waveData.Length > 0
      ensures status.Success? ==> F.ParseAndRead(file, memory) == F.Wave(waveFormat, waveData[..])
      ensures !status.Success? ==> waveData == null
    {
      if |file| < 12 {
        return ReadFailed;
      }
      var riff: int, wave: int := Get32(file, 0), Get32(file, 8);
      if riff != RIFF_TAG || wave != WAVE_TAG {
        return InvalidParameter;
      }
      var position, fmtBlockSize;
      status, position, fmtBlockSize := ParseForBlock(file, FMT_TAG, 12);
      if !status.Success? {
        return;
      }
      if fmtBlockSize >= SIZEOF_WAVEFORMATEX {
        return InvalidParameter;
      }
      status := ReadFormat(file, position, fmtBlockSize, memory);
    }

    /** The format block is read over the front of the format; then the data is sought behind it. */
    method ReadFormat(file: seq<byte>, position: nat, size: nat, memory: bool) returns (status: Status)
      requires size < SIZEOF_WAVEFORMATEX && waveData == null
      requires F.ParseFormat(file, position, size, memory) != F.NeverReturns
      modifies this`waveFormat, this`waveData
      ensures status == StatusOf(F.ParseFormat(file, position, size, memory))
      ensures status.Success? ==> waveData != null && fresh(waveData) && waveData.Length > 0
      ensures status.Success? ==> F.ParseFormat(file, position, size, memory) == F.Wave(waveFormat, waveData[..])
      ensures !status.Success? ==> waveData == null
    {
      if position + size > |file| {
        return ReadFailed;
      }
      waveFormat := DecodeFormat(Patch(F.NEW_WAVEFORMATEX, 0, file[position..position + size]));
      if waveFormat.tag != WAVE_FORMAT_PCM {
        return InvalidParameter;
      }
      status := ReadData(file, position + size, memory);
    }

    /** The second half of ParseAndRead: the data block is found, checked and read in. */
    method ReadData(file: seq<byte>, pos: nat, memory: bool) returns (status: Status)
      requires F.ParseData(file, waveFormat, pos, memory) != F.NeverReturns
      requires waveData == null
      modifies this`waveData
      ensures status == StatusOf(F.ParseData(file, waveFormat, pos, memory))
      ensures status.Success? ==> waveData != null && fresh(waveData) && waveData.Length > 0
      ensures status.Success? ==> F.ParseData(file, waveFormat, pos, memory) == F.Wave(waveFormat, waveData[..])
      ensures !status.Success? ==> waveData == null
    {
      var position, size;
      status, position, size := ParseForBlock(file, DATA_TAG, pos);
      if !status.Success? {
        return;
      }
      if size == 0 || !PassesMask(size, waveFormat.blockAlign) {
        return InvalidParameter;
      }
      if !memory {
        return InsufficientResources;
      }
      if position + size > |file| {
        return ReadFailed;
      }
      var data := new byte[size];
      for i := 0 to size
        invariant data[..i] == file[position..position + i]
      {
        data[i] := file[position + i];
      }
      waveData := data;
      assert data[..] == file[position..position + size];
    }

    /** Ready to play: the position lies inside the data. */
    ghost predicate Playing()
      reads this, waveData
    {
      waveData != null && L.Valid(Position())
    }

    ghost function Position(): L.Source
      requires waveData != null
      reads this, waveData
    {
      L.Source(waveData[..], wavePointer, synthesisTime)
    }

    method SkipFixed(timeDelta: int)
      requires Playing()
      modifies this`wavePointer, this`synthesisTime
      ensures Playing()
      ensures timeDelta <= 0 ==> Position() == old(Position())
      ensures timeDelta > 0 ==>
        Position() == L.Skip(old(Position()), L.BytesFor(waveFormat, timeDelta), timeDelta)
    {
      if timeDelta > 0 {
        var samples := U32(waveFormat.samplesPerSec * timeDelta / 10000000);
        var bytes := U32(U32(samples * (waveFormat.bitsPerSample / 8)) * waveFormat.channels);
        wavePointer := U32(wavePointer + bytes) % waveData.Length;
        synthesisTime := synthesisTime + timeDelta;
      }
    }

    /** Copies from the looping wave in as many pieces as it takes; returns the bytes written. */
    method SynthesizeFixed(timeDelta: int, buffer: array<byte>) returns (bytes: nat)
      requires Playing() && buffer != waveData
      modifies this`wavePointer, this`synthesisTime, buffer
      ensures Playing()
      ensures timeDelta < 0 ==> bytes == 0 && Position() == old(Position()) && buffer[..] == old(buffer[..])
      ensures timeDelta >= 0 ==>
        var moved := L.Synthesize(old(Position()), L.BytesFor(waveFormat, timeDelta), timeDelta, buffer.Length);
        && bytes == |moved.1| && Position() == moved.0
        && buffer[..] == moved.1 + old(buffer[..])[bytes..]
    {
      if timeDelta < 0 {
        return 0;
      }
      var samples := U32(waveFormat.samplesPerSec * timeDelta / 10000000);
      bytes := U32(U32(samples * (waveFormat.bitsPerSample / 8)) * waveFormat.channels);
      if bytes > buffer.Length {
        bytes := buffer.Length;
      }
      CopyLoop(buffer, bytes);
      synthesisTime := synthesisTime + timeDelta;
    }

    method CopyLoop(buffer: array<byte>, bytes: nat)
      requires Playing() && buffer != waveData && bytes <= buffer.Length
      modifies this`wavePointer, buffer
      ensures Playing() && Position() == old(Position()).(pointer := (old(wavePointer) + bytes) % waveData.Length)
      ensures buffer[..] == L.Looped(waveData[..], old(wavePointer), bytes) + old(buffer[..])[bytes..]
    {
      var bytesRemaining: nat, dataCopy: nat := bytes, 0;
      L.OneTurn(wavePointer, waveData.Length);
      while bytesRemaining > 0
        invariant dataCopy + bytesRemaining == bytes
        invariant wavePointer == (old(wavePointer) + dataCopy) % waveData.Length
        invariant buffer[..dataCopy] == L.Looped(waveData[..], old(wavePointer), dataCopy)
        invariant buffer[dataCopy..] == old(buffer[..])[dataCopy..]
      {
        var chunkCount := waveData.Length - wavePointer;
        if chunkCount > bytesRemaining {
          chunkCount := bytesRemaining;
        }
        CopyChunk(buffer, dataCopy, chunkCount, old(wavePointer));
        bytesRemaining := bytesRemaining - chunkCount;
        dataCopy := dataCopy + chunkCount;
      }
      assert buffer[..] == buffer[..bytes] + buffer[bytes..];
    }

    /** One piece of the wave, to its end at most, goes behind the `dataCopy` bytes that are there. */
    method CopyChunk(buffer: array<byte>, dataCopy: nat, chunkCount: nat, ghost start: nat)
      requires Playing() && buffer != waveData && dataCopy + chunkCount <= buffer.Length
      requires wavePointer == (start + dataCopy) % waveData.Length && wavePointer + chunkCount <= waveData.Length
      requires buffer[..dataCopy] == L.Looped(waveData[..], start, dataCopy)
      modifies this`wavePointer, buffer
      ensures Playing() && wavePointer == (start + (dataCopy + chunkCount)) % waveData.Length
      ensures buffer[..dataCopy + chunkCount] == L.Looped(waveData[..], start, dataCopy + chunkCount)
      ensures buffer[dataCopy + chunkCount..] == old(buffer[dataCopy..])[chunkCount..]
    {
      ghost var before := buffer[..];
      CopyMemory(buffer, dataCopy, waveData, wavePointer, chunkCount);
      assert waveData[..][wavePointer..wavePointer + chunkCount] == waveData[wavePointer..wavePointer + chunkCount];
      CopyStep(waveData[..], start, dataCopy, wavePointer, chunkCount, before);
      wavePointer := wavePointer + chunkCount;
      if wavePointer >= waveData.Length {
        wavePointer := wavePointer - waveData.Length;
      }
    }
  }

  /** One piece of a looping copy: `done` bytes are there, the next piece starts at `p`. */
  lemma CopyStep(wave: seq<byte>, start: nat, done: nat, p: nat, chunk: nat, before: seq<byte>)
    requires wave != [] && p == (start + done) % |wave| && p + chunk <= |wave| && done + chunk <= |before|
    requires before[..done] == L.Looped(wave, start, done)
    ensures var after := Patch(before, done, wave[p..p + chunk]);
      && after[..done + chunk] == L.Looped(wave, start, done + chunk)
      && after[done + chunk..] == before[done..][chunk..]
    ensures (start + (done + chunk)) % |wave| == if p + chunk >= |wave| then p + chunk - |wave| else p + chunk
  {
    PatchFront(before, done, wave[p..p + chunk]);
    L.LoopedStraight(wave, p, chunk);
    L.LoopedAppend(wave, start, done, chunk);
    L.AddRemainder(start + done, chunk, |wave|);
    L.OneTurn(p + chunk, |wave|);
  }

  /** CAudioCapturePin: a frame is captured when a buffer is there and skipped when none is. */
  class AudioCapturePin {
    const waveObject: WaveObject
    const timerInterval: int
    var frameNumber: nat
    var droppedFrames: nat

    constructor (w: WaveObject, interval: int)
      ensures waveObject == w && timerInterval == interval && frameNumber == 0 && droppedFrames == 0
    {
      waveObject, timerInterval, frameNumber, droppedFrames := w, interval, 0, 0;
    }

    /** `data.Length` is BytesAvailable. */
    method CaptureFrame(data: array<byte>) returns (bytesUsed: nat)
      requires waveObject.Playing() && data != waveObject.waveData && timerInterval > 0
      modifies this, waveObject`wavePointer, waveObject`synthesisTime, data
      ensures waveObject.Playing() && frameNumber == old(frameNumber) + 1
      ensures droppedFrames == if data.Length == 0 then U32(old(droppedFrames) + 1) else old(droppedFrames)
      ensures bytesUsed == Min(L.BytesFor(waveObject.waveFormat, timerInterval), data.Length)
      ensures waveObject.Position() == L.Frame(old(waveObject.Position()),
        L.BytesFor(waveObject.waveFormat, timerInterval), timerInterval, data.Length)
      ensures data[..bytesUsed] == L.Looped(waveObject.waveData[..], old(waveObject.wavePointer), bytesUsed)
    {
      frameNumber := frameNumber + 1;
      bytesUsed := 0;
      if data.Length > 0 {
        bytesUsed := waveObject.SynthesizeFixed(timerInterval, data);
      } else {
        droppedFrames := U32(droppedFrames + 1);
        waveObject.SkipFixed(timerInterval);
      }
    }
  }
}
