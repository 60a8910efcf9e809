/** The file side of CSaveData: headers written at the front, frames appended, headers rewritten. */
module WaveWriter {
  import opened Words
  import opened WaveFormat
  import opened WaveFile
  import R = SaveRing

  class SaveFile {
    const waveFormat: Format
    var file: seq<byte>
    var filePtr: nat
    var dwFileSize: dword
    var dwDataLength: dword

    /** The file holds the headers of a new stream and then `payload`; the pointer is at its end. */
    ghost predicate Recording(payload: seq<byte>)
      reads this
    {
      |waveFormat.extra| < 0x1_0000 && file == FileOf(waveFormat, 0, 0, payload) && filePtr == |file|
        && dwFileSize == 0 && dwDataLength == 0
    }

    /** Initialize: the new file and its first headers. */
    constructor (f: Format)
      requires |f.extra| < 0x1_0000
      ensures waveFormat == f && Recording([])
    {
      waveFormat, file, filePtr, dwFileSize, dwDataLength := f, [], 0, 0, 0;
      new;
      FileWriteHeader([], []);
    }

    /** Three writes at consecutive positions from the start of the file; `old` headers of the
        same length, or an empty file, lie there before. */
    method FileWriteHeader(ghost headers: seq<byte>, ghost payload: seq<byte>)
      requires |waveFormat.extra| < 0x1_0000
      requires file == headers + payload
      requires |headers| == HeadersLength(waveFormat) || (headers == [] && payload == [])
      modifies this`file, this`filePtr
      ensures file == FileOf(waveFormat, dwFileSize, dwDataLength, payload)
      ensures filePtr == HeadersLength(waveFormat)
    {
      
      filePtr := 0;
      var fileHeader := FileHeader(dwFileSize, FormatLength(waveFormat));
      file := WriteAt(file, filePtr, fileHeader);
      filePtr := filePtr + SIZEOF_FILE_HEADER;
      var format := FormatBytes(waveFormat);
      file := WriteAt(file, filePtr, format);
      filePtr := filePtr + FormatLength(waveFormat);
      var dataHeader := DataHeader(dwDataLength);
      file := WriteAt(file, filePtr, dataHeader);
      filePtr := filePtr + SIZEOF_DATA_HEADER;
      WritesInOrder(headers, payload, fileHeader, format, dataHeader);
    }

    /** FileWrite: all of `data` at the pointer, or nothing when the write fails. */
    method FileWrite(data: seq<byte>, ok: bool, ghost payload: seq<byte>)
      requires Recording(payload)
      modifies this`file, this`filePtr
      ensures Recording(if ok then payload + data else payload)
    {
      if ok {
        file := WriteAt(file, filePtr, data);
        filePtr := filePtr + |data|;
        AppendAssoc(Headers(waveFormat, 0, 0), payload, data);
      }
    }

    /** The final lengths follow from the pointer alone. */
    method SetLengths(ghost payload: nat)
      requires filePtr == SIZEOF_FILE_HEADER + FormatLength(waveFormat) + SIZEOF_DATA_HEADER + payload
      modifies this`dwFileSize, this`dwDataLength
      ensures dwFileSize == U32(HeadersLength(waveFormat) + payload - 8)
      ensures dwDataLength == U32(payload)
    {
      var end, format := filePtr, FormatLength(waveFormat);
      LengthsOf(end, format, payload);
      dwFileSize := U32(U32(end) - 8);
      dwDataLength := U32(U32(end) - SIZEOF_FILE_HEADER - format - SIZEOF_DATA_HEADER);
    }

    /** The destructor: the lengths are set, then the headers are rewritten over the old ones. */
    method Finalize(ghost payload: seq<byte>)
      requires Recording(payload)
      modifies this
      ensures file == FinishedFile(waveFormat, payload)
    {
      SetLengths(|payload|);
      FileWriteHeader(Headers(waveFormat, 0, 0), payload);
    }
  }

  /** Each cut to 32 bits separately or once at the end, the header fields are the same. */
  lemma LengthsOf(end: nat, format: nat, payload: nat)
    requires end == SIZEOF_FILE_HEADER + format + SIZEOF_DATA_HEADER + payload
    ensures U32(U32(end) - 8) == U32(SIZEOF_FILE_HEADER + format + SIZEOF_DATA_HEADER + payload - 8)
    ensures U32(U32(end) - SIZEOF_FILE_HEADER - format - SIZEOF_DATA_HEADER) == U32(payload)
  {
    U32Add(end, -(8));
    U32Add(end, -(SIZEOF_FILE_HEADER + format + SIZEOF_DATA_HEADER));
  }

  lemma WritesInOrder(headers: seq<byte>, payload: seq<byte>, a: seq<byte>, b: seq<byte>, c: seq<byte>)
    requires |headers| == |a| + |b| + |c| || (headers == [] && payload == [])
    ensures |WriteAt(headers + payload, 0, a)| >= |a|
    ensures |WriteAt(WriteAt(headers + payload, 0, a), |a|, b)| >= |a| + |b|
    ensures WriteAt(WriteAt(WriteAt(headers + payload, 0, a), |a|, b), |a| + |b|, c) == a + b + c + payload
  {
  }

  /** From a new recording stream through the finished file to the playing source: when the ring
      was never overrun and the format is one the reader takes, the reader's wave is exactly the
      bytes the stream accepted, in order, without the frames that the file did not take. */
  lemma RecordedWaveIsReadBack(f: Format, frameSize: nat, ops: seq<R.Op>)
    requires 0 < frameSize && |f.extra| < 0x1_0000 && R.NoOverrun(R.Initial(frameSize), ops)
    requires var bytes := R.WaitAll(R.Run(R.Initial(frameSize), ops)).payload;
      f.tag == WAVE_FORMAT_PCM && 0 < |bytes| < TWO_32 && PassesMask(|bytes|, f.blockAlign)
    ensures var accepted, outcomes := R.AcceptedIn(R.Initial(frameSize), ops), R.Outcomes(R.Initial(frameSize), ops);
      && Start(|outcomes|, frameSize) <= |accepted|
      && ParseAndRead(FinishedFile(f, R.WaitAll(R.Run(R.Initial(frameSize), ops)).payload), true)
         == Wave(f.(extra := []), R.Surviving(accepted, frameSize, outcomes))
  {
    R.StoppedFileHoldsLog(frameSize, ops);
    RoundTrip(f, R.WaitAll(R.Run(R.Initial(frameSize), ops)).payload);
  }
}
