/** The RIFF/WAVE file CSaveData writes and the one CWaveObject parses. */
module WaveFile {
  import opened Words
  import opened WaveFormat

  // --------------------------------------------------------------- the writer's file

  const SIZEOF_FILE_HEADER: nat := 20
  const SIZEOF_DATA_HEADER: nat := 8

  function RiffHeader(fileSize: dword): (s: seq<byte>)
    ensures |s| == 12
  {
    Le32(RIFF_TAG) + Le32(fileSize) + Le32(WAVE_TAG)
  }

  /** OUTPUT_FILE_HEADER: the RIFF header and the start of the format block. */
  function FileHeader(fileSize: dword, formatLength: dword): (s: seq<byte>)
    ensures |s| == SIZEOF_FILE_HEADER
  {
    RiffHeader(fileSize) + (Le32(FMT_TAG) + Le32(formatLength))
  }

  /** OUTPUT_DATA_HEADER. */
  function DataHeader(dataLength: dword): (s: seq<byte>)
    ensures |s| == SIZEOF_DATA_HEADER
  {
    Le32(DATA_TAG) + Le32(dataLength)
  }

  /** What FileWriteHeader puts at the front of the file. */
  function Headers(f: Format, fileSize: dword, dataLength: dword): (s: seq<byte>)
    requires |f.extra| < 0x1_0000
    ensures |s| == HeadersLength(f)
  {
    FileHeader(fileSize, FormatLength(f)) + FormatBytes(f) + DataHeader(dataLength)
  }

  function HeadersLength(f: Format): nat {
    SIZEOF_FILE_HEADER + FormatLength(f) + SIZEOF_DATA_HEADER
  }

  /** The file a finished stream leaves; the lengths are cut to DWORDs. */
  function FinishedFile(f: Format, payload: seq<byte>): seq<byte>
    requires |f.extra| < 0x1_0000
  {
    FileOf(f, U32(HeadersLength(f) + |payload| - 8), U32(|payload|), payload)
  }

  function FileOf(f: Format, fileSize: dword, dataLength: dword, payload: seq<byte>): seq<byte>
    requires |f.extra| < 0x1_0000
  {
    Headers(f, fileSize, dataLength) + payload
  }

  /** A write at a position within or at the end of the file. */
  function WriteAt(file: seq<byte>, at: nat, data: seq<byte>): seq<byte>
    requires at <= |file|
  {
    if at + |data| <= |file| then Patch(file, at, data) else file[..at] + data
  }

  // --------------------------------------------------------------------- the parser

  datatype Block = Found(pos: nat, size: nat) | NotFound | Endless

  /** The read position after a block that is not the one sought: the size plus eight is added in
      32 bits, so one size moves nowhere. */
  function Advance(size: dword): nat {
    U32(size + 8)
  }

  function ParseForBlock(file: seq<byte>, tag: dword, pos: nat): Block
    decreases |file| - pos
  {
    if pos + 8 > |file| then NotFound
    else if Get32(file, pos) == tag then
      if Get32(file, pos + 4) == 0 then NotFound else Found(pos + 8, Get32(file, pos + 4))
    else if Advance(Get32(file, pos + 4)) == 0 then Endless
    else ParseForBlock(file, tag, pos + Advance(Get32(file, pos + 4)))
  }

  datatype Parsed =
    | Wave(format: Format, data: seq<byte>)
    | InvalidParameter
    | BlockNotFound
    | ReadFailed
    | NoMemory
    | NeverReturns

  const NEW_WAVEFORMATEX: seq<byte> := [0, 0, 0, 0, 0, 0, 0, 0, 0, 0, 0, 0, 0, 0, 0, 0, 0, 0]

  function ParseAndRead(file: seq<byte>, memory: bool): Parsed {
    if |file| < 12 then ReadFailed
    else if Get32(file, 0) != RIFF_TAG || Get32(file, 8) != WAVE_TAG then InvalidParameter
    else match ParseForBlock(file, FMT_TAG, 12)
      case Endless => NeverReturns
      case NotFound => BlockNotFound
      case Found(p, n) => ParseFormat(file, p, n, memory)
  }

  function ParseFormat(file: seq<byte>, p: nat, n: nat, memory: bool): Parsed {
    if n >= SIZEOF_WAVEFORMATEX then InvalidParameter
    else if p + n > |file| then ReadFailed
    else
      var f := DecodeFormat(Patch(NEW_WAVEFORMATEX, 0, file[p..p + n]));
      if f.tag != WAVE_FORMAT_PCM then InvalidParameter
      else ParseData(file, f, p + n, memory)
  }

  function ParseData(file: seq<byte>, f: Format, pos: nat, memory: bool): Parsed {
    match ParseForBlock(file, DATA_TAG, pos)
    case Endless => NeverReturns
    case NotFound => BlockNotFound
    case Found(q, m) =>
      if m == 0 || !PassesMask(m, f.blockAlign) then InvalidParameter
      else if !memory then NoMemory
      else if q + m > |file| then ReadFailed
      else Wave(f, file[q..q + m])
  }

  // ------------------------------------------------------------------ chunk sequences

  datatype Chunk = Chunk(tag: dword, body: seq<byte>)

  /** Sizes for which adding eight does not leave 32 bits. */
  predicate Sized(c: Chunk) {
    |c.body| < TWO_32 - 8
  }

  function ChunkBytes(c: Chunk): (s: seq<byte>)
    ensures |s| == 8 + |c.body|
  {
    Le32(c.tag) + Le32(U32(|c.body|)) + c.body
  }

  function ChunksBytes(cs: seq<Chunk>): seq<byte> {
    if cs == [] then [] else ChunkBytes(cs[0]) + ChunksBytes(cs[1..])
  }

  /** Chunks a scan for `tag` passes over. */
  ghost predicate Foreign(cs: seq<Chunk>, tag: dword) {
    forall c :: c in cs ==> Sized(c) && c.tag != tag
  }

  /** The header fields of a chunk that lies at `pos`. */
  lemma ChunkFields(file: seq<byte>, pos: nat, c: Chunk)
    requires |c.body| < TWO_32 && HoldsAt(file, pos, ChunkBytes(c))
    ensures pos + 8 + |c.body| <= |file|
    ensures Get32(file, pos) == c.tag && Get32(file, pos + 4) == |c.body|
    ensures HoldsAt(file, pos + 8, c.body)
  {
    var head := Le32(c.tag) + Le32(|c.body|);
    assert ChunkBytes(c) == head + c.body && |head| == 8;
    HoldsParts(file, pos, head, c.body);
    HoldsParts(file, pos, Le32(c.tag), Le32(|c.body|));
    Get32Le32(file, pos, c.tag);
    Get32Le32(file, pos + 4, |c.body|);
  }

  lemma SkipsOne(file: seq<byte>, tag: dword, pos: nat, c: Chunk)
    requires Sized(c) && c.tag != tag && HoldsAt(file, pos, ChunkBytes(c))
    ensures ParseForBlock(file, tag, pos) == ParseForBlock(file, tag, pos + 8 + |c.body|)
  {
    ChunkFields(file, pos, c);
    assert Advance(Get32(file, pos + 4)) == 8 + |c.body|;
  }

  /** The scan passes over any chunks that are not the one sought, to just behind them. */
  lemma {:induction false} SkipsForeignChunks(file: seq<byte>, tag: dword, pos: nat, cs: seq<Chunk>)
    requires Foreign(cs, tag)
    requires HoldsAt(file, pos, ChunksBytes(cs))
    ensures ParseForBlock(file, tag, pos) == ParseForBlock(file, tag, pos + |ChunksBytes(cs)|)
    decreases |cs|
  {
    if cs != [] {
      HoldsParts(file, pos, ChunkBytes(cs[0]), ChunksBytes(cs[1..]));
      SkipsOne(file, tag, pos, cs[0]);
      SkipsForeignChunks(file, tag, pos + |ChunkBytes(cs[0])|, cs[1..]);
    }
  }

  lemma FindsChunk(file: seq<byte>, pos: nat, c: Chunk)
    requires |c.body| < TWO_32 && HoldsAt(file, pos, ChunkBytes(c))
    ensures ParseForBlock(file, c.tag, pos) == if c.body == [] then NotFound else Found(pos + 8, |c.body|)
    ensures HoldsAt(file, pos + 8, c.body)
  {
    ChunkFields(file, pos, c);
  }

  // ------------------------------------------------------------------- main results

  /** What a parse of a file amounts to when its first "fmt " chunk has body `fmt` and the first
      "data" chunk behind it has body `data`. */
  function Meaning(fmt: seq<byte>, data: seq<byte>, memory: bool): Parsed {
    if fmt == [] then BlockNotFound
    else if |fmt| >= SIZEOF_WAVEFORMATEX then InvalidParameter
    else
      var f := DecodeFormat(Patch(NEW_WAVEFORMATEX, 0, fmt));
      if f.tag != WAVE_FORMAT_PCM then InvalidParameter else MeaningOfData(f, data, memory)
  }

  function MeaningOfData(f: Format, data: seq<byte>, memory: bool): Parsed {
    if data == [] then BlockNotFound
    else if !PassesMask(|data|, f.blockAlign) then InvalidParameter
    else if !memory then NoMemory
    else Wave(f, data)
  }

  /** A parse depends on the two chunks alone: not on the RIFF size, not on any other chunk before,
      between or behind them. The format chunk lies at `p`, the one sought next behind `q`. */
  lemma ParseIsMeaning(file: seq<byte>, before: seq<Chunk>, fmt: Chunk,
                       between: seq<Chunk>, data: Chunk, memory: bool, p: nat, q: nat)
    requires Foreign(before, FMT_TAG) && Foreign(between, DATA_TAG)
    requires fmt.tag == FMT_TAG && |fmt.body| < TWO_32 && data.tag == DATA_TAG && |data.body| < TWO_32
    requires p == 12 + |ChunksBytes(before)| && q == p + 8 + |fmt.body|
    requires IsWave(file) && HoldsAt(file, 12, ChunksBytes(before))
    requires HoldsAt(file, p, ChunkBytes(fmt)) && HoldsAt(file, q, ChunksBytes(between))
    requires HoldsAt(file, q + |ChunksBytes(between)|, ChunkBytes(data))
    ensures ParseAndRead(file, memory) == Meaning(fmt.body, data.body, memory)
  {
    DataForAll(file, q, between, data, memory);
    ParseUpToData(file, before, fmt, data.body, memory, p, q);
  }

  lemma ParseUpToData(file: seq<byte>, before: seq<Chunk>, fmt: Chunk, data: seq<byte>, memory: bool, p: nat, q: nat)
    requires Foreign(before, FMT_TAG) && fmt.tag == FMT_TAG && |fmt.body| < TWO_32
    requires p == 12 + |ChunksBytes(before)| && q == p + 8 + |fmt.body|
    requires IsWave(file) && HoldsAt(file, 12, ChunksBytes(before)) && HoldsAt(file, p, ChunkBytes(fmt))
    requires forall f: Format :: ParseData(file, f, q, memory) == MeaningOfData(f, data, memory)
    ensures ParseAndRead(file, memory) == Meaning(fmt.body, data, memory)
  {
    FormatPlace(file, before, fmt, p);
    FormatOfParse(file, p + 8, fmt.body, data, memory);
  }

  lemma DataForAll(file: seq<byte>, pos: nat, between: seq<Chunk>, data: Chunk, memory: bool)
    requires Foreign(between, DATA_TAG) && data.tag == DATA_TAG && |data.body| < TWO_32
    requires HoldsAt(file, pos, ChunksBytes(between))
    requires HoldsAt(file, pos + |ChunksBytes(between)|, ChunkBytes(data))
    ensures forall f: Format :: ParseData(file, f, pos, memory) == MeaningOfData(f, data.body, memory)
  {
    forall f: Format ensures ParseData(file, f, pos, memory) == MeaningOfData(f, data.body, memory) {
      DataOfParse(file, f, pos, between, data, memory);
    }
  }

  lemma FormatPlace(file: seq<byte>, before: seq<Chunk>, fmt: Chunk, p: nat)
    requires Foreign(before, FMT_TAG) && fmt.tag == FMT_TAG && |fmt.body| < TWO_32
    requires p == 12 + |ChunksBytes(before)|
    requires HoldsAt(file, 12, ChunksBytes(before)) && HoldsAt(file, p, ChunkBytes(fmt))
    ensures ParseForBlock(file, FMT_TAG, 12) == if fmt.body == [] then NotFound else Found(p + 8, |fmt.body|)
    ensures HoldsAt(file, p + 8, fmt.body)
  {
    ChunkBehind(file, 12, before, fmt);
  }

  /** A scan that starts at foreign chunks finds the chunk behind them. */
  lemma ChunkBehind(file: seq<byte>, pos: nat, cs: seq<Chunk>, c: Chunk)
    requires Foreign(cs, c.tag) && |c.body| < TWO_32
    requires HoldsAt(file, pos, ChunksBytes(cs)) && HoldsAt(file, pos + |ChunksBytes(cs)|, ChunkBytes(c))
    ensures var a := pos + |ChunksBytes(cs)| + 8;
      ParseForBlock(file, c.tag, pos) == if c.body == [] then NotFound else Found(a, |c.body|)
    ensures HoldsAt(file, pos + |ChunksBytes(cs)| + 8, c.body)
  {
    SkipsForeignChunks(file, c.tag, pos, cs);
    FindsChunk(file, pos + |ChunksBytes(cs)|, c);
  }

  ghost predicate IsWave(file: seq<byte>) {
    |file| >= 12 && Get32(file, 0) == RIFF_TAG && Get32(file, 8) == WAVE_TAG
  }

  lemma ParseFrom(file: seq<byte>, p: nat, n: nat, memory: bool)
    requires IsWave(file) && ParseForBlock(file, FMT_TAG, 12) == Found(p, n)
    ensures ParseAndRead(file, memory) == ParseFormat(file, p, n, memory)
  {
  }

  lemma ParseWithout(file: seq<byte>, memory: bool)
    requires IsWave(file) && ParseForBlock(file, FMT_TAG, 12) == NotFound
    ensures ParseAndRead(file, memory) == BlockNotFound
  {
  }

  lemma RiffHeaderFields(file: seq<byte>, fileSize: dword)
    requires HoldsAt(file, 0, RiffHeader(fileSize))
    ensures IsWave(file)
  {
    HoldsParts(file, 0, Le32(RIFF_TAG) + Le32(fileSize), Le32(WAVE_TAG));
    HoldsParts(file, 0, Le32(RIFF_TAG), Le32(fileSize));
    Get32Le32(file, 0, RIFF_TAG);
    Get32Le32(file, 8, WAVE_TAG);
  }

  /** The parse behind the RIFF header, given what follows the format block. */
  lemma FormatOfParse(file: seq<byte>, p: nat, fmt: seq<byte>, data: seq<byte>, memory: bool)
    requires IsWave(file) && HoldsAt(file, p, fmt)
    requires ParseForBlock(file, FMT_TAG, 12) == if fmt == [] then NotFound else Found(p, |fmt|)
    requires forall f: Format :: ParseData(file, f, p + |fmt|, memory) == MeaningOfData(f, data, memory)
    ensures ParseAndRead(file, memory) == Meaning(fmt, data, memory)
  {
    if fmt == [] {
      ParseWithout(file, memory);
    } else {
      ParseFrom(file, p, |fmt|, memory);
      ReadsBack(file, p, fmt);
    }
  }

  lemma ReadsBack<T>(s: seq<T>, at: nat, data: seq<T>)
    requires HoldsAt(s, at, data)
    ensures at + |data| <= |s| && s[at..at + |data|] == data
  {
  }

  lemma DataOfParse(file: seq<byte>, f: Format, pos: nat, between: seq<Chunk>, data: Chunk, memory: bool)
    requires Foreign(between, DATA_TAG)
    requires data.tag == DATA_TAG && |data.body| < TWO_32
    requires HoldsAt(file, pos, ChunksBytes(between))
    requires HoldsAt(file, pos + |ChunksBytes(between)|, ChunkBytes(data))
    ensures ParseData(file, f, pos, memory) == MeaningOfData(f, data.body, memory)
  {
    ChunkBehind(file, pos, between, data);
    if data.body != [] {
      ReadsBack(file, pos + |ChunksBytes(between)| + 8, data.body);
    }
  }

  /** The finished file of a stream read back: PCM streams whose payload is not empty and passes
      the block mask give the same format and the same bytes; nothing else parses. */
  lemma RoundTrip(f: Format, payload: seq<byte>)
    requires |f.extra| < 0x1_0000 && |payload| < TWO_32
    ensures ParseAndRead(FinishedFile(f, payload), true)
         == if f.tag != WAVE_FORMAT_PCM then InvalidParameter
            else if payload == [] then BlockNotFound
            else if !PassesMask(|payload|, f.blockAlign) then InvalidParameter
            else Wave(f.(extra := []), payload)
  {
    FinishedFileMeaning(f, payload);
    MeaningOfFormat(f, payload);
  }

  /** Of every file: what parses as a wave is PCM, not empty, passes the mask and stands in the file, and
      takes memory. */
  lemma WavesAreSound(file: seq<byte>, memory: bool)
    requires ParseAndRead(file, memory).Wave?
    ensures var w := ParseAndRead(file, memory);
      && memory && w.format.tag == 1 && w.data != [] && PassesMask(|w.data|, w.format.blockAlign)
      && (exists q: nat :: HoldsAt(file, q, w.data))
      && |file| >= 12 && Dword(file, 0) == 0x46464952 && Dword(file, 8) == 0x45564157
  {
    Get32Is(file, 0);
    Get32Is(file, 8);
    var fmt := ParseForBlock(file, FMT_TAG, 12);
    assert ParseFormat(file, fmt.pos, fmt.size, memory).Wave?;
    FormatIsSound(file, fmt.pos, fmt.size, memory);
  }

  lemma FormatIsSound(file: seq<byte>, p: nat, n: nat, memory: bool)
    requires ParseFormat(file, p, n, memory).Wave?
    ensures var w := ParseFormat(file, p, n, memory);
      && memory && w.format.tag == 1 && w.data != [] && PassesMask(|w.data|, w.format.blockAlign)
      && (exists q: nat :: HoldsAt(file, q, w.data))
  {
    var f := DecodeFormat(Patch(NEW_WAVEFORMATEX, 0, file[p..p + n]));
    assert ParseFormat(file, p, n, memory) == ParseData(file, f, p + n, memory);
    DataIsSound(file, f, p + n, memory);
  }

  lemma DataIsSound(file: seq<byte>, f: Format, pos: nat, memory: bool)
    requires ParseData(file, f, pos, memory).Wave?
    ensures var w := ParseData(file, f, pos, memory);
      && memory && w.format == f && w.data != [] && PassesMask(|w.data|, f.blockAlign)
      && (exists q: nat :: HoldsAt(file, q, w.data))
  {
    var data := ParseForBlock(file, DATA_TAG, pos);
    assert HoldsAt(file, data.pos, ParseData(file, f, pos, memory).data);
  }

  /** Without memory for the data the same files fail, and those that would parse with NoMemory. */
  lemma WithoutMemory(f: Format, payload: seq<byte>)
    requires |f.extra| < 0x1_0000 && |payload| < TWO_32
    ensures var with := ParseAndRead(FinishedFile(f, payload), true);
      ParseAndRead(FinishedFile(f, payload), false) == if with.Wave? then NoMemory else with
  {
    var n := U32(HeadersLength(f) + |payload| - 8);
    FinishedFileLayout(f, payload);
    RiffHeaderFields(FinishedFile(f, payload), n);
    forall memory ensures ParseAndRead(FinishedFile(f, payload), memory) == Meaning(FormatBytes(f), payload, memory) {
      ParseIsMeaning(FinishedFile(f, payload), [], Chunk(FMT_TAG, FormatBytes(f)), [],
                     Chunk(DATA_TAG, payload), memory, 12, 20 + FormatLength(f));
    }
  }

  lemma FinishedFileMeaning(f: Format, payload: seq<byte>)
    requires |f.extra| < 0x1_0000 && |payload| < TWO_32
    ensures ParseAndRead(FinishedFile(f, payload), true) == Meaning(FormatBytes(f), payload, true)
  {
    var n := U32(HeadersLength(f) + |payload| - 8);
    FinishedFileLayout(f, payload);
    RiffHeaderFields(FinishedFile(f, payload), n);
    ParseIsMeaning(FinishedFile(f, payload), [], Chunk(FMT_TAG, FormatBytes(f)), [],
                   Chunk(DATA_TAG, payload), true, 12, 20 + FormatLength(f));
  }

  /** A PCM stream's format block is the 16-byte one the reader takes. */
  lemma MeaningOfFormat(f: Format, payload: seq<byte>)
    requires |f.extra| < 0x1_0000
    ensures Meaning(FormatBytes(f), payload, true)
         == if f.tag != WAVE_FORMAT_PCM then InvalidParameter else MeaningOfData(f.(extra := []), payload, true)
  {
    if f.tag == WAVE_FORMAT_PCM {
      DecodePcm(f, NEW_WAVEFORMATEX);
    }
  }

  lemma FinishedFileLayout(f: Format, payload: seq<byte>)
    requires |f.extra| < 0x1_0000 && |payload| < TWO_32
    ensures var file := FinishedFile(f, payload);
      && HoldsAt(file, 0, RiffHeader(U32(HeadersLength(f) + |payload| - 8)))
      && HoldsAt(file, 12, ChunkBytes(Chunk(FMT_TAG, FormatBytes(f))))
      && HoldsAt(file, 20 + FormatLength(f), ChunkBytes(Chunk(DATA_TAG, payload)))
  {
    U32Small(|payload|);
    ChunkParts(Chunk(FMT_TAG, FormatBytes(f)));
    ChunkParts(Chunk(DATA_TAG, payload));
    FileLayout(f, U32(HeadersLength(f) + |payload| - 8), |payload|, payload);
  }

  /** The file byte by byte: the tags as they are spelled, the sizes and the format's fields at their
      places, and the payload behind them. */
  ghost predicate SpellsOut(file: seq<byte>, f: Format, payload: seq<byte>) {
    var n := if f.tag == 1 then 16 else 18 + |f.extra|;
    && |file| == 28 + n + |payload|
    && file[0..4] == [0x52, 0x49, 0x46, 0x46] && Dword(file, 4) == U32(|file| - 8)
    && file[8..12] == [0x57, 0x41, 0x56, 0x45]
    && file[12..16] == [0x66, 0x6D, 0x74, 0x20] && Dword(file, 16) == n
    && Word(file, 20) == f.tag && Word(file, 22) == f.channels && Dword(file, 24) == f.samplesPerSec
    && Dword(file, 28) == f.avgBytesPerSec && Word(file, 32) == f.blockAlign && Word(file, 34) == f.bitsPerSample
    && (f.tag != 1 ==> Word(file, 36) == |f.extra| && file[38..38 + |f.extra|] == f.extra)
    && file[20 + n..24 + n] == [0x64, 0x61, 0x74, 0x61] && Dword(file, 24 + n) == |payload|
    && file[28 + n..] == payload
  }

  lemma FileBytes(f: Format, payload: seq<byte>)
    requires |f.extra| < 0x1_0000 && |payload| < TWO_32
    ensures SpellsOut(FinishedFile(f, payload), f, payload)
  {
    FinishedFileLayout(f, payload);
    LayoutSpells(FinishedFile(f, payload), f, payload);
  }

  lemma LayoutSpells(file: seq<byte>, f: Format, payload: seq<byte>)
    requires |f.extra| < 0x1_0000 && |payload| < TWO_32 && |file| == HeadersLength(f) + |payload|
    requires HoldsAt(file, 0, RiffHeader(U32(|file| - 8))) && HoldsAt(file, 12, ChunkBytes(Chunk(FMT_TAG, FormatBytes(f))))
    requires HoldsAt(file, 20 + FormatLength(f), ChunkBytes(Chunk(DATA_TAG, payload)))
    ensures SpellsOut(file, f, payload)
  {
    var n, format := FormatLength(f), FormatBytes(f);
    RiffBytes(file, U32(|file| - 8));
    ChunkHead(file, 12, Chunk(FMT_TAG, format));
    FormatFields(file, 20, f);
    ChunkHead(file, 20 + n, Chunk(DATA_TAG, payload));
    TailIs(file, 28 + n, payload);
    assert Le32(RIFF_TAG) == [0x52, 0x49, 0x46, 0x46] && Le32(WAVE_TAG) == [0x57, 0x41, 0x56, 0x45]
        && Le32(FMT_TAG) == [0x66, 0x6D, 0x74, 0x20] && Le32(DATA_TAG) == [0x64, 0x61, 0x74, 0x61] by {
      TagsSpell();
    }
  }

  lemma TailIs<T>(s: seq<T>, at: nat, data: seq<T>)
    requires HoldsAt(s, at, data) && |s| == at + |data|
    ensures s[at..] == data
  {
  }

  lemma RiffBytes(file: seq<byte>, size: dword)
    requires HoldsAt(file, 0, RiffHeader(size))
    ensures |file| >= 12 && file[0..4] == Le32(RIFF_TAG) && Dword(file, 4) == size && file[8..12] == Le32(WAVE_TAG)
  {
    HoldsParts(file, 0, Le32(RIFF_TAG) + Le32(size), Le32(WAVE_TAG));
    HoldsParts(file, 0, Le32(RIFF_TAG), Le32(size));
    DwordAt(file, 4, size);
  }

  lemma ChunkHead(file: seq<byte>, pos: nat, c: Chunk)
    requires |c.body| < TWO_32 && HoldsAt(file, pos, ChunkBytes(c))
    ensures pos + 8 + |c.body| <= |file|
    ensures file[pos..pos + 4] == Le32(c.tag) && Dword(file, pos + 4) == |c.body| && HoldsAt(file, pos + 8, c.body)
  {
    var head := Le32(c.tag) + Le32(|c.body|);
    assert ChunkBytes(c) == head + c.body && |head| == 8;
    HoldsParts(file, pos, head, c.body);
    HoldsParts(file, pos, Le32(c.tag), Le32(|c.body|));
    DwordAt(file, pos + 4, |c.body|);
  }

  lemma FormatFields(file: seq<byte>, p: nat, f: Format)
    requires |f.extra| < 0x1_0000 && HoldsAt(file, p, FormatBytes(f))
    ensures HoldsAt(file, p, PcmBytes(f)) && p + 16 <= |file|
    ensures Word(file, p) == f.tag && Word(file, p + 2) == f.channels && Dword(file, p + 4) == f.samplesPerSec
    ensures Dword(file, p + 8) == f.avgBytesPerSec && Word(file, p + 12) == f.blockAlign && Word(file, p + 14) == f.bitsPerSample
    ensures f.tag != WAVE_FORMAT_PCM ==> p + 18 + |f.extra| <= |file| && Word(file, p + 16) == |f.extra|
    ensures f.tag != WAVE_FORMAT_PCM ==> file[p + 18..p + 18 + |f.extra|] == f.extra
  {
    if f.tag != WAVE_FORMAT_PCM {
      HoldsParts(file, p, PcmBytes(f) + Le16(|f.extra|), f.extra);
      HoldsParts(file, p, PcmBytes(f), Le16(|f.extra|));
      WordAt(file, p + 16, |f.extra|);
    }
    PcmFields(file, p, f);
  }

  lemma FileLayout(f: Format, fileSize: dword, dataLength: dword, payload: seq<byte>)
    requires |f.extra| < 0x1_0000
    ensures var file := FileOf(f, fileSize, dataLength, payload);
      && HoldsAt(file, 0, RiffHeader(fileSize))
      && HoldsAt(file, 12, Le32(FMT_TAG) + Le32(FormatLength(f)) + FormatBytes(f))
      && HoldsAt(file, 20 + FormatLength(f), DataHeader(dataLength) + payload)
  {
    HeadersParts(f, fileSize, dataLength);
    Layout(RiffHeader(fileSize), Le32(FMT_TAG) + Le32(FormatLength(f)), FormatBytes(f),
           DataHeader(dataLength), payload);
  }

  lemma ChunkParts(c: Chunk)
    requires |c.body| < TWO_32
    ensures ChunkBytes(c) == Le32(c.tag) + Le32(|c.body|) + c.body
  {
  }

  lemma HeadersParts(f: Format, fileSize: dword, dataLength: dword)
    requires |f.extra| < 0x1_0000
    ensures Headers(f, fileSize, dataLength)
         == RiffHeader(fileSize) + (Le32(FMT_TAG) + Le32(FormatLength(f))) + FormatBytes(f) + DataHeader(dataLength)
  {
  }

  lemma Layout<T>(riff: seq<T>, start: seq<T>, fmt: seq<T>, head: seq<T>, payload: seq<T>)
    ensures var file := riff + start + fmt + head + payload;
      && HoldsAt(file, 0, riff)
      && HoldsAt(file, |riff|, start + fmt)
      && HoldsAt(file, |riff| + |start| + |fmt|, head + payload)
  {
  }

  // ------------------------------------------------- the scan that does not end

  /** Some block the scan starting at `pos` looks at. */
  ghost predicate Visits(file: seq<byte>, tag: dword, pos: nat, p: nat)
    decreases |file| - pos
  {
    pos + 8 <= |file| && (p == pos ||
      (Get32(file, pos) != tag && Advance(Get32(file, pos + 4)) != 0
       && Visits(file, tag, pos + Advance(Get32(file, pos + 4)), p)))
  }

  /** A foreign block whose size plus eight is 0 in 32 bits. */
  ghost predicate Holds(file: seq<byte>, tag: dword, p: nat) {
    p + 8 <= |file| && Get32(file, p) != tag && Get32(file, p + 4) == TWO_32 - 8
  }

  lemma {:induction false} HeldScan(file: seq<byte>, tag: dword, pos: nat, p: nat)
    requires Visits(file, tag, pos, p) && Holds(file, tag, p)
    ensures ParseForBlock(file, tag, pos) == Endless
    decreases |file| - pos
  {
    if p != pos {
      HeldScan(file, tag, pos + Advance(Get32(file, pos + 4)), p);
    }
  }

  lemma {:induction false} EndlessIsHeld(file: seq<byte>, tag: dword, pos: nat) returns (p: nat)
    requires ParseForBlock(file, tag, pos) == Endless
    ensures Visits(file, tag, pos, p) && Holds(file, tag, p)
    decreases |file| - pos
  {
    var step := Advance(Get32(file, pos + 4));
    if step == 0 {
      p := pos;
    } else {
      p := EndlessIsHeld(file, tag, pos + step);
    }
  }

  /** The reading loop pass by pass. */
  datatype Scan = Reading(pos: nat) | Ended(block: Block)

  function Pass(file: seq<byte>, tag: dword, s: Scan): Scan {
    match s
    case Ended(_) => s
    case Reading(pos) =>
      if pos + 8 > |file| then Ended(NotFound)
      else if Get32(file, pos) == tag then
        Ended(if Get32(file, pos + 4) == 0 then NotFound else Found(pos + 8, Get32(file, pos + 4)))
      else Reading(pos + Advance(Get32(file, pos + 4)))
  }

  function Passes(file: seq<byte>, tag: dword, s: Scan, n: nat): Scan
    decreases n
  {
    if n == 0 then s else Passes(file, tag, Pass(file, tag, s), n - 1)
  }

  lemma {:induction false} EndlessReads(file: seq<byte>, tag: dword, pos: nat, n: nat)
    requires ParseForBlock(file, tag, pos) == Endless
    ensures Passes(file, tag, Reading(pos), n).Reading?
    decreases n
  {
    if n > 0 {
      EndlessReads(file, tag, pos + Advance(Get32(file, pos + 4)), n - 1);
    }
  }

  lemma {:induction false} ScanEnds(file: seq<byte>, tag: dword, pos: nat) returns (n: nat)
    requires ParseForBlock(file, tag, pos) != Endless
    ensures Passes(file, tag, Reading(pos), n) == Ended(ParseForBlock(file, tag, pos))
    decreases |file| - pos
  {
    if pos + 8 > |file| || Get32(file, pos) == tag {
      n := 1;
      assert Passes(file, tag, Reading(pos), 1) == Passes(file, tag, Pass(file, tag, Reading(pos)), 0);
    } else {
      assert Advance(Get32(file, pos + 4)) > 0;
      n := ScanEnds(file, tag, pos + Advance(Get32(file, pos + 4)));
      n := n + 1;
    }
  }

  /** The loop still reads after any number of passes if and only if it comes to a foreign block of
      size 2^32 - 8. */
  lemma EndlessIff(file: seq<byte>, tag: dword, pos: nat)
    ensures (forall n: nat :: Passes(file, tag, Reading(pos), n).Reading?)
        <==> exists p: nat :: Visits(file, tag, pos, p) && Holds(file, tag, p)
    ensures ParseForBlock(file, tag, pos) == Endless <==> forall n: nat :: Passes(file, tag, Reading(pos), n).Reading?
  {
    if ParseForBlock(file, tag, pos) == Endless {
      var p := EndlessIsHeld(file, tag, pos);
      forall n: nat ensures Passes(file, tag, Reading(pos), n).Reading? {
        EndlessReads(file, tag, pos, n);
      }
    } else {
      var n := ScanEnds(file, tag, pos);
    }
    forall p: nat | Visits(file, tag, pos, p) && Holds(file, tag, p)
      ensures ParseForBlock(file, tag, pos) == Endless
    {
      HeldScan(file, tag, pos, p);
    }
  }

  /** In a list of chunks: one of the size 2^32 - 8, and the one sought not before it. */
  ghost predicate Holding(cs: seq<Chunk>, tag: dword, i: nat) {
    i < |cs| && |cs[i].body| == TWO_32 - 8 && forall j :: 0 <= j <= i ==> cs[j].tag != tag
  }

  /** For a file that is a list of chunks of up to that size, the scan does not end if and only if a
      chunk of exactly that size comes before any with the tag sought. */
  lemma {:induction false} ChunksEndlessIff(file: seq<byte>, tag: dword, pos: nat, cs: seq<Chunk>)
    requires HoldsAt(file, pos, ChunksBytes(cs)) && pos + |ChunksBytes(cs)| == |file|
    requires forall i :: 0 <= i < |cs| ==> |cs[i].body| <= TWO_32 - 8
    ensures ParseForBlock(file, tag, pos) == Endless <==> exists i: nat :: Holding(cs, tag, i)
    decreases |cs|
  {
    if cs != [] {
      HoldsParts(file, pos, ChunkBytes(cs[0]), ChunksBytes(cs[1..]));
      ChunkFields(file, pos, cs[0]);
      if cs[0].tag != tag && |cs[0].body| == TWO_32 - 8 {
        assert Holding(cs, tag, 0);
      } else if cs[0].tag != tag {
        SkipsOne(file, tag, pos, cs[0]);
        ChunksEndlessIff(file, tag, pos + |ChunkBytes(cs[0])|, cs[1..]);
        HoldingLater(cs, tag);
      }
    }
  }

  lemma HoldingLater(cs: seq<Chunk>, tag: dword)
    requires cs != [] && cs[0].tag != tag && |cs[0].body| != TWO_32 - 8
    ensures (exists i: nat :: Holding(cs, tag, i)) <==> exists i: nat :: Holding(cs[1..], tag, i)
  {
    if i: nat :| Holding(cs, tag, i) {
      assert Holding(cs[1..], tag, i - 1);
    }
    if i: nat :| Holding(cs[1..], tag, i) {
      forall j | 0 <= j <= i + 1 ensures cs[j].tag != tag {
        assert j > 0 ==> cs[j] == cs[1..][j - 1];
      }
      assert Holding(cs, tag, i + 1);
    }
  }

  /** A file of twenty bytes that keeps the reader for ever. */
  lemma EndlessExample()
    ensures ParseAndRead(RiffHeader(12) + (Le32(0) + Le32(TWO_32 - 8)), true) == NeverReturns
  {
    var head, block := RiffHeader(12), Le32(0) + Le32(TWO_32 - 8);
    var file := head + block;
    assert HoldsAt(file, 0, head) && HoldsAt(file, 12, block);
    RiffHeaderFields(file, 12);
    HoldsParts(file, 12, Le32(0), Le32(TWO_32 - 8));
    Get32Le32(file, 12, 0);
    Get32Le32(file, 16, TWO_32 - 8);
    assert Visits(file, FMT_TAG, 12, 12) && Holds(file, FMT_TAG, 12);
    HeldScan(file, FMT_TAG, 12, 12);
  }
}
