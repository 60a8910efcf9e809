/** Byte layout of the RIFF/WAVE structures both drivers use: "Multimedia Programming Interface and
    Data Specifications 1.0", chapter 3, "Waveform Audio File Format (WAVE)". */
module WaveFormat {
  import opened Words

  const RIFF_TAG: nat := 0x46464952
  const WAVE_TAG: nat := 0x45564157
  const FMT_TAG: nat := 0x20746D66
  const DATA_TAG: nat := 0x61746164

  const WAVE_FORMAT_PCM: nat := 1
  const SIZEOF_PCMWAVEFORMAT: nat := 16
  const SIZEOF_WAVEFORMATEX: nat := 18

  type word = x: int | 0 <= x < 0x1_0000
  type dword = x: int | 0 <= x < TWO_32

  /** WAVEFORMATEX followed by its `cbSize` extra bytes. */
  datatype Format = Format(tag: word, channels: word, samplesPerSec: dword, avgBytesPerSec: dword,
                           blockAlign: word, bitsPerSample: word, extra: seq<byte>)

  // ------------------------------------------------------------- little-endian fields

  function LeBytes(x: nat, n: nat): (s: seq<byte>)
    ensures |s| == n
  {
    if n == 0 then [] else [x % 256] + LeBytes(x / 256, n - 1)
  }

  function LeValue(s: seq<byte>): nat {
    if s == [] then 0 else LeValue(s[1..]) * 256 + s[0]
  }

  function Pow256(n: nat): nat {
    if n == 0 then 1 else 256 * Pow256(n - 1)
  }

  lemma {:induction false} LeRoundTrip(x: nat, n: nat)
    requires x < Pow256(n)
    ensures LeValue(LeBytes(x, n)) == x
  {
    if n > 0 {
      LeRoundTrip(x / 256, n - 1);
      assert LeBytes(x, n)[1..] == LeBytes(x / 256, n - 1);
    }
  }

  lemma {:induction false} LeValueBound(s: seq<byte>)
    ensures LeValue(s) < Pow256(|s|)
  {
    if s != [] {
      LeValueBound(s[1..]);
    }
  }

  function Le16(x: word): (s: seq<byte>)
    ensures |s| == 2
  {
    LeBytes(x, 2)
  }

  function Le32(x: dword): (s: seq<byte>)
    ensures |s| == 4
  {
    LeBytes(x, 4)
  }

  function Get16(s: seq<byte>, at: nat): word
    requires at + 2 <= |s|
  {
    LeValueBound(s[at..at + 2]);
    LeValue(s[at..at + 2])
  }

  function Get32(s: seq<byte>, at: nat): dword
    requires at + 4 <= |s|
  {
    LeValueBound(s[at..at + 4]);
    assert Pow256(4) == TWO_32;
    LeValue(s[at..at + 4])
  }

  lemma Get16Le16(s: seq<byte>, at: nat, x: word)
    requires HoldsAt(s, at, Le16(x))
    ensures Get16(s, at) == x
  {
    LeRoundTrip(x, 2);
  }

  lemma Get32Le32(s: seq<byte>, at: nat, x: dword)
    requires HoldsAt(s, at, Le32(x))
    ensures Get32(s, at) == x
  {
    LeRoundTrip(x, 4);
  }

  /** Two and four bytes as numbers, the lowest first. */
  function Word(s: seq<byte>, at: nat): int
    requires at + 2 <= |s|
  {
    s[at] as int + 0x100 * (s[at + 1] as int)
  }

  function Dword(s: seq<byte>, at: nat): int
    requires at + 4 <= |s|
  {
    s[at] as int + 0x100 * (s[at + 1] as int) + 0x1_0000 * (s[at + 2] as int) + 0x100_0000 * (s[at + 3] as int)
  }

  lemma Get16Is(s: seq<byte>, at: nat)
    requires at + 2 <= |s|
    ensures Get16(s, at) == Word(s, at)
  {
    var b := s[at..at + 2];
    assert LeValue(b) == LeValue(b[1..]) * 256 + b[0];
    assert LeValue(b[1..]) == LeValue(b[1..][1..]) * 256 + b[1];
  }

  lemma Get32Is(s: seq<byte>, at: nat)
    requires at + 4 <= |s|
    ensures Get32(s, at) == Dword(s, at)
  {
    var b := s[at..at + 4];
    var b1, b2, b3 := b[1..], b[2..], b[3..];
    assert b[1..][1..] == b2 && b2[1..] == b3 && b3[1..] == [];
    assert LeValue(b3) == b[3];
    assert LeValue(b2) == LeValue(b3) * 256 + b[2];
    assert LeValue(b1) == LeValue(b2) * 256 + b[1];
  }

  /** The tags spell what they are called. */
  lemma TagsSpell()
    ensures Le32(RIFF_TAG) == [0x52, 0x49, 0x46, 0x46] && Le32(WAVE_TAG) == [0x57, 0x41, 0x56, 0x45]
    ensures Le32(FMT_TAG) == [0x66, 0x6D, 0x74, 0x20] && Le32(DATA_TAG) == [0x64, 0x61, 0x74, 0x61]
  {
    Le32Is(RIFF_TAG, 0x52, 0x49, 0x46, 0x46);
    Le32Is(WAVE_TAG, 0x57, 0x41, 0x56, 0x45);
    Le32Is(FMT_TAG, 0x66, 0x6D, 0x74, 0x20);
    Le32Is(DATA_TAG, 0x64, 0x61, 0x74, 0x61);
  }

  lemma Le32Is(x: dword, a: byte, b: byte, c: byte, d: byte)
    requires x == a as int + 0x100 * (b as int) + 0x1_0000 * (c as int) + 0x100_0000 * (d as int)
    ensures Le32(x) == [a, b, c, d]
  {
    LowestFirst(d, 0, 0);
    LowestFirst(c, d, 1);
    LowestFirst(b, c + 0x100 * (d as int), 2);
    LowestFirst(a, b + 0x100 * (c as int) + 0x1_0000 * (d as int), 3);
  }

  lemma LowestFirst(low: byte, rest: nat, n: nat)
    ensures LeBytes(low + 0x100 * rest, n + 1) == [low] + LeBytes(rest, n)
  {
    RemainderIsUnique(low + 0x100 * rest, 0x100, rest, low);
  }

  // ------------------------------------------------------------------- the format block

  function FormatLength(f: Format): nat {
    if f.tag == WAVE_FORMAT_PCM then SIZEOF_PCMWAVEFORMAT else SIZEOF_WAVEFORMATEX + |f.extra|
  }

  /** The PCMWAVEFORMAT part. */
  function PcmBytes(f: Format): (s: seq<byte>)
    ensures |s| == SIZEOF_PCMWAVEFORMAT
  {
    Le16(f.tag) + Le16(f.channels) + Le32(f.samplesPerSec) + Le32(f.avgBytesPerSec)
      + Le16(f.blockAlign) + Le16(f.bitsPerSample)
  }

  function FormatBytes(f: Format): (s: seq<byte>)
    requires |f.extra| < 0x1_0000
    ensures |s| == FormatLength(f)
  {
    if f.tag == WAVE_FORMAT_PCM then PcmBytes(f) else PcmBytes(f) + Le16(|f.extra|) + f.extra
  }

  /** Reading the fields back out of a WAVEFORMATEX. */
  function DecodeFormat(s: seq<byte>): Format
    requires |s| == SIZEOF_WAVEFORMATEX
  {
    Format(Get16(s, 0), Get16(s, 2), Get32(s, 4), Get32(s, 8), Get16(s, 12), Get16(s, 14), [])
  }

  /** The fields of a WAVEFORMATEX, byte by byte. */
  lemma DecodeFormatIs(s: seq<byte>)
    requires |s| == SIZEOF_WAVEFORMATEX
    ensures var f := DecodeFormat(s);
      && f.tag == Word(s, 0) && f.channels == Word(s, 2) && f.samplesPerSec == Dword(s, 4)
      && f.avgBytesPerSec == Dword(s, 8) && f.blockAlign == Word(s, 12) && f.bitsPerSample == Word(s, 14) && f.extra == []
  {
    Get16Is(s, 0);
    Get16Is(s, 2);
    Get32Is(s, 4);
    Get32Is(s, 8);
    Get16Is(s, 12);
    Get16Is(s, 14);
  }

  /** Where the fields of a PCMWAVEFORMAT at `p` lie, byte by byte. */
  lemma PcmFields(s: seq<byte>, p: nat, f: Format)
    requires HoldsAt(s, p, PcmBytes(f))
    ensures p + 16 <= |s|
    ensures Word(s, p) == f.tag && Word(s, p + 2) == f.channels && Dword(s, p + 4) == f.samplesPerSec
    ensures Dword(s, p + 8) == f.avgBytesPerSec && Word(s, p + 12) == f.blockAlign && Word(s, p + 14) == f.bitsPerSample
  {
    var a, b, c := Le16(f.tag), Le16(f.channels), Le32(f.samplesPerSec);
    var d, e, g := Le32(f.avgBytesPerSec), Le16(f.blockAlign), Le16(f.bitsPerSample);
    HoldsParts(s, p, a + b + c + d + e, g);
    HoldsParts(s, p, a + b + c + d, e);
    HoldsParts(s, p, a + b + c, d);
    HoldsParts(s, p, a + b, c);
    HoldsParts(s, p, a, b);
    WordAt(s, p, f.tag);
    WordAt(s, p + 2, f.channels);
    DwordAt(s, p + 4, f.samplesPerSec);
    DwordAt(s, p + 8, f.avgBytesPerSec);
    WordAt(s, p + 12, f.blockAlign);
    WordAt(s, p + 14, f.bitsPerSample);
  }

  lemma WordAt(s: seq<byte>, at: nat, x: word)
    requires HoldsAt(s, at, Le16(x))
    ensures at + 2 <= |s| && Word(s, at) == x
  {
    Get16Le16(s, at, x);
    Get16Is(s, at);
  }

  lemma DwordAt(s: seq<byte>, at: nat, x: dword)
    requires HoldsAt(s, at, Le32(x))
    ensures at + 4 <= |s| && Dword(s, at) == x
  {
    Get32Le32(s, at, x);
    Get32Is(s, at);
  }

  /** A block read over the front of a WAVEFORMATEX whose old content is `old18`. */
  lemma DecodePcm(f: Format, old18: seq<byte>)
    requires |old18| == SIZEOF_WAVEFORMATEX
    ensures DecodeFormat(Patch(old18, 0, PcmBytes(f))) == f.(extra := [])
  {
    var s := Patch(old18, 0, PcmBytes(f));
    assert HoldsAt(s, 0, PcmBytes(f));
    PcmFields(s, 0, f);
    DecodeFormatIs(s);
  }

  // ---------------------------------------------------------------- the alignment mask

  /** Bitwise and of two unsigned values. */
  function BitAnd(a: nat, b: nat): nat {
    if a == 0 || b == 0 then 0 else 2 * BitAnd(a / 2, b / 2) + (a % 2) * (b % 2)
  }

  /** (DataBlockSize & (nBlockAlign - 1)) == 0, the subtraction being done in 32 bits. */
  predicate PassesMask(size: nat, blockAlign: word) {
    BitAnd(size, U32(blockAlign - 1)) == 0
  }

  ghost predicate PowerOfTwo(x: nat)
    decreases x
  {
    x == 1 || (0 < x && x % 2 == 0 && PowerOfTwo(x / 2))
  }

  lemma {:induction false} MaskIsRemainder(size: nat, x: nat)
    requires PowerOfTwo(x)
    ensures BitAnd(size, x - 1) == size % x
    decreases x
  {
    if x > 1 && size > 0 {
      var h := x / 2;
      MaskIsRemainder(size / 2, h);
      assert (x - 1) / 2 == h - 1 && (x - 1) % 2 == 1;
      Halve(size, h);
    }
  }

  lemma Halve(size: nat, h: nat)
    requires 0 < h
    ensures size % (2 * h) == 2 * ((size / 2) % h) + size % 2
  {
    var q := (size / 2) / h;
    var rem := 2 * ((size / 2) % h) + size % 2;
    assert size / 2 == q * h + (size / 2) % h;
    assert size == (2 * h) * q + rem;
    RemainderIsUnique(size, 2 * h, q, rem);
  }

  lemma {:induction false} MaskOfItself(x: nat)
    requires 0 < x && BitAnd(x, x - 1) == 0
    ensures PowerOfTwo(x)
    decreases x
  {
    if x > 1 {
      if x % 2 == 1 {
        assert BitAnd(x, x - 1) == 2 * BitAnd(x / 2, x / 2) by {
          assert (x - 1) / 2 == x / 2 && (x - 1) % 2 == 0;
        }
        SelfAnd(x / 2);
      } else {
        assert (x - 1) / 2 == x / 2 - 1 && (x - 1) % 2 == 1;
        if x / 2 - 1 > 0 {
          MaskOfItself(x / 2);
        }
      }
    }
  }

  lemma BitSquare(b: nat)
    requires b < 2
    ensures b * b == b
  {
    if b == 1 {
      assert b * b == 1;
    }
  }

  lemma {:induction false} SelfAnd(x: nat)
    ensures BitAnd(x, x) == x
  {
    if x > 0 {
      SelfAnd(x / 2);
      BitSquare(x % 2);
    }
  }

  /** The mask accepts exactly the whole numbers of blocks if and only if the block size is a
      power of two; a six-byte block, say three 16-bit channels, is such a failing format. */
  lemma MaskMeansWholeBlocks(blockAlign: word)
    requires 0 < blockAlign
    ensures (forall size: nat :: PassesMask(size, blockAlign) <==> size % blockAlign == 0) <==> PowerOfTwo(blockAlign)
    ensures !PassesMask(6, 6)
  {
    if PowerOfTwo(blockAlign) {
      forall size: nat ensures PassesMask(size, blockAlign) <==> size % blockAlign == 0 {
        MaskIsRemainder(size, blockAlign);
      }
    } else {
      if PassesMask(blockAlign, blockAlign) {
        MaskOfItself(blockAlign);
      }
    }
    SixByteBlock();
  }

  lemma SixByteBlock()
    ensures !PassesMask(6, 6)
  {
    assert BitAnd(1, 1) == 1;
    assert BitAnd(3, 2) == 2 * BitAnd(1, 1) + 0;
    assert BitAnd(6, 5) == 2 * BitAnd(3, 2) + 0;
  }
}
