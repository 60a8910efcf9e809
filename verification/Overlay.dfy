/** Color bars and text on the synthesis image of avstream/avshws (image.cpp) as functions on the
    buffer's bytes, and what they make of every single pixel. */
module Overlay {
  import opened Words
  import opened Pixels

  /** A buffer's geometry. */
  datatype Surface = Surface(kind: Kind, width: nat, height: nat)

  /** Packed 4:2:2 images have an even width. */
  ghost predicate Holds(s: Surface, buf: seq<byte>) {
    (s.kind.Yuy2? ==> s.width % 2 == 0) && At(s.kind, Start(s.height, s.width)) <= |buf|
  }

  /** Flipped images are stored bottom row first. */
  function MemoryRow(s: Surface, y: nat): nat
    requires y < s.height
  {
    if s.kind.Rgb24? && s.kind.flipVertical then s.height - 1 - y else y
  }

  /** Pixel (x, y) counted in memory order. */
  function Index(s: Surface, x: nat, y: nat): nat
    requires y < s.height
  {
    Start(MemoryRow(s, y), s.width) + x
  }

  function PixelAt(s: Surface, buf: seq<byte>, x: nat, y: nat): Dot
    requires Holds(s, buf) && x < s.width && y < s.height
  {
    InBuffer(s, buf, x, y, 1);
    Pixel(s.kind, buf, Index(s, x, y))
  }

  /** A color at column `x`: all rows start alike. */
  function ColorAt(s: Surface, x: nat, c: Color): Dot {
    Colored(s.kind, x, c)
  }

  /** A run of pixels inside a row lies inside the buffer. */
  lemma InBuffer(s: Surface, buf: seq<byte>, x: nat, y: nat, n: nat)
    requires Holds(s, buf) && y < s.height && x + n <= s.width
    ensures At(s.kind, Index(s, x, y) + n) <= |buf|
  {
    StartMono(MemoryRow(s, y) + 1, s.height, s.width);
    AtMono(s.kind, Index(s, x, y) + n, Start(s.height, s.width));
  }

  lemma {:induction false} EvenRows(m: nat, width: nat)
    requires width % 2 == 0
    ensures Start(m, width) % 2 == 0
  {
    if m > 0 {
      EvenRows(m - 1, width);
    }
  }

  /** Pixels of one column have the same parity. */
  lemma SameParity(s: Surface, x: nat, y: nat)
    requires y < s.height && (s.kind.Yuy2? ==> s.width % 2 == 0)
    ensures s.kind.Yuy2? ==> Index(s, x, y) % 2 == x % 2
    ensures forall c :: Colored(s.kind, Index(s, x, y), c) == ColorAt(s, x, c)
  {
    if s.kind.Yuy2? {
      EvenRows(MemoryRow(s, y), s.width);
    }
  }

  /** A run inside row `line` contains the pixel (px, py) exactly when their rows and columns say so. */
  lemma OnRun(s: Surface, x: nat, line: nat, n: nat, px: nat, py: nat)
    requires line < s.height && py < s.height && x + n <= s.width && px < s.width
    ensures Index(s, x, line) <= Index(s, px, py) < Index(s, x, line) + n <==> py == line && x <= px < x + n
  {
    var a, b := MemoryRow(s, line), MemoryRow(s, py);
    if a < b {
      StartMono(a + 1, b, s.width);
    } else if b < a {
      StartMono(b + 1, a, s.width);
    }
  }

  // ----------------------------------------------------------------- one line at a time

  function Line(s: Surface, buf: seq<byte>, x: nat, line: nat, cs: seq<Color>): (r: seq<byte>)
    requires Holds(s, buf) && line < s.height && x + |cs| <= s.width
    ensures |r| == |buf|
  {
    InBuffer(s, buf, x, line, |cs|);
    PutAll(s.kind, buf, Index(s, x, line), cs)
  }

  function CopyLine(s: Surface, buf: seq<byte>, x: nat, from: nat, to: nat, n: nat): (r: seq<byte>)
    requires Holds(s, buf) && from < s.height && to < s.height && x + n <= s.width
    ensures |r| == |buf|
  {
    InBuffer(s, buf, x, from, n);
    InBuffer(s, buf, x, to, n);
    SameParity(s, x, from);
    SameParity(s, x, to);
    Copy(s.kind, buf, Index(s, x, from), Index(s, x, to), n)
  }

  /** A color over what was there. */
  function Over(s: Surface, x: nat, c: Color, below: Dot): Dot {
    if c == TRANSPARENT then below else ColorAt(s, x, c)
  }

  lemma LinePixel(s: Surface, buf: seq<byte>, x: nat, line: nat, cs: seq<Color>, px: nat, py: nat)
    requires Holds(s, buf) && line < s.height && x + |cs| <= s.width && px < s.width && py < s.height
    ensures PixelAt(s, Line(s, buf, x, line, cs), px, py)
         == if py == line && x <= px < x + |cs| then Over(s, px, cs[px - x], PixelAt(s, buf, px, py)) else PixelAt(s, buf, px, py)
  {
    InBuffer(s, buf, x, line, |cs|);
    InBuffer(s, buf, px, py, 1);
    OnRun(s, x, line, |cs|, px, py);
    SameParity(s, px, py);
    PutAllPixel(s.kind, buf, Index(s, x, line), cs, Index(s, px, py));
  }

  lemma CopyLinePixel(s: Surface, buf: seq<byte>, x: nat, from: nat, to: nat, n: nat, px: nat, py: nat)
    requires Holds(s, buf) && from < s.height && to < s.height && x + n <= s.width && px < s.width && py < s.height
    ensures PixelAt(s, CopyLine(s, buf, x, from, to, n), px, py)
         == if py == to && x <= px < x + n then PixelAt(s, buf, px, from) else PixelAt(s, buf, px, py)
  {
    InBuffer(s, buf, x, from, n);
    InBuffer(s, buf, x, to, n);
    InBuffer(s, buf, px, py, 1);
    OnRun(s, x, to, n, px, py);
    SameParity(s, x, from);
    SameParity(s, x, to);
    CopyPixel(s.kind, buf, Index(s, x, from), Index(s, x, to), n, Index(s, px, py));
  }

  lemma CopyLineOn(s: Surface, buf: seq<byte>, x: nat, from: nat, to: nat, n: nat, px: nat)
    requires Holds(s, buf) && from < s.height && to < s.height && x + n <= s.width && x <= px < x + n
    ensures PixelAt(s, CopyLine(s, buf, x, from, to, n), px, to) == PixelAt(s, buf, px, from)
  {
    CopyLinePixel(s, buf, x, from, to, n, px, to);
  }

  lemma CopyLineOff(s: Surface, buf: seq<byte>, x: nat, from: nat, to: nat, n: nat, px: nat, py: nat)
    requires Holds(s, buf) && from < s.height && to < s.height && x + n <= s.width && px < s.width && py < s.height
    requires py != to || px < x || px >= x + n
    ensures PixelAt(s, CopyLine(s, buf, x, from, to, n), px, py) == PixelAt(s, buf, px, py)
  {
    CopyLinePixel(s, buf, x, from, to, n, px, py);
  }

  // -------------------------------------------------------------------------- bars

  /** g_ColorBars. */
  function Bar(i: nat): Color
    requires i < 8
  {
    if i < 4 then (if i == 0 then WHITE else if i == 1 then YELLOW else if i == 2 then CYAN else GREEN)
    else (if i == 4 then MAGENTA else if i == 5 then RED else if i == 6 then BLUE else BLACK)
  }

  /** The bar of column `x`, the product being kept in a ULONG. */
  function BarIndex(x: nat, width: nat): (i: nat)
    requires x < width < TWO_32
    ensures i < 8
  {
    BarInRange(x, width);
    U32(x * 8) / width
  }

  lemma BarInRange(x: nat, width: nat)
    requires x < width < TWO_32
    ensures 0 <= U32(x * 8) / width < 8
  {
    var q, p := U32(x * 8) / width, U32(x * 8);
    assert p == width * q + p % width;
    assert p <= x * 8 by {
      assert x * 8 == TWO_32 * (x * 8 / TWO_32) + p;
    }
    MultipleIsLarge(width, q - 7);
    assert width * q == width * (q - 7) + width * 7;
    MultipleIsLarge(width, q);
  }

  function BarRow(width: nat): (r: seq<Color>)
    requires width < TWO_32
    ensures |r| == width
  {
    seq(width, x requires 0 <= x < width => Bar(BarIndex(x, width)))
  }

  /** The first row put, then copied to the rows below it up to `lines`. */
  function BarsTo(s: Surface, buf: seq<byte>, lines: nat): (r: seq<byte>)
    requires Holds(s, buf) && s.width < TWO_32 && 0 < lines <= s.height
    ensures |r| == |buf|
  {
    if lines == 1 then Line(s, buf, 0, 0, BarRow(s.width))
    else CopyLine(s, BarsTo(s, buf, lines - 1), 0, 0, lines - 1, s.width)
  }

  lemma {:induction false} BarsToPixel(s: Surface, buf: seq<byte>, lines: nat, px: nat, py: nat)
    requires Holds(s, buf) && s.width < TWO_32 && 0 < lines <= s.height && px < s.width && py < s.height
    ensures py < lines ==> PixelAt(s, BarsTo(s, buf, lines), px, py) == ColorAt(s, px, Bar(BarIndex(px, s.width)))
    decreases lines
  {
    if lines == 1 {
      LinePixel(s, buf, 0, 0, BarRow(s.width), px, py);
    } else {
      BarsToPixel(s, buf, lines - 1, px, py);
      BarsToPixel(s, buf, lines - 1, px, 0);
      CopyLinePixel(s, BarsTo(s, buf, lines - 1), 0, 0, lines - 1, s.width, px, py);
    }
  }

  /** The bars are the eighths of the width for every column if and only if eight times the width
      does not leave 33 bits, that is up to 2^29 columns. */
  lemma BarsAreEighthsIff(width: nat)
    requires 0 < width < TWO_32
    ensures (forall x: nat | x < width :: BarIndex(x, width) == x * 8 / width) <==> width <= 0x2000_0000
  {
    if width <= 0x2000_0000 {
      forall x: nat | x < width ensures BarIndex(x, width) == x * 8 / width {
        assert U32(x * 8) == x * 8;
      }
    } else {
      var x := 0x2000_0000;
      assert U32(x * 8) == 0;
      RemainderIsUnique(0, width, 0, 0);
      assert BarIndex(x, width) == 0;
      var q := TWO_32 / width;
      assert TWO_32 == width * q + TWO_32 % width;
      MultipleIsLarge(width, q);
      assert x * 8 / width != 0;
    }
  }

  /** floor(8x / width) */
  function Eighth(x: nat, width: nat): (q: nat)
    requires x < width
    ensures q < 8
  {
    EighthBelow(x, width);
    x * 8 / width
  }

  lemma EighthBelow(x: nat, width: nat)
    requires x < width
    ensures 0 <= x * 8 / width < 8
  {
    var q, rem := x * 8 / width, x * 8 % width;
    assert x * 8 == width * q + rem;
    MultipleIsLarge(width, q);
    MultipleIsLarge(width, q - 7);
    assert width * q == width * (q - 7) + width * 7;
  }

  /** Every pixel of the finished bars: bar floor(8x / width) at column x, on every row. */
  lemma BarsShow(s: Surface, buf: seq<byte>, px: nat, py: nat)
    requires Holds(s, buf) && s.width <= 0x2000_0000 && px < s.width && py < s.height
    ensures PixelAt(s, BarsTo(s, buf, s.height), px, py) == ColorAt(s, px, Bar(Eighth(px, s.width)))
  {
    BarsToPixel(s, buf, s.height, px, py);
    assert BarIndex(px, s.width) == Eighth(px, s.width) by {
      BarsAreEighthsIff(s.width);
    }
  }

  /** Bars of the EIA-189-A pattern become darker from left to right, from white to black. */
  lemma BarsDarken(i: nat)
    requires i < 7
    ensures Yuv(Bar(i)).1 > Yuv(Bar(i + 1)).1 && Bar(0) == WHITE && Bar(7) == BLACK
    ensures forall j: nat | j < 8 :: Bar(j) != GREY && Bar(j) != TRANSPARENT
  {
  }

  /** Where the bytes of pixel (x, y) lie: rows from the bottom up if the image is flipped. */
  lemma PixelPlace(s: Surface, buf: seq<byte>, x: nat, y: nat)
    requires Holds(s, buf) && x < s.width && y < s.height
    ensures var p := (if s.kind.Rgb24? && s.kind.flipVertical then s.height - 1 - y else y) * s.width + x;
      && At(s.kind, p + 1) <= |buf| && PixelAt(s, buf, x, y) == Pixel(s.kind, buf, p)
  {
    InBuffer(s, buf, x, y, 1);
    StartIsProduct(MemoryRow(s, y), s.width);
  }
}
