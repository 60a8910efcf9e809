/** CImageSynthesizer::OverlayText (avstream/avshws/image.cpp) as a function on the buffer, and what
    it makes of every pixel inside and outside the text. */
module TextOverlay {
  import opened Words
  import opened Pixels
  import opened Overlay

  /** The font table: the byte of a character in one of its rows. Its values are not modelled. */
  type Font = (nat, nat) -> byte

  /** The text and its font: `rows` bytes a character, read from the bit of `mask` down. The code's
      font has 8 rows read from 0x80; nothing below depends on that. */
  datatype Text = Text(font: Font, rows: nat, mask: nat, chars: seq<nat>, scale: nat, bg: Color, fg: Color)

  // ------------------------------------------------------------------ one row of glyphs

  /** (CharBase & mask) != 0 for a mask of one bit. */
  predicate HasBit(base: byte, mask: nat)
    requires 0 < mask
  {
    (base / mask) % 2 == 1
  }

  function Times(c: Color, n: nat): (r: seq<Color>)
    ensures |r| == n
  {
    seq(n, i => c)
  }

  function BitColor(t: Text, base: byte, mask: nat): Color
    requires 0 < mask
  {
    if HasBit(base, mask) then t.fg else t.bg
  }

  /** The pixels of one byte of the font from the bit of `mask` down, each `scale` times. */
  function Bits(t: Text, base: byte, mask: nat): seq<Color>
    decreases mask
  {
    if mask == 0 then [] else Times(BitColor(t, base, mask), t.scale) + Bits(t, base, mask / 2)
  }

  /** Each character and the separator behind it. */
  function Glyphs(t: Text, row: nat, from: nat): seq<Color>
    requires row < t.rows && from <= |t.chars|
    decreases |t.chars| - from
  {
    if from == |t.chars| then []
    else Bits(t, t.font(t.chars[from], row), t.mask) + [t.bg] + Glyphs(t, row, from + 1)
  }

  function GlyphRow(t: Text, row: nat): seq<Color>
    requires row < t.rows
  {
    [t.bg] + Glyphs(t, row, 0)
  }

  /** How many bits a mask and those below it are. */
  function Depth(mask: nat): nat {
    if mask == 0 then 0 else 1 + Depth(mask / 2)
  }

  /** The width of a character without its separator. */
  function CharWidth(t: Text): nat {
    Start(Depth(t.mask), t.scale)
  }

  /** LenX. */
  function LengthX(t: Text): nat {
    Start(|t.chars|, CharWidth(t)) + 1 + |t.chars|
  }

  lemma {:induction false} BitsLength(t: Text, base: byte, mask: nat)
    ensures |Bits(t, base, mask)| == Start(Depth(mask), t.scale)
    decreases mask
  {
    if mask > 0 {
      BitsLength(t, base, mask / 2);
    }
  }

  lemma {:induction false} GlyphsLength(t: Text, row: nat, from: nat)
    requires row < t.rows && from <= |t.chars|
    ensures |Glyphs(t, row, from)| == Start(|t.chars| - from, CharWidth(t)) + (|t.chars| - from)
    decreases |t.chars| - from
  {
    if from < |t.chars| {
      BitsLength(t, t.font(t.chars[from], row), t.mask);
      GlyphsLength(t, row, from + 1);
    }
  }

  lemma RowLength(t: Text, row: nat)
    requires row < t.rows
    ensures |GlyphRow(t, row)| == LengthX(t)
  {
    GlyphsLength(t, row, 0);
  }

  /** Bit `b` of a font byte, counted from the left. */
  function Mask(mask: nat, b: nat): (m: nat)
    requires b < Depth(mask)
    ensures 0 < m
  {
    if b == 0 then mask else Mask(mask / 2, b - 1)
  }

  lemma {:induction false} BitsAt(t: Text, base: byte, mask: nat, b: nat, sub: nat)
    requires b < Depth(mask) && sub < t.scale
    ensures Start(b, t.scale) + sub < |Bits(t, base, mask)|
    ensures Bits(t, base, mask)[Start(b, t.scale) + sub] == BitColor(t, base, Mask(mask, b))
    decreases b
  {
    if b > 0 {
      BitsAt(t, base, mask / 2, b - 1, sub);
      SecondPart(Times(BitColor(t, base, mask), t.scale), Bits(t, base, mask / 2), Start(b - 1, t.scale) + sub);
    }
  }

  lemma SecondPart<T>(a: seq<T>, b: seq<T>, i: nat)
    requires i < |b|
    ensures (a + b)[|a| + i] == b[i]
  {
  }

  /** The bits of character `i` lie behind those of the characters before it and their separators. */
  lemma {:induction false} GlyphsAt(t: Text, row: nat, from: nat, i: nat, k: nat)
    requires row < t.rows && from <= i < |t.chars| && k < |Bits(t, t.font(t.chars[i], row), t.mask)|
    ensures Start(i - from, CharWidth(t) + 1) + k < |Glyphs(t, row, from)|
    ensures Glyphs(t, row, from)[Start(i - from, CharWidth(t) + 1) + k] == Bits(t, t.font(t.chars[i], row), t.mask)[k]
    decreases i - from
  {
    if from == i {
      FirstPart(Bits(t, t.font(t.chars[from], row), t.mask), [t.bg], Glyphs(t, row, from + 1), k);
    } else {
      GlyphsAt(t, row, from + 1, i, k);
      GlyphsSkip(t, row, from, Start(i - from - 1, CharWidth(t) + 1) + k);
    }
  }

  /** Behind the first character and its separator come the glyphs of the rest. */
  lemma GlyphsSkip(t: Text, row: nat, from: nat, j: nat)
    requires row < t.rows && from < |t.chars| && j < |Glyphs(t, row, from + 1)|
    ensures CharWidth(t) + 1 + j < |Glyphs(t, row, from)|
    ensures Glyphs(t, row, from)[CharWidth(t) + 1 + j] == Glyphs(t, row, from + 1)[j]
  {
    BitsLength(t, t.font(t.chars[from], row), t.mask);
    SecondPart(Bits(t, t.font(t.chars[from], row), t.mask) + [t.bg], Glyphs(t, row, from + 1), j);
  }

  lemma FirstPart<T>(a: seq<T>, b: seq<T>, c: seq<T>, i: nat)
    requires i < |a|
    ensures (a + b + c)[i] == a[i]
  {
  }

  /** Where pixel `sub` across of bit `b` of character `i` lies in a row of text. */
  function Column(t: Text, i: nat, b: nat, sub: nat): nat {
    1 + Start(i, CharWidth(t) + 1) + (Start(b, t.scale) + sub)
  }

  /** In a row of text each pixel of a glyph is foreground if and only if its font bit is set (a
      glyph's pixels begin one to the right of the border or of the separator before it). */
  lemma RowShowsFont(t: Text, row: nat, i: nat, b: nat, sub: nat)
    requires row < t.rows && i < |t.chars| && b < Depth(t.mask) && sub < t.scale
    ensures Column(t, i, b, sub) < |GlyphRow(t, row)|
    ensures GlyphRow(t, row)[Column(t, i, b, sub)] == BitColor(t, t.font(t.chars[i], row), Mask(t.mask, b))
  {
    var base, k := t.font(t.chars[i], row), Start(b, t.scale) + sub;
    BitsAt(t, base, t.mask, b, sub);
    assert 1 + Start(i, CharWidth(t) + 1) + k < |GlyphRow(t, row)|
        && GlyphRow(t, row)[1 + Start(i, CharWidth(t) + 1) + k] == Bits(t, base, t.mask)[k] by {
      RowShowsBits(t, row, i, k);
    }
  }

  lemma RowShowsBits(t: Text, row: nat, i: nat, k: nat)
    requires row < t.rows && i < |t.chars| && k < |Bits(t, t.font(t.chars[i], row), t.mask)|
    ensures 1 + Start(i, CharWidth(t) + 1) + k < |GlyphRow(t, row)|
    ensures GlyphRow(t, row)[1 + Start(i, CharWidth(t) + 1) + k] == Bits(t, t.font(t.chars[i], row), t.mask)[k]
  {
    GlyphsAt(t, row, 0, i, k);
    SecondPart([t.bg], Glyphs(t, row, 0), Start(i, CharWidth(t) + 1) + k);
  }

  /** The code's font has eight bits a byte, the highest the leftmost; LenX counts each character's bits
      as often as the text is scaled, a separator for each, and a border. */
  lemma EightBits(t: Text)
    requires t.mask == 0x80
    ensures Depth(t.mask) == 8 && LengthX(t) == |t.chars| * (8 * t.scale) + 1 + |t.chars|
    ensures Mask(t.mask, 0) == 0x80 && Mask(t.mask, 1) == 0x40 && Mask(t.mask, 2) == 0x20 && Mask(t.mask, 3) == 0x10
    ensures Mask(t.mask, 4) == 8 && Mask(t.mask, 5) == 4 && Mask(t.mask, 6) == 2 && Mask(t.mask, 7) == 1
  {
    assert Depth(0x80) == 8;
    StartIsProduct(8, t.scale);
    StartIsProduct(|t.chars|, CharWidth(t));
  }

  /** A pixel of a glyph is foreground if and only if the bit is set: the highest in a byte from 0x80 on,
      the lowest in an odd byte, and so on in between. */
  lemma BitIsSet(t: Text, base: byte)
    ensures BitColor(t, base, 0x80) == (if base >= 0x80 then t.fg else t.bg)
    ensures BitColor(t, base, 1) == (if base % 2 == 1 then t.fg else t.bg)
    ensures forall m: nat | 0 < m :: BitColor(t, base, m) == if base / m % 2 == 1 then t.fg else t.bg
  {
  }

  /** The place of a pixel in a row of text, in pixels from its left border. */
  lemma ColumnIs(t: Text, i: nat, b: nat, sub: nat)
    requires t.mask == 0x80
    ensures Column(t, i, b, sub) == 1 + i * (8 * t.scale + 1) + b * t.scale + sub
  {
    EightBits(t);
    StartIsProduct(8, t.scale);
    StartIsProduct(i, CharWidth(t) + 1);
    StartIsProduct(b, t.scale);
  }

  // ------------------------------------------------------------------------ the overlay

  /** Lines per glyph row: one is always drawn. */
  function RowLines(t: Text): nat {
    if t.scale == 0 then 1 else t.scale
  }

  /** The lines between the borders. */
  function TextLines(t: Text): nat {
    Start(t.rows, RowLines(t))
  }

  /** The first line of a glyph row. */
  function FirstLine(t: Text, y: nat, row: nat): nat {
    y + 1 + Start(row, RowLines(t))
  }

  /** What is left to the right and below, and the width drawn after clipping. */
  function Clip(s: Surface, t: Text, x: nat): nat
    requires x <= s.width
  {
    if LengthX(t) < s.width - x then LengthX(t) else s.width - x
  }

  function Border(s: Surface, t: Text, buf: seq<byte>, x: nat, line: nat): (r: seq<byte>)
    requires Holds(s, buf) && x <= s.width && line < s.height
    ensures |r| == |buf|
  {
    if t.bg == TRANSPARENT then buf else Line(s, buf, x, line, Times(t.bg, Clip(s, t, x)))
  }

  function Clipped(s: Surface, t: Text, x: nat, row: nat): (r: seq<Color>)
    requires x <= s.width && row < t.rows
    ensures |r| == Clip(s, t, x)
  {
    RowLength(t, row);
    GlyphRow(t, row)[..Clip(s, t, x)]
  }

  /** A glyph row's first line and `copies` copies of it below. */
  function RowWithCopies(s: Surface, t: Text, buf: seq<byte>, x: nat, line: nat, row: nat, copies: nat): (r: seq<byte>)
    requires Holds(s, buf) && x <= s.width && row < t.rows && line + copies < s.height
    ensures |r| == |buf|
    decreases copies
  {
    if copies == 0 then Line(s, buf, x, line, Clipped(s, t, x, row))
    else CopyLine(s, RowWithCopies(s, t, buf, x, line, row, copies - 1), x, line, line + copies, Clip(s, t, x))
  }

  function Rows(s: Surface, t: Text, buf: seq<byte>, x: nat, y: nat, rows: nat): (r: seq<byte>)
    requires Holds(s, buf) && x <= s.width && rows <= t.rows && y + 1 + Start(rows, RowLines(t)) <= s.height
    ensures |r| == |buf|
    decreases rows
  {
    if rows == 0 then buf
    else RowWithCopies(s, t, Rows(s, t, buf, x, y, rows - 1), x, FirstLine(t, y, rows - 1), rows - 1, RowLines(t) - 1)
  }

  // --------------------------------------------------------- when it stays in the image

  /** Nothing is written for these: a transparent pixel only moves the cursor. */
  predicate Blank(cs: seq<Color>) {
    forall i | 0 <= i < |cs| :: cs[i] == TRANSPARENT
  }

  ghost predicate BlankFrom(s: Surface, t: Text, x: nat, row: nat)
    requires x <= s.width
  {
    forall r | row <= r < t.rows :: Blank(Clipped(s, t, x, r))
  }

  /** Where nothing is drawn outside the image: no column or at most one line is left, or all lines
      are there; a transparent background needs no line for the lower border, and at scale 1 none
      for glyph rows that are empty as far as they are not clipped. */
  ghost predicate Fits(s: Surface, t: Text, x: nat, y: nat)
    requires x <= s.width && y <= s.height
  {
    var spaceY := s.height - y;
    || x == s.width || spaceY <= 1 || spaceY >= TextLines(t) + 2
    || (t.bg == TRANSPARENT
        && (spaceY == TextLines(t) + 1 || (t.scale <= 1 && BlankFrom(s, t, x, spaceY - 1))))
  }

  /** How many glyph rows lie in so many lines, unless they are cut. */
  function WholeRows(t: Text, lines: nat): (r: nat)
    ensures r <= t.rows
  {
    if TextLines(t) <= lines then t.rows else Min(lines, t.rows)
  }

  /** The whole overlay at (x, y), clipped on the right, where it fits: the upper border, the glyph
      rows inside the image, the lower border if it is inside. */
  function Overlaid(s: Surface, t: Text, buf: seq<byte>, x: nat, y: nat): (r: seq<byte>)
    requires Holds(s, buf) && x <= s.width && y <= s.height && Fits(s, t, x, y)
    ensures |r| == |buf|
  {
    if x == s.width || y == s.height then buf
    else
      var b := GlyphPart(s, t, buf, x, y);
      if FirstLine(t, y, t.rows) < s.height then Border(s, t, b, x, FirstLine(t, y, t.rows)) else b
  }

  /** The upper border and the glyph rows inside the image. */
  function GlyphPart(s: Surface, t: Text, buf: seq<byte>, x: nat, y: nat): (r: seq<byte>)
    requires Holds(s, buf) && x < s.width && y < s.height && Fits(s, t, x, y)
    ensures |r| == |buf|
  {
    RowsFit(s, t, x, y);
    Rows(s, t, Border(s, t, buf, x, y), x, y, WholeRows(t, s.height - y - 1))
  }

  lemma RowsFit(s: Surface, t: Text, x: nat, y: nat)
    requires x < s.width && y < s.height && Fits(s, t, x, y)
    ensures y + 1 + Start(WholeRows(t, s.height - y - 1), RowLines(t)) <= s.height
  {
    var lines := s.height - y - 1;
    if TextLines(t) > lines && lines > 0 {
      StartIsProduct(t.rows, 1);
      StartIsProduct(WholeRows(t, lines), 1);
    }
  }

  // --------------------------------------------------------------------- every pixel

  lemma BorderPixel(s: Surface, t: Text, buf: seq<byte>, x: nat, line: nat, px: nat, py: nat)
    requires Holds(s, buf) && x <= s.width && line < s.height && px < s.width && py < s.height
    ensures PixelAt(s, Border(s, t, buf, x, line), px, py)
         == if py == line && x <= px < x + Clip(s, t, x) then Over(s, px, t.bg, PixelAt(s, buf, px, py))
            else PixelAt(s, buf, px, py)
  {
    if t.bg != TRANSPARENT {
      LinePixel(s, buf, x, line, Times(t.bg, Clip(s, t, x)), px, py);
    }
  }

  /** Column `px` is inside the clip, and `c` is the color of the glyph row there. */
  ghost predicate IsColor(s: Surface, t: Text, x: nat, row: nat, px: nat, c: Color)
    requires x <= s.width && row < t.rows
  {
    x <= px < x + Clip(s, t, x) && Clipped(s, t, x, row)[px - x] == c
  }

  lemma RowFirst(s: Surface, t: Text, buf: seq<byte>, x: nat, line: nat, row: nat, px: nat, c: Color)
    requires Holds(s, buf) && x <= s.width && row < t.rows && line < s.height && px < s.width
    requires IsColor(s, t, x, row, px, c)
    ensures PixelAt(s, RowWithCopies(s, t, buf, x, line, row, 0), px, line) == Over(s, px, c, PixelAt(s, buf, px, line))
  {
    LinePixel(s, buf, x, line, Clipped(s, t, x, row), px, line);
  }

  lemma RowCopyOn(s: Surface, t: Text, buf: seq<byte>, x: nat, line: nat, row: nat, copies: nat, px: nat)
    requires Holds(s, buf) && x <= s.width && row < t.rows && line + copies < s.height && 0 < copies
    requires x <= px < x + Clip(s, t, x)
    ensures PixelAt(s, RowWithCopies(s, t, buf, x, line, row, copies), px, line + copies)
         == PixelAt(s, RowWithCopies(s, t, buf, x, line, row, copies - 1), px, line)
  {
    CopyLineOn(s, RowWithCopies(s, t, buf, x, line, row, copies - 1), x, line, line + copies, Clip(s, t, x), px);
  }

  lemma RowCopyOff(s: Surface, t: Text, buf: seq<byte>, x: nat, line: nat, row: nat, copies: nat, px: nat, py: nat)
    requires Holds(s, buf) && x <= s.width && row < t.rows && line + copies < s.height && 0 < copies
    requires px < s.width && py < s.height && (py != line + copies || px < x || px >= x + Clip(s, t, x))
    ensures PixelAt(s, RowWithCopies(s, t, buf, x, line, row, copies), px, py)
         == PixelAt(s, RowWithCopies(s, t, buf, x, line, row, copies - 1), px, py)
  {
    CopyLineOff(s, RowWithCopies(s, t, buf, x, line, row, copies - 1), x, line, line + copies, Clip(s, t, x), px, py);
  }

  lemma {:induction false} RowPixelOutside(s: Surface, t: Text, buf: seq<byte>, x: nat, line: nat, row: nat, copies: nat, px: nat, py: nat)
    requires Holds(s, buf) && x <= s.width && row < t.rows && line + copies < s.height && px < s.width && py < s.height
    requires py < line || py > line + copies || px < x || px >= x + Clip(s, t, x)
    ensures PixelAt(s, RowWithCopies(s, t, buf, x, line, row, copies), px, py) == PixelAt(s, buf, px, py)
    decreases copies
  {
    if copies == 0 {
      LinePixel(s, buf, x, line, Clipped(s, t, x, row), px, py);
    } else {
      RowCopyOff(s, t, buf, x, line, row, copies, px, py);
      RowPixelOutside(s, t, buf, x, line, row, copies - 1, px, py);
    }
  }

  /** A glyph row covers its lines with its colors; where it is transparent all its lines show what
      lay under the first. */
  lemma {:induction false} RowPixelInside(s: Surface, t: Text, buf: seq<byte>, x: nat, line: nat, row: nat, copies: nat, px: nat, py: nat, c: Color)
    requires Holds(s, buf) && x <= s.width && row < t.rows && line + copies < s.height && px < s.width && py < s.height
    requires line <= py <= line + copies && IsColor(s, t, x, row, px, c)
    ensures PixelAt(s, RowWithCopies(s, t, buf, x, line, row, copies), px, py) == Over(s, px, c, PixelAt(s, buf, px, line))
    decreases copies
  {
    if copies == 0 {
      RowFirst(s, t, buf, x, line, row, px, c);
    } else {
      var from := if py == line + copies then line else py;
      RowPixelInside(s, t, buf, x, line, row, copies - 1, px, from, c);
      if py == line + copies {
        RowCopyOn(s, t, buf, x, line, row, copies, px);
      } else {
        RowCopyOff(s, t, buf, x, line, row, copies, px, py);
      }
    }
  }

  lemma RowBefore(t: Text, y: nat, row: nat, later: nat)
    requires row < later
    ensures FirstLine(t, y, row) + RowLines(t) <= FirstLine(t, y, later)
  {
    StartMono(row + 1, later, RowLines(t));
  }

  /** Lines outside the rows drawn so far are as they were. */
  lemma {:induction false} RowsOutside(s: Surface, t: Text, buf: seq<byte>, x: nat, y: nat, rows: nat, px: nat, py: nat)
    requires Holds(s, buf) && x <= s.width && rows <= t.rows && y + 1 + Start(rows, RowLines(t)) <= s.height
    requires px < s.width && py < s.height
    requires py <= y || py >= FirstLine(t, y, rows) || px < x || px >= x + Clip(s, t, x)
    ensures PixelAt(s, Rows(s, t, buf, x, y, rows), px, py) == PixelAt(s, buf, px, py)
    decreases rows
  {
    if rows > 0 {
      RowsOutside(s, t, buf, x, y, rows - 1, px, py);
      RowPixelOutside(s, t, Rows(s, t, buf, x, y, rows - 1), x, FirstLine(t, y, rows - 1), rows - 1, RowLines(t) - 1, px, py);
    }
  }

  lemma {:induction false} RowsInside(s: Surface, t: Text, buf: seq<byte>, x: nat, y: nat, rows: nat, row: nat, px: nat, py: nat, c: Color)
    requires Holds(s, buf) && x <= s.width && rows <= t.rows && y + 1 + Start(rows, RowLines(t)) <= s.height
    requires px < s.width && row < rows && IsColor(s, t, x, row, px, c)
    requires FirstLine(t, y, row) <= py < FirstLine(t, y, row) + RowLines(t) && py < s.height
    ensures FirstLine(t, y, row) < s.height
    ensures PixelAt(s, Rows(s, t, buf, x, y, rows), px, py) == Over(s, px, c, PixelAt(s, buf, px, FirstLine(t, y, row)))
    decreases rows
  {
    if row < rows - 1 {
      RowBefore(t, y, row, rows - 1);
      RowsEarlier(s, t, buf, x, y, rows, px, py);
      RowsInside(s, t, buf, x, y, rows - 1, row, px, py, c);
    } else {
      RowsLast(s, t, buf, x, y, row, px, py, c);
    }
  }

  /** The last row does not touch the lines before it. */
  lemma RowsEarlier(s: Surface, t: Text, buf: seq<byte>, x: nat, y: nat, rows: nat, px: nat, py: nat)
    requires Holds(s, buf) && x <= s.width && 0 < rows <= t.rows && y + 1 + Start(rows, RowLines(t)) <= s.height
    requires px < s.width && py < FirstLine(t, y, rows - 1)
    ensures PixelAt(s, Rows(s, t, buf, x, y, rows), px, py) == PixelAt(s, Rows(s, t, buf, x, y, rows - 1), px, py)
  {
    RowPixelOutside(s, t, Rows(s, t, buf, x, y, rows - 1), x, FirstLine(t, y, rows - 1), rows - 1, RowLines(t) - 1, px, py);
  }

  lemma RowsLast(s: Surface, t: Text, buf: seq<byte>, x: nat, y: nat, row: nat, px: nat, py: nat, c: Color)
    requires Holds(s, buf) && x <= s.width && row < t.rows && y + 1 + Start(row + 1, RowLines(t)) <= s.height
    requires px < s.width && IsColor(s, t, x, row, px, c)
    requires FirstLine(t, y, row) <= py < FirstLine(t, y, row) + RowLines(t) && py < s.height
    ensures FirstLine(t, y, row) < s.height
    ensures PixelAt(s, Rows(s, t, buf, x, y, row + 1), px, py) == Over(s, px, c, PixelAt(s, buf, px, FirstLine(t, y, row)))
  {
    var line, before := FirstLine(t, y, row), Rows(s, t, buf, x, y, row);
    RowOverRow(s, t, buf, before, x, line, row, px, py, c) by {
      RowsOutside(s, t, buf, x, y, row, px, line);
    }
  }

  lemma RowOverRow(s: Surface, t: Text, buf: seq<byte>, before: seq<byte>, x: nat, line: nat, row: nat, px: nat, py: nat, c: Color)
    requires Holds(s, buf) && |before| == |buf| && x <= s.width && row < t.rows && line + RowLines(t) <= s.height
    requires px < s.width && IsColor(s, t, x, row, px, c) && line <= py < line + RowLines(t)
    requires PixelAt(s, before, px, line) == PixelAt(s, buf, px, line)
    ensures PixelAt(s, RowWithCopies(s, t, before, x, line, row, RowLines(t) - 1), px, py)
         == Over(s, px, c, PixelAt(s, buf, px, line))
  {
    RowPixelInside(s, t, before, x, line, row, RowLines(t) - 1, px, py, c);
  }

  /** Outside the clipped rectangle the glyph rows leave what the upper border left. */
  lemma GlyphPartOutside(s: Surface, t: Text, buf: seq<byte>, x: nat, y: nat, px: nat, py: nat)
    requires Holds(s, buf) && x < s.width && y < s.height && Fits(s, t, x, y) && px < s.width && py < s.height
    requires px < x || px >= x + Clip(s, t, x) || py <= y || py >= FirstLine(t, y, t.rows)
    ensures PixelAt(s, GlyphPart(s, t, buf, x, y), px, py) == PixelAt(s, Border(s, t, buf, x, y), px, py)
  {
    var n := WholeRows(t, s.height - y - 1);
    RowsFit(s, t, x, y);
    StartMono(n, t.rows, RowLines(t));
    RowsOutside(s, t, Border(s, t, buf, x, y), x, y, n, px, py);
  }

  /** What an overlay that fits makes of the pixel (px, py): outside the clipped rectangle it keeps
      its bytes; on the border lines it takes the background; on line `sub` of glyph row `row` the
      color of the row at its column. */
  lemma OverlaidOutside(s: Surface, t: Text, buf: seq<byte>, x: nat, y: nat, px: nat, py: nat)
    requires Holds(s, buf) && x <= s.width && y <= s.height && Fits(s, t, x, y) && px < s.width && py < s.height
    requires px < x || px >= x + Clip(s, t, x) || py < y || py >= y + 2 + TextLines(t)
    ensures PixelAt(s, Overlaid(s, t, buf, x, y), px, py) == PixelAt(s, buf, px, py)
  {
    if x < s.width && y < s.height {
      BorderPixel(s, t, buf, x, y, px, py);
      GlyphPartOutside(s, t, buf, x, y, px, py);
      if FirstLine(t, y, t.rows) < s.height {
        BorderPixel(s, t, GlyphPart(s, t, buf, x, y), x, FirstLine(t, y, t.rows), px, py);
      }
    }
  }

  lemma OverlaidBorder(s: Surface, t: Text, buf: seq<byte>, x: nat, y: nat, px: nat, py: nat)
    requires Holds(s, buf) && x <= s.width && y < s.height && Fits(s, t, x, y) && px < s.width && py < s.height
    requires x <= px < x + Clip(s, t, x) && (py == y || py == y + 1 + TextLines(t))
    ensures PixelAt(s, Overlaid(s, t, buf, x, y), px, py) == Over(s, px, t.bg, PixelAt(s, buf, px, py))
  {
    BorderPixel(s, t, buf, x, y, px, py);
    GlyphPartOutside(s, t, buf, x, y, px, py);
    if FirstLine(t, y, t.rows) < s.height {
      BorderPixel(s, t, GlyphPart(s, t, buf, x, y), x, FirstLine(t, y, t.rows), px, py);
    }
  }

  lemma OverlaidGlyphs(s: Surface, t: Text, buf: seq<byte>, x: nat, y: nat, row: nat, sub: nat, px: nat, c: Color)
    requires Holds(s, buf) && x < s.width && y < s.height && Fits(s, t, x, y) && px < s.width
    requires row < t.rows && sub < RowLines(t) && IsColor(s, t, x, row, px, c)
    requires FirstLine(t, y, row) + sub < s.height
    ensures PixelAt(s, Overlaid(s, t, buf, x, y), px, FirstLine(t, y, row) + sub)
         == Over(s, px, c, PixelAt(s, buf, px, FirstLine(t, y, row)))
  {
    var line, b, last := FirstLine(t, y, row) + sub, GlyphPart(s, t, buf, x, y), FirstLine(t, y, t.rows);
    GlyphPartInside(s, t, buf, x, y, row, sub, px, c);
    if last < s.height {
      assert line < last by {
        RowBefore(t, y, row, t.rows);
      }
      BorderAway(s, t, b, x, last, px, line);
    }
  }

  lemma GlyphPartInside(s: Surface, t: Text, buf: seq<byte>, x: nat, y: nat, row: nat, sub: nat, px: nat, c: Color)
    requires Holds(s, buf) && x < s.width && y < s.height && Fits(s, t, x, y) && px < s.width
    requires row < t.rows && sub < RowLines(t) && IsColor(s, t, x, row, px, c)
    requires FirstLine(t, y, row) + sub < s.height
    ensures PixelAt(s, GlyphPart(s, t, buf, x, y), px, FirstLine(t, y, row) + sub)
         == Over(s, px, c, PixelAt(s, buf, px, FirstLine(t, y, row)))
  {
    var line, above, n := FirstLine(t, y, row), Border(s, t, buf, x, y), WholeRows(t, s.height - y - 1);
    RowsFit(s, t, x, y);
    assert row < n by {
      RowIsWhole(s, t, x, y, row, sub);
    }
    assert PixelAt(s, above, px, line) == PixelAt(s, buf, px, line) by {
      BorderAway(s, t, buf, x, y, px, line);
    }
    RowsInside(s, t, above, x, y, n, row, px, line + sub, c);
  }

  /** A glyph row with a line inside the image is among those drawn there. */
  lemma RowIsWhole(s: Surface, t: Text, x: nat, y: nat, row: nat, sub: nat)
    requires x < s.width && y < s.height && Fits(s, t, x, y) && row < t.rows && sub < RowLines(t)
    requires FirstLine(t, y, row) + sub < s.height
    ensures row < WholeRows(t, s.height - y - 1)
  {
    StartIsProduct(row, 1);
  }

  lemma BorderAway(s: Surface, t: Text, buf: seq<byte>, x: nat, line: nat, px: nat, py: nat)
    requires Holds(s, buf) && x <= s.width && line < s.height && px < s.width && py < s.height && py != line
    ensures PixelAt(s, Border(s, t, buf, x, line), px, py) == PixelAt(s, buf, px, py)
  {
    BorderPixel(s, t, buf, x, line, px, py);
  }

  /** The main result for an opaque background: inside the clip, pixel `sub` across of bit `b` of
      character `i`, on any line of glyph row `row`, is foreground if and only if the font says so. */
  lemma TextIsLegible(s: Surface, t: Text, buf: seq<byte>, x: nat, y: nat, row: nat, down: nat, i: nat, b: nat, sub: nat)
    requires Holds(s, buf) && x <= s.width && y + 1 < s.height && Fits(s, t, x, y)
    requires t.bg != TRANSPARENT && t.fg != TRANSPARENT && row < t.rows && down < t.scale
    requires i < |t.chars| && b < Depth(t.mask) && sub < t.scale && x + Column(t, i, b, sub) < s.width
    ensures FirstLine(t, y, row) + down < s.height
    ensures PixelAt(s, Overlaid(s, t, buf, x, y), x + Column(t, i, b, sub), FirstLine(t, y, row) + down)
         == ColorAt(s, x + Column(t, i, b, sub), BitColor(t, t.font(t.chars[i], row), Mask(t.mask, b)))
  {
    var color := BitColor(t, t.font(t.chars[i], row), Mask(t.mask, b));
    assert color != TRANSPARENT && IsColor(s, t, x, row, x + Column(t, i, b, sub), color) by {
      RowLength(t, row);
      RowShowsFont(t, row, i, b, sub);
    }
    StartMono(row + 1, t.rows, RowLines(t));
    OverlaidGlyphs(s, t, buf, x, y, row, down, x + Column(t, i, b, sub), color);
  }
}
