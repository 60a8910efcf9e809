/** CImageSynthesizer and its two pixel writers (avstream/avshws/image.h, image.cpp): the object
    whose cursor moves over the synthesis buffer. */
module ImageSynthesizer {
  import opened Words
  import opened Pixels
  import opened Overlay
  import opened TextOverlay
  import opened TextDrawing

  /** The ULONG coordinate that asks for centering. */
  const POSITION_CENTER: nat := 0xFFFF_FFFF

  /** Centered if it fits, else at the left or top edge. */
  function Place(loc: nat, length: nat, room: nat): nat {
    if loc != POSITION_CENTER then loc
    else if length >= room then 0
    else room / 2 - length / 2
  }

  /** The text's height with its borders. */
  function LengthY(t: Text): nat {
    2 + Start(t.rows, t.scale)
  }

  /** The text's place lies inside the image, as the code asserts, and the text fits there. */
  ghost predicate Accommodates(s: Surface, t: Text, locX: nat, locY: nat) {
    var x, y := Place(locX, LengthX(t), s.width), Place(locY, LengthY(t), s.height);
    x <= s.width && y <= s.height && Fits(s, t, x, y)
  }

  /** Where a run of pixels is put: from pixel `p` on with so much space, over `before`; or on a line
      that the image does not have, where the cursor points to no pixel of it. */
  datatype Target = Target(inside: bool, before: seq<byte>, p: nat, space: nat, start: int)

  class ImageSynthesizer {
    const kind: Kind
    const width: nat
    const height: nat
    const buffer: array<byte>
    var cursor: int
    var parity: bool

    constructor (kind: Kind, width: nat, height: nat, buffer: array<byte>)
      ensures this.kind == kind && this.width == width && this.height == height && this.buffer == buffer
    {
      this.kind, this.width, this.height, this.buffer := kind, width, height, buffer;
      cursor, parity := 0, false;
    }

    function Image(): Surface {
      Surface(kind, width, height)
    }

    ghost predicate Valid()
      reads buffer
    {
      Holds(Image(), buffer[..]) && width < TWO_32
    }

    /** The cursor, and for packed 4:2:2 the parity, stand at pixel `p`. */
    ghost predicate CursorAt(p: nat)
      reads this
    {
      cursor == At(kind, p) && (kind.Yuy2? ==> parity == (p % 2 == 1))
    }

    /** Bytes at the cursor, which moves behind them. */
    method Write(bytes: seq<byte>)
      requires 0 <= cursor && cursor + |bytes| <= buffer.Length
      modifies this`cursor, buffer
      ensures cursor == old(cursor) + |bytes| && buffer[..] == Patch(old(buffer[..]), old(cursor), bytes)
    {
      for i := 0 to |bytes|
        invariant cursor == old(cursor) + i
        invariant forall k :: old(cursor) <= k < cursor ==> buffer[k] == bytes[k - old(cursor)]
        invariant forall k :: 0 <= k < buffer.Length && !(old(cursor) <= k < cursor) ==> buffer[k] == old(buffer[k])
      {
        buffer[cursor] := bytes[i];
        cursor := cursor + 1;
      }
    }

    /** A transparent pixel may lie anywhere: it only moves the cursor. */
    method PutPixel(c: Color, ghost p: nat)
      requires c != TRANSPARENT ==> CursorAt(p) && At(kind, p + 1) <= buffer.Length
      modifies this`cursor, this`parity, buffer
      ensures old(CursorAt(p)) ==> CursorAt(p + 1)
      ensures old(CursorAt(p)) && At(kind, p + 1) <= buffer.Length ==> buffer[..] == Put(kind, old(buffer[..]), p, c)
      ensures c == TRANSPARENT ==> buffer[..] == old(buffer[..])
    {
      NextAt(kind, p);
      if kind.Rgb24? {
        if c != TRANSPARENT {
          Write([Rgb(c).0, Rgb(c).1, Rgb(c).2]);
        } else {
          cursor := cursor + 3;
        }
      } else {
        if c != TRANSPARENT {
          Write(if parity then [Yuv(c).2] else [Yuv(c).1, Yuv(c).0, Yuv(c).1]);
        } else {
          cursor := cursor + (if parity then 1 else 3);
        }
        parity := !parity;
      }
    }

    /** Moves the cursor to (x, y); beyond the last row the place is computed and not used. */
    method GetImageLocation(x: nat, y: nat)
      requires kind.Yuy2? ==> width % 2 == 0
      modifies this`cursor, this`parity
      ensures y < height ==> CursorAt(Index(Image(), x, y))
    {
      if kind.Rgb24? {
        cursor := if kind.flipVertical then 3 * (x + (height - 1 - y) * width) else 3 * (x + y * width);
      } else {
        cursor := 2 * (x + y * width);
        parity := x % 2 == 1;
        if parity {
          cursor := cursor + 1;
        }
      }
      if y < height {
        StartIsProduct(MemoryRow(Image(), y), width);
        AtIs(kind, Index(Image(), x, y));
        SameParity(Image(), x, y);
      }
    }

    /** RtlCopyMemory of `n` bytes inside the buffer, between ranges that do not overlap; of no bytes,
        anywhere. */
    method CopyBytes(to: int, from: int, n: nat)
      requires n > 0 ==> 0 <= to && to + n <= buffer.Length && 0 <= from && from + n <= buffer.Length
      requires n > 0 ==> to + n <= from || from + n <= to
      modifies buffer
      ensures n > 0 ==> buffer[..] == Patch(old(buffer[..]), to, old(buffer[..])[from..from + n])
      ensures n == 0 ==> buffer[..] == old(buffer[..])
    {
      for i := 0 to n
        invariant forall k :: to <= k < to + i ==> buffer[k] == old(buffer[from + k - to])
        invariant forall k :: 0 <= k < buffer.Length && !(to <= k < to + i) ==> buffer[k] == old(buffer[k])
      {
        buffer[to + i] := buffer[from + i];
      }
    }

    /** Copies the `n` pixels from (x, from) to row `to`, as bytes from the start to the end cursor. */
    method CopyRow(imageStart: int, imageEnd: int, x: nat, ghost from: nat, to: nat, ghost n: nat)
      requires Valid() && from < to && x + n <= width
      requires from < height ==> imageStart == At(kind, Index(Image(), x, from))
      requires from < height ==> imageEnd == At(kind, Index(Image(), x, from) + n)
      requires to >= height ==> imageStart == imageEnd
      modifies this`cursor, this`parity, buffer
      ensures buffer[..] == if to < height then CopyLine(Image(), old(buffer[..]), x, from, to, n) else old(buffer[..])
    {
      ghost var before, after := buffer[..], buffer[..];
      if to < height {
        after := CopyLine(Image(), before, x, from, to, n);
        CopySpan(Image(), before, x, from, to, n);
      }
      GetImageLocation(x, to);
      CopyBytes(cursor, imageStart, imageEnd - imageStart);
      assert buffer[..] == after;
    }

    // ------------------------------------------------------------------------- bars

    /** The first `i` colors of `cs` are put, from pixel `p` on. */
    ghost predicate Progress(before: seq<byte>, p: nat, cs: seq<Color>, i: nat)
      reads this, buffer
    {
      && i <= |cs| && |before| == buffer.Length && At(kind, p + |cs|) <= |before| && At(kind, p + i) <= |before|
      && CursorAt(p + i) && buffer[..] == PutAll(kind, before, p, cs[..i])
    }

    method PutNext(c: Color, ghost before: seq<byte>, ghost p: nat, ghost cs: seq<Color>, ghost i: nat)
      requires Progress(before, p, cs, i) && i < |cs| && cs[i] == c
      modifies this`cursor, this`parity, buffer
      ensures Progress(before, p, cs, i + 1)
    {
      AtMono(kind, p + i + 1, p + |cs|);
      PutPixel(c, p + i);
      PutOneMore(kind, before, p, cs, i);
    }

    /** A single line of the bars. */
    method PutBarRow()
      requires Valid() && 0 < width && 0 < height && CursorAt(Index(Image(), 0, 0))
      modifies this`cursor, this`parity, buffer
      ensures Valid() && CursorAt(Index(Image(), 0, 0) + width)
      ensures buffer[..] == Line(Image(), old(buffer[..]), 0, 0, BarRow(width))
    {
      ghost var p, before := Index(Image(), 0, 0), buffer[..];
      InBuffer(Image(), before, 0, 0, width);
      AtMono(kind, p, p + width);
      for x := 0 to width
        invariant Progress(before, p, BarRow(width), x)
      {
        BarInRange(x, width);
        PutNext(Bar(U32(x * 8) / width), before, p, BarRow(width), x);
      }
      assert BarRow(width)[..width] == BarRow(width);
    }

    method SynthesizeBars()
      requires Valid() && 0 < width && 0 < height
      modifies this`cursor, this`parity, buffer
      ensures Valid() && buffer[..] == BarsTo(Image(), old(buffer[..]), height)
    {
      GetImageLocation(0, 0);
      var imageStart := cursor;
      PutBarRow();
      var imageEnd := cursor;
      for line := 1 to height
        invariant Valid() && buffer[..] == BarsTo(Image(), old(buffer[..]), line)
      {
        CopyRow(imageStart, imageEnd, 0, 0, line, width);
      }
    }

    // ------------------------------------------------------------------------- text

    /** `done` pixels are drawn, as many of them as there is space for. */
    ghost predicate Drawn(at: Target, done: seq<Color>, left: nat)
      reads this, buffer
    {
      && left == at.space - Clipping(|done|, at.space)
      && if at.inside then DrawnInside(at, done[..Clipping(|done|, at.space)])
         else buffer[..] == at.before && Blank(done[..Clipping(|done|, at.space)]) && (at.space == 0 ==> cursor == at.start)
    }

    ghost predicate DrawnInside(at: Target, shown: seq<Color>)
      reads this, buffer
    {
      && |at.before| == buffer.Length && At(kind, at.p + at.space) <= |at.before| && CursorAt(at.p + |shown|)
      && At(kind, at.p + |shown|) <= |at.before| && buffer[..] == PutAll(kind, at.before, at.p, shown)
    }

    /** Without space left, further pixels change nothing. */
    lemma DrawnMore(at: Target, done: seq<Color>, more: seq<Color>)
      requires Drawn(at, done, 0)
      ensures Drawn(at, done + more, 0)
    {
      assert (done + more)[..at.space] == done[..at.space];
    }

    /** One pixel, if there is space for it. */
    method PutClipped(c: Color, curSpaceX: nat, ghost at: Target, ghost done: seq<Color>) returns (left: nat)
      requires Drawn(at, done, curSpaceX) && (at.inside || curSpaceX == 0 || c == TRANSPARENT)
      modifies this`cursor, this`parity, buffer
      ensures Drawn(at, done + [c], left)
    {
      left := curSpaceX;
      if curSpaceX > 0 {
        assert done[..|done|] == done && (done + [c])[..|done| + 1] == done + [c];
        if at.inside {
          AtMono(kind, at.p + |done| + 1, at.p + at.space);
          PutAppend(kind, at.before, at.p, done, c);
        }
        PutPixel(c, at.p + |done|);
        left := curSpaceX - 1;
      } else {
        DrawnMore(at, done, [c]);
      }
    }

    method PutScaled(c: Color, scaling: nat, curSpaceX: nat, ghost at: Target, ghost done: seq<Color>) returns (left: nat)
      requires Drawn(at, done, curSpaceX) && (at.inside || curSpaceX == 0 || scaling == 0 || c == TRANSPARENT)
      modifies this`cursor, this`parity, buffer
      ensures Drawn(at, done + Times(c, scaling), left)
    {
      left := curSpaceX;
      var scale := 0;
      ghost var drawn := done;
      while scale < scaling && left > 0
        invariant 0 <= scale <= scaling && left <= curSpaceX
        invariant Drawn(at, drawn, left) && drawn == done + Times(c, scale)
      {
        left := PutClipped(c, left, at, drawn);
        TimesAfter(done, c, scale, 1);
        drawn := drawn + [c];
        scale := scale + 1;
      }
      if scale < scaling {
        TimesAfter(done, c, scale, scaling - scale);
        DrawnMore(at, drawn, Times(c, scaling - scale));
      }
    }

    /** On a line that the image does not have only transparent pixels may come. */
    ghost predicate MayFollow(at: Target, whole: seq<Color>) {
      at.inside || Blank(whole[..Clipping(|whole|, at.space)])
    }

    lemma NextMayFollow(at: Target, done: seq<Color>, c: Color, whole: seq<Color>)
      requires MayFollow(at, whole) && done + [c] <= whole
      ensures at.inside || |done| >= at.space || c == TRANSPARENT
    {
      assert whole[|done|] == (done + [c])[|done|];
    }

    lemma FrontMayFollow(at: Target, front: seq<Color>, whole: seq<Color>)
      requires MayFollow(at, whole) && front <= whole
      ensures MayFollow(at, front)
    {
    }

    /** The mask loop over one byte of the font. */
    method PutBits(t: Text, charBase: byte, curSpaceX: nat, ghost at: Target, ghost done: seq<Color>) returns (left: nat)
      requires Drawn(at, done, curSpaceX) && MayFollow(at, done + Bits(t, charBase, t.mask))
      modifies this`cursor, this`parity, buffer
      ensures Drawn(at, done + Bits(t, charBase, t.mask), left)
    {
      left := curSpaceX;
      var mask := t.mask;
      ghost var drawn, whole := done, done + Bits(t, charBase, t.mask);
      while mask > 0 && left > 0
        invariant Drawn(at, drawn, left)
        invariant drawn + Bits(t, charBase, mask) == whole
        decreases mask
      {
        var c := if HasBit(charBase, mask) then t.fg else t.bg;
        AppendAssoc(drawn, Times(c, t.scale), Bits(t, charBase, mask / 2));
        if t.scale > 0 {
          assert drawn + Times(c, t.scale) <= whole && drawn + [c] <= drawn + Times(c, t.scale);
          NextMayFollow(at, drawn, c, whole);
        }
        left := PutScaled(c, t.scale, left, at, drawn);
        drawn := drawn + Times(c, t.scale);
        mask := mask / 2;
      }
      if mask > 0 {
        DrawnMore(at, drawn, Bits(t, charBase, mask));
      } else {
        assert drawn + Bits(t, charBase, 0) == drawn;
      }
    }

    /** The first line of one glyph row of the whole text. */
    method PutGlyphRow(t: Text, row: nat, spaceX: nat, ghost at: Target)
      requires row < t.rows && Drawn(at, [], spaceX) && MayFollow(at, GlyphRow(t, row))
      modifies this`cursor, this`parity, buffer
      ensures exists left :: Drawn(at, GlyphRow(t, row), left)
    {
      NextMayFollow(at, [], t.bg, GlyphRow(t, row));
      var curSpaceX := PutClipped(t.bg, spaceX, at, []);
      ghost var drawn := [t.bg];
      assert [] + [t.bg] == drawn;
      for i := 0 to |t.chars|
        invariant Drawn(at, drawn, curSpaceX)
        invariant drawn + Glyphs(t, row, i) == GlyphRow(t, row)
      {
        curSpaceX := PutGlyph(t, row, i, curSpaceX, at, drawn);
        drawn := drawn + Bits(t, t.font(t.chars[i], row), t.mask) + [t.bg];
      }
      assert drawn + [] == drawn;
    }

    /** A row of one character, and the separator behind it. */
    method PutGlyph(t: Text, row: nat, i: nat, curSpaceX: nat, ghost at: Target, ghost drawn: seq<Color>) returns (left: nat)
      requires row < t.rows && i < |t.chars| && Drawn(at, drawn, curSpaceX)
      requires MayFollow(at, GlyphRow(t, row)) && drawn + Glyphs(t, row, i) == GlyphRow(t, row)
      modifies this`cursor, this`parity, buffer
      ensures Drawn(at, drawn + Bits(t, t.font(t.chars[i], row), t.mask) + [t.bg], left)
      ensures drawn + Bits(t, t.font(t.chars[i], row), t.mask) + [t.bg] + Glyphs(t, row, i + 1) == GlyphRow(t, row)
    {
      var charBase := t.font(t.chars[i], row);
      ghost var bits := Bits(t, charBase, t.mask);
      AppendAssoc(drawn, bits, [t.bg]);
      AppendAssoc(drawn, bits + [t.bg], Glyphs(t, row, i + 1));
      FrontMayFollow(at, drawn + bits, GlyphRow(t, row));
      left := PutBits(t, charBase, curSpaceX, at, drawn);
      NextMayFollow(at, drawn + bits, t.bg, GlyphRow(t, row));
      left := PutClipped(t.bg, left, at, drawn + bits);
    }

    /** A run of the background color, as long as the text and the space allow. */
    method PutBackground(c: Color, lenX: nat, spaceX: nat, ghost inside: bool, ghost p: nat)
      requires if inside then CursorAt(p) && At(kind, p + Clipping(lenX, spaceX)) <= buffer.Length
               else Clipping(lenX, spaceX) == 0
      modifies this`cursor, this`parity, buffer
      ensures buffer[..] == if inside then PutAll(kind, old(buffer[..]), p, Times(c, Clipping(lenX, spaceX)))
                            else old(buffer[..])
    {
      ghost var before, cs := buffer[..], Times(c, Clipping(lenX, spaceX));
      if inside {
        AtMono(kind, p, p + |cs|);
      }
      var x := 0;
      while x < lenX && x < spaceX
        invariant 0 <= x <= |cs| && (if inside then Progress(before, p, cs, x) else buffer[..] == before)
      {
        PutNext(c, before, p, cs, x);
        x := x + 1;
      }
      assert cs[..|cs|] == cs;
    }

    /** Nothing has been written outside the image so far. */
    ghost function Now(): Canvas
      reads buffer
    {
      Canvas(buffer[..], false)
    }

    /** A border line, unless the background is transparent or there is no space. */
    method PutBorder(t: Text, lenX: nat, spaceX: nat, spaceY: nat, x: nat, line: nat)
      requires Valid() && x <= width && spaceX == width - x && lenX == LengthX(t)
      requires spaceY > 0 ==> !DrawBorder(Image(), t, Now(), x, line).stray
      modifies this`cursor, this`parity, buffer
      ensures Valid() && Now() == if spaceY > 0 then DrawBorder(Image(), t, old(Now()), x, line) else old(Now())
    {
      GetImageLocation(x, line);
      if t.bg != TRANSPARENT && spaceY > 0 {
        if line < height {
          InBuffer(Image(), buffer[..], x, line, Clip(Image(), t, x));
        } else {
          BorderStrays(Image(), t, Now(), x, line);
        }
        PutBackground(t.bg, lenX, spaceX, line < height, if line < height then Index(Image(), x, line) else 0);
      }
    }

    /** The first line of a glyph row, and the cursor before and behind it. */
    method PutFirstLine(t: Text, row: nat, spaceX: nat, x: nat, line: nat) returns (imageStart: int, imageEnd: int)
      requires Valid() && row < t.rows && x <= width && spaceX == width - x
      requires !DrawLine(Image(), Now(), x, line, Clipped(Image(), t, x, row)).stray
      modifies this`cursor, this`parity, buffer
      ensures Valid() && Now() == DrawLine(Image(), old(Now()), x, line, Clipped(Image(), t, x, row))
      ensures line < height ==> imageStart == At(kind, Index(Image(), x, line))
      ensures line < height ==> imageEnd == At(kind, Index(Image(), x, line) + Clip(Image(), t, x))
      ensures Clip(Image(), t, x) == 0 ==> imageStart == imageEnd
    {
      GetImageLocation(x, line);
      imageStart := cursor;
      ghost var at := Target(line < height, buffer[..], if line < height then Index(Image(), x, line) else 0, spaceX, cursor);
      if line < height {
        InBuffer(Image(), at.before, x, line, spaceX);
        AtMono(kind, at.p, at.p + spaceX);
      }
      RowLength(t, row);
      PutGlyphRow(t, row, spaceX, at);
      imageEnd := cursor;
    }

    /** A glyph row: its first line, and copies of it while there is space. */
    method PutRow(t: Text, row: nat, spaceX: nat, spaceY: nat, x: nat, line: nat) returns (leftY: nat, nextY: nat)
      requires Valid() && row < t.rows && x <= width && spaceX == width - x
      requires !DrawRow(Image(), t, Now(), x, line, row, Copies(t, spaceY)).stray
      modifies this`cursor, this`parity, buffer
      ensures Valid() && leftY == spaceY - Copies(t, spaceY) && nextY == line + 1 + Copies(t, spaceY)
      ensures Now() == DrawRow(Image(), t, old(Now()), x, line, row, Copies(t, spaceY))
    {
      ghost var before := Now();
      assert !DrawRow(Image(), t, before, x, line, row, 0).stray by {
        FewerStrayLess(Image(), t, before, x, line, row, 0, Copies(t, spaceY));
      }
      var imageStart, imageEnd := PutFirstLine(t, row, spaceX, x, line);
      leftY, nextY := PutCopies(t, row, spaceY, x, line, imageStart, imageEnd, before);
    }

    /** The copies below the first line. */
    method PutCopies(t: Text, ghost row: nat, spaceY: nat, x: nat, line: nat, imageStart: int, imageEnd: int, ghost before: Canvas)
      returns (leftY: nat, nextY: nat)
      requires row < t.rows && x <= width && RowSoFar(before, t, x, line, row, 0)
      requires !DrawRow(Image(), t, before, x, line, row, Copies(t, spaceY)).stray
      requires line < height ==> imageStart == At(kind, Index(Image(), x, line))
      requires line < height ==> imageEnd == At(kind, Index(Image(), x, line) + Clip(Image(), t, x))
      requires Clip(Image(), t, x) == 0 ==> imageStart == imageEnd
      modifies this`cursor, this`parity, buffer
      ensures leftY == spaceY - Copies(t, spaceY) && nextY == line + 1 + Copies(t, spaceY)
      ensures RowSoFar(before, t, x, line, row, Copies(t, spaceY))
    {
      leftY, nextY := spaceY, line + 1;
      var scale := 1;
      while scale < t.scale && leftY > 0
        invariant 1 <= scale <= 1 + Copies(t, spaceY) && leftY == spaceY - (scale - 1) && nextY == line + scale
        invariant RowSoFar(before, t, x, line, row, scale - 1)
      {
        FewerStrayLess(Image(), t, before, x, line, row, scale, Copies(t, spaceY));
        CopyDown(t, row, x, line, scale - 1, imageStart, imageEnd, before);
        nextY := nextY + 1;
        leftY := leftY - 1;
        scale := scale + 1;
      }
    }

    /** A glyph row with so many copies of its first line. */
    ghost predicate RowSoFar(before: Canvas, t: Text, x: nat, line: nat, row: nat, copies: nat)
      requires row < t.rows && x <= width
      reads buffer
    {
      Valid() && Holds(Image(), before.bytes) && Now() == DrawRow(Image(), t, before, x, line, row, copies)
    }

    /** One more copy, below the others. */
    method CopyDown(t: Text, ghost row: nat, x: nat, line: nat, copies: nat, imageStart: int, imageEnd: int, ghost before: Canvas)
      requires row < t.rows && x <= width && RowSoFar(before, t, x, line, row, copies)
      requires !DrawRow(Image(), t, before, x, line, row, copies + 1).stray
      requires line < height ==> imageStart == At(kind, Index(Image(), x, line))
      requires line < height ==> imageEnd == At(kind, Index(Image(), x, line) + Clip(Image(), t, x))
      requires Clip(Image(), t, x) == 0 ==> imageStart == imageEnd
      modifies this`cursor, this`parity, buffer
      ensures RowSoFar(before, t, x, line, row, copies + 1)
    {
      CopyRow(imageStart, imageEnd, x, line, line + copies + 1, Clip(Image(), t, x));
    }

    /** The rows of glyphs below the upper border while there is space, and the lower border. */
    method PutRows(t: Text, lenX: nat, spaceX: nat, spaceY: nat, x: nat, line: nat)
      requires Valid() && x <= width && spaceX == width - x && lenX == LengthX(t)
      requires !DrawRows(Image(), t, Now(), x, line, 0, spaceY).stray
      modifies this`cursor, this`parity, buffer
      ensures Valid() && Now() == DrawRows(Image(), t, old(Now()), x, line, 0, spaceY)
    {
      var leftY, nextY, row := spaceY, line, 0;
      while row < t.rows && leftY > 0
        invariant 0 <= row <= t.rows && Valid()
        invariant DrawRows(Image(), t, Now(), x, nextY, row, leftY) == DrawRows(Image(), t, old(Now()), x, line, 0, spaceY)
        decreases t.rows - row
      {
        leftY, nextY := PutRow(t, row, spaceX, leftY, x, nextY);
        row := row + 1;
      }
      PutBorder(t, lenX, spaceX, leftY, x, nextY);
    }

    /** The whole overlay, with lengths in 32 bits. */
    method OverlayText(locX: nat, locY: nat, t: Text)
      requires Valid() && Accommodates(Image(), t, locX, locY)
      requires LengthX(t) < TWO_32 && LengthY(t) < TWO_32
      modifies this`cursor, this`parity, buffer
      ensures Valid()
      ensures buffer[..] == Overlaid(Image(), t, old(buffer[..]), Place(locX, LengthX(t), width), Place(locY, LengthY(t), height))
    {
      var lenX := |t.chars| * CharWidth(t) + 1 + |t.chars|;
      var lenY := 2 + t.rows * t.scale;
      assert lenX == LengthX(t) && lenY == LengthY(t) by {
        StartIsProduct(|t.chars|, CharWidth(t));
        StartIsProduct(t.rows, t.scale);
      }
      var x, y := Place(locX, lenX, width), Place(locY, lenY, height);
      var spaceX: nat, spaceY: nat := width - x, height - y;
      DrawIsOverlaid(Image(), t, buffer[..], x, y);
      DrawText(t, lenX, spaceX, spaceY, x, y);
    }

    method DrawText(t: Text, lenX: nat, spaceX: nat, spaceY: nat, x: nat, y: nat)
      requires Valid() && x <= width && y <= height && spaceX == width - x && spaceY == height - y && lenX == LengthX(t)
      requires !Draw(Image(), t, buffer[..], x, y).stray
      modifies this`cursor, this`parity, buffer
      ensures Valid() && Now() == Draw(Image(), t, old(buffer[..]), x, y)
    {
      PutBorder(t, lenX, spaceX, spaceY, x, y);
      var left := spaceY;
      if left > 0 {
        left := left - 1;
      }
      PutRows(t, lenX, spaceX, left, x, y + 1);
    }
  }

  lemma TimesAfter(done: seq<Color>, c: Color, m: nat, n: nat)
    ensures done + Times(c, m) + Times(c, n) == done + Times(c, m + n)
    ensures Times(c, 1) == [c]
  {
  }

  function Clipping(n: nat, space: nat): (r: nat)
    ensures r <= n && r <= space
  {
    if n < space then n else space
  }

  lemma PutAppend(k: Kind, buf: seq<byte>, p: nat, cs: seq<Color>, c: Color)
    requires At(k, p + |cs| + 1) <= |buf|
    ensures At(k, p + |cs|) <= |buf|
    ensures PutAll(k, buf, p, cs + [c]) == Put(k, PutAll(k, buf, p, cs), p + |cs|, c)
  {
    AtMono(k, p + |cs|, p + |cs| + 1);
    assert (cs + [c])[..|cs|] == cs;
  }

  lemma PutOneMore(k: Kind, buf: seq<byte>, p: nat, cs: seq<Color>, i: nat)
    requires i < |cs| && At(k, p + i + 1) <= |buf|
    ensures At(k, p + i) <= |buf|
    ensures PutAll(k, buf, p, cs[..i + 1]) == Put(k, PutAll(k, buf, p, cs[..i]), p + i, cs[i])
  {
    assert cs[..i + 1] == cs[..i] + [cs[i]];
    PutAppend(k, buf, p, cs[..i], cs[i]);
  }

  /** A copied line is the bytes of one run over those of another. */
  lemma CopySpan(s: Surface, buf: seq<byte>, x: nat, a: nat, b: nat, n: nat)
    requires Holds(s, buf) && a < s.height && b < s.height && a != b && x + n <= s.width
    ensures var p, q, end := At(s.kind, Index(s, x, a)), At(s.kind, Index(s, x, b)), At(s.kind, Index(s, x, a) + n);
      && p <= end <= |buf| && q + (end - p) <= |buf| && (end <= q || q + (end - p) <= p)
      && CopyLine(s, buf, x, a, b, n) == (if end == p then buf else Patch(buf, q, buf[p..end]))
  {
    var p, q, end := At(s.kind, Index(s, x, a)), At(s.kind, Index(s, x, b)), At(s.kind, Index(s, x, a) + n);
    InBuffer(s, buf, x, a, n);
    InBuffer(s, buf, x, b, n);
    SpansApart(s, x, a, b, n);
    if end == p {
      PatchNothing(buf, q, buf[p..end]);
    }
  }

  /** The runs of `n` pixels at column `x` of two different rows share no byte. */
  lemma SpansApart(s: Surface, x: nat, a: nat, b: nat, n: nat)
    requires a < s.height && b < s.height && a != b && x + n <= s.width && (s.kind.Yuy2? ==> s.width % 2 == 0)
    ensures var p, q := Index(s, x, a), Index(s, x, b);
      && At(s.kind, p) <= At(s.kind, p + n) && At(s.kind, p + n) - At(s.kind, p) == At(s.kind, q + n) - At(s.kind, q)
      && (At(s.kind, p + n) <= At(s.kind, q) || At(s.kind, q + n) <= At(s.kind, p))
  {
    var p, q := Index(s, x, a), Index(s, x, b);
    AtMono(s.kind, p, p + n);
    SameParity(s, x, a);
    SameParity(s, x, b);
    SameSpan(s.kind, p, q, n);
    if MemoryRow(s, a) < MemoryRow(s, b) {
      StartMono(MemoryRow(s, a) + 1, MemoryRow(s, b), s.width);
      AtMono(s.kind, p + n, q);
    } else {
      StartMono(MemoryRow(s, b) + 1, MemoryRow(s, a), s.width);
      AtMono(s.kind, q + n, p);
    }
  }
}
