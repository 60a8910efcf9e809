/** What CImageSynthesizer::OverlayText (avstream/avshws/image.cpp) draws line by line, with the space
    it counts, and when nothing of it lies outside the image. */
module TextDrawing {
  import opened Words
  import opened Pixels
  import opened Overlay
  import opened TextOverlay

  /** The buffer, and whether a pixel was written on a line that the image does not have. */
  datatype Canvas = Canvas(bytes: seq<byte>, stray: bool)

  function DrawLine(s: Surface, c: Canvas, x: nat, line: nat, cs: seq<Color>): (r: Canvas)
    requires Holds(s, c.bytes) && x + |cs| <= s.width
    ensures |r.bytes| == |c.bytes| && (c.stray ==> r.stray)
  {
    if line < s.height then Canvas(Line(s, c.bytes, x, line, cs), c.stray)
    else Canvas(c.bytes, c.stray || !Blank(cs))
  }

  function DrawCopy(s: Surface, c: Canvas, x: nat, from: nat, to: nat, n: nat): (r: Canvas)
    requires Holds(s, c.bytes) && x + n <= s.width && from < to
    ensures |r.bytes| == |c.bytes| && (c.stray ==> r.stray)
  {
    if to < s.height then Canvas(CopyLine(s, c.bytes, x, from, to, n), c.stray)
    else Canvas(c.bytes, c.stray || n > 0)
  }

  function DrawBorder(s: Surface, t: Text, c: Canvas, x: nat, line: nat): (r: Canvas)
    requires Holds(s, c.bytes) && x <= s.width
    ensures |r.bytes| == |c.bytes| && (c.stray ==> r.stray)
  {
    if t.bg == TRANSPARENT then c else DrawLine(s, c, x, line, Times(t.bg, Clip(s, t, x)))
  }

  /** A glyph row's first line and `copies` copies of it below. */
  function DrawRow(s: Surface, t: Text, c: Canvas, x: nat, line: nat, row: nat, copies: nat): (r: Canvas)
    requires Holds(s, c.bytes) && x <= s.width && row < t.rows
    ensures |r.bytes| == |c.bytes| && (c.stray ==> r.stray)
    decreases copies
  {
    if copies == 0 then DrawLine(s, c, x, line, Clipped(s, t, x, row))
    else DrawCopy(s, DrawRow(s, t, c, x, line, row, copies - 1), x, line, line + copies, Clip(s, t, x))
  }

  /** As many copies as the code makes: a line of space is counted for each of them, but not for the
      glyph row itself. */
  function Copies(t: Text, spaceY: nat): nat {
    Min(RowLines(t) - 1, spaceY)
  }

  /** The glyph rows from `row` on while there is space, and the lower border if some is left. */
  function DrawRows(s: Surface, t: Text, c: Canvas, x: nat, line: nat, row: nat, spaceY: nat): (r: Canvas)
    requires Holds(s, c.bytes) && x <= s.width && row <= t.rows
    ensures |r.bytes| == |c.bytes| && (c.stray ==> r.stray)
    decreases t.rows - row
  {
    if spaceY == 0 then c
    else if row == t.rows then DrawBorder(s, t, c, x, line)
    else
      var copies := Copies(t, spaceY);
      DrawRows(s, t, DrawRow(s, t, c, x, line, row, copies), x, line + 1 + copies, row + 1, spaceY - copies)
  }

  /** What the code does at (x, y), whether or not the text fits there. */
  function Draw(s: Surface, t: Text, buf: seq<byte>, x: nat, y: nat): (r: Canvas)
    requires Holds(s, buf) && x <= s.width && y <= s.height
    ensures |r.bytes| == |buf|
  {
    if y == s.height then Canvas(buf, false)
    else DrawRows(s, t, DrawBorder(s, t, Canvas(buf, false), x, y), x, y + 1, 0, s.height - y - 1)
  }

  // the pieces inside the image

  lemma {:induction false} RowIsInside(s: Surface, t: Text, c: Canvas, x: nat, line: nat, row: nat, copies: nat)
    requires Holds(s, c.bytes) && x <= s.width && row < t.rows && line + copies < s.height
    ensures DrawRow(s, t, c, x, line, row, copies) == Canvas(RowWithCopies(s, t, c.bytes, x, line, row, copies), c.stray)
    decreases copies
  {
    if copies > 0 {
      RowIsInside(s, t, c, x, line, row, copies - 1);
    }
  }

  /** Without a column left nothing is drawn. */
  lemma {:induction false} RowIsEmpty(s: Surface, t: Text, c: Canvas, x: nat, line: nat, row: nat, copies: nat)
    requires Holds(s, c.bytes) && x == s.width && row < t.rows
    ensures DrawRow(s, t, c, x, line, row, copies) == c
    decreases copies
  {
    if copies > 0 {
      RowIsEmpty(s, t, c, x, line, row, copies - 1);
      if line + copies < s.height {
        CopyNothing(s, c.bytes, x, line, line + copies);
      }
    }
  }

  lemma CopyNothing(s: Surface, buf: seq<byte>, x: nat, from: nat, to: nat)
    requires Holds(s, buf) && from < s.height && to < s.height && x <= s.width
    ensures CopyLine(s, buf, x, from, to, 0) == buf
  {
    InBuffer(s, buf, x, from, 0);
    InBuffer(s, buf, x, to, 0);
    PatchNothing(buf, At(s.kind, Index(s, x, to)), buf[At(s.kind, Index(s, x, from))..At(s.kind, Index(s, x, from) + 0)]);
  }

  /** Fewer copies stray no more than more of them. */
  lemma {:induction false} FewerStrayLess(s: Surface, t: Text, c: Canvas, x: nat, line: nat, row: nat, few: nat, many: nat)
    requires Holds(s, c.bytes) && x <= s.width && row < t.rows && few <= many
    ensures DrawRow(s, t, c, x, line, row, few).stray ==> DrawRow(s, t, c, x, line, row, many).stray
    decreases many
  {
    if few < many {
      FewerStrayLess(s, t, c, x, line, row, few, many - 1);
    }
  }

  lemma {:induction false} RowsAreEmpty(s: Surface, t: Text, c: Canvas, x: nat, line: nat, row: nat, spaceY: nat)
    requires Holds(s, c.bytes) && x == s.width && row <= t.rows
    ensures DrawRows(s, t, c, x, line, row, spaceY) == c
    decreases t.rows - row
  {
    if row < t.rows && spaceY > 0 {
      var copies := Copies(t, spaceY);
      RowIsEmpty(s, t, c, x, line, row, copies);
      RowsAreEmpty(s, t, c, x, line + 1 + copies, row + 1, spaceY - copies);
    }
  }

  /** Below the image, empty glyph rows without copies are drawn without a trace. */
  lemma {:induction false} RowsAreBlank(s: Surface, t: Text, c: Canvas, x: nat, line: nat, row: nat, spaceY: nat)
    requires Holds(s, c.bytes) && x <= s.width && row <= t.rows && s.height <= line
    requires t.bg == TRANSPARENT && t.scale <= 1 && BlankFrom(s, t, x, row)
    ensures DrawRows(s, t, c, x, line, row, spaceY) == c
    decreases t.rows - row
  {
    if row < t.rows && spaceY > 0 {
      RowsAreBlank(s, t, c, x, line + 1, row + 1, spaceY);
    }
  }

  /** The space left before glyph row `row`, of the lines below the upper border. */
  function SpaceAt(t: Text, lines: nat, row: nat): int {
    lines - Start(row, RowLines(t) - 1)
  }

  lemma MoreRows(n: nat, row: nat, l: nat)
    requires row < n && 0 < l
    ensures n * l >= row * (l - 1) + l
  {
    var more := n - row - 1;
    assert n * l == row * l + more * l + l;
    MultipleIsLarge(l, more);
    assert row * l == row * (l - 1) + row;
  }

  lemma SpaceEnough(t: Text, lines: nat, row: nat, n: nat)
    requires row < n && Start(n, RowLines(t)) <= lines
    ensures SpaceAt(t, lines, row) >= RowLines(t)
  {
    StartIsProduct(n, RowLines(t));
    StartIsProduct(row, RowLines(t) - 1);
    MoreRows(n, row, RowLines(t));
  }

  /** What is left to draw when the glyph rows before `row` are. */
  function Remaining(s: Surface, t: Text, buf: seq<byte>, x: nat, y: nat, row: nat): Canvas
    requires Holds(s, buf) && x <= s.width && row <= t.rows && y + 1 + Start(row, RowLines(t)) <= s.height
  {
    SpaceLeft(t, s.height - y - 1, row);
    DrawRows(s, t, Canvas(Rows(s, t, buf, x, y, row), false), x, FirstLine(t, y, row), row, SpaceAt(t, s.height - y - 1, row))
  }

  lemma OneRowInside(s: Surface, t: Text, buf: seq<byte>, x: nat, y: nat, row: nat)
    requires Holds(s, buf) && x <= s.width && row < t.rows && y + 1 + Start(row + 1, RowLines(t)) <= s.height
    ensures Remaining(s, t, buf, x, y, row) == Remaining(s, t, buf, x, y, row + 1)
  {
    SpaceEnough(t, s.height - y - 1, row, row + 1);
    RowIsInside(s, t, Canvas(Rows(s, t, buf, x, y, row), false), x, FirstLine(t, y, row), row, RowLines(t) - 1);
  }

  /** While glyph rows lie inside the image the code draws them whole. */
  lemma {:induction false} RowsAreInside(s: Surface, t: Text, buf: seq<byte>, x: nat, y: nat, n: nat)
    requires Holds(s, buf) && x <= s.width && n <= t.rows && y + 1 + Start(n, RowLines(t)) <= s.height
    ensures Remaining(s, t, buf, x, y, 0) == Remaining(s, t, buf, x, y, n)
  {
    if n > 0 {
      RowsAreInside(s, t, buf, x, y, n - 1);
      OneRowInside(s, t, buf, x, y, n - 1);
    }
  }

  lemma SpaceLeft(t: Text, lines: nat, n: nat)
    requires Start(n, RowLines(t)) <= lines
    ensures SpaceAt(t, lines, n) >= n + (lines - Start(n, RowLines(t)))
  {
    StartIsProduct(n, RowLines(t));
    StartIsProduct(n, RowLines(t) - 1);
    assert n * RowLines(t) == n * (RowLines(t) - 1) + n;
  }

  /** Behind the glyph rows inside the image come the lower border, or rows that leave no trace. */
  lemma RestIsOverlaid(s: Surface, t: Text, buf: seq<byte>, x: nat, y: nat)
    requires Holds(s, buf) && x < s.width && y < s.height && Fits(s, t, x, y)
    ensures y + 1 + Start(WholeRows(t, s.height - y - 1), RowLines(t)) <= s.height
    ensures Remaining(s, t, Border(s, t, buf, x, y), x, y, WholeRows(t, s.height - y - 1))
         == Canvas(Overlaid(s, t, buf, x, y), false)
  {
    var lines, above := s.height - y - 1, Border(s, t, buf, x, y);
    var n := WholeRows(t, lines);
    RowsFit(s, t, x, y);
    SpaceLeft(t, lines, n);
    if n < t.rows && lines > 0 {
      StartIsProduct(n, 1);
      StartIsProduct(t.rows, 1);
      RowsAreBlank(s, t, Canvas(Rows(s, t, above, x, y, n), false), x, FirstLine(t, y, n), n, SpaceAt(t, lines, n));
    }
  }

  lemma DrawIsRemaining(s: Surface, t: Text, buf: seq<byte>, x: nat, y: nat)
    requires Holds(s, buf) && x < s.width && y < s.height && Fits(s, t, x, y)
    ensures y + 1 + Start(WholeRows(t, s.height - y - 1), RowLines(t)) <= s.height
    ensures Draw(s, t, buf, x, y) == Remaining(s, t, Border(s, t, buf, x, y), x, y, WholeRows(t, s.height - y - 1))
  {
    RowsFit(s, t, x, y);
    RowsAreInside(s, t, Border(s, t, buf, x, y), x, y, WholeRows(t, s.height - y - 1));
  }

  /** Where the text fits, what the code does is the overlay, and nothing outside the image. */
  lemma DrawIsOverlaid(s: Surface, t: Text, buf: seq<byte>, x: nat, y: nat)
    requires Holds(s, buf) && x <= s.width && y <= s.height && Fits(s, t, x, y)
    ensures Draw(s, t, buf, x, y) == Canvas(Overlaid(s, t, buf, x, y), false)
  {
    if x == s.width && y < s.height {
      RowsAreEmpty(s, t, Canvas(buf, false), x, y + 1, 0, s.height - y - 1);
    } else if y < s.height {
      DrawIsRemaining(s, t, buf, x, y);
      RestIsOverlaid(s, t, buf, x, y);
    }
  }

  // ------------------------------------------------------------- and where it does not

  /** An opaque border below the image leaves a trace. */
  lemma BorderStrays(s: Surface, t: Text, c: Canvas, x: nat, line: nat)
    requires Holds(s, c.bytes) && x <= s.width && s.height <= line && t.bg != TRANSPARENT
    ensures DrawBorder(s, t, c, x, line).stray || Clip(s, t, x) == 0
  {
    assert Clip(s, t, x) > 0 ==> Times(t.bg, Clip(s, t, x))[0] == t.bg;
  }

  /** Without copies a glyph row below the image that is not empty leaves a trace. */
  lemma {:induction false} FlatRowStrays(s: Surface, t: Text, c: Canvas, x: nat, line: nat, row: nat, spaceY: nat, r: nat)
    requires Holds(s, c.bytes) && x <= s.width && row <= r < t.rows && t.scale <= 1 && spaceY > 0
    requires line + (r - row) >= s.height && !Blank(Clipped(s, t, x, r))
    ensures DrawRows(s, t, c, x, line, row, spaceY).stray
    decreases r - row
  {
    if row < r {
      FlatRowStrays(s, t, DrawRow(s, t, c, x, line, row, 0), x, line + 1, row + 1, spaceY, r);
    }
  }

  /** So does the lower border, unless it is transparent. */
  lemma {:induction false} FlatBorderStrays(s: Surface, t: Text, c: Canvas, x: nat, line: nat, row: nat, spaceY: nat)
    requires Holds(s, c.bytes) && x < s.width && row <= t.rows && t.scale <= 1 && spaceY > 0
    requires line + (t.rows - row) >= s.height && t.bg != TRANSPARENT
    ensures DrawRows(s, t, c, x, line, row, spaceY).stray
    decreases t.rows - row
  {
    if row < t.rows {
      FlatBorderStrays(s, t, DrawRow(s, t, c, x, line, row, 0), x, line + 1, row + 1, spaceY);
    } else {
      BorderStrays(s, t, c, x, line);
    }
  }

  /** The lower border, where there is one. */
  function BorderLines(t: Text): nat {
    if t.bg == TRANSPARENT then 0 else 1
  }

  /** With copies the code runs out of lines before it runs out of space, and the copy on the last
      line of space lies below the image. */
  lemma {:induction false} TallRowsStray(s: Surface, t: Text, c: Canvas, x: nat, line: nat, row: nat, spaceY: nat)
    requires Holds(s, c.bytes) && x < s.width && row < t.rows && t.scale > 1 && spaceY > 0
    requires line + spaceY >= s.height
    requires line + Start(t.rows - row, t.scale) + BorderLines(t) > s.height
    ensures DrawRows(s, t, c, x, line, row, spaceY).stray
    decreases t.rows - row
  {
    var copies := Copies(t, spaceY);
    var d := DrawRow(s, t, c, x, line, row, copies);
    if line + copies < s.height {
      if row + 1 < t.rows {
        TallRowsStray(s, t, d, x, line + t.scale, row + 1, spaceY - copies);
      } else {
        BorderStrays(s, t, d, x, line + t.scale);
      }
    }
  }

  /** Nothing is written outside the image if and only if the text fits. */
  lemma FitsIff(s: Surface, t: Text, buf: seq<byte>, x: nat, y: nat)
    requires Holds(s, buf) && x <= s.width && y <= s.height
    ensures !Draw(s, t, buf, x, y).stray <==> Fits(s, t, x, y)
  {
    if Fits(s, t, x, y) {
      DrawIsOverlaid(s, t, buf, x, y);
    } else {
      var lines, c := s.height - y - 1, DrawBorder(s, t, Canvas(buf, false), x, y);
      StartIsProduct(t.rows, RowLines(t));
      if t.scale > 1 {
        TallRowsStray(s, t, c, x, y + 1, 0, lines);
      } else if t.bg != TRANSPARENT {
        FlatBorderStrays(s, t, c, x, y + 1, 0, lines);
      } else {
        var r :| lines <= r < t.rows && !Blank(Clipped(s, t, x, r));
        FlatRowStrays(s, t, c, x, y + 1, 0, lines, r);
      }
    }
  }

  /** On an opaque background with a column left, only one line or all lines of space will do: of
      the code's eight rows at scale 1, two to nine lines of space are not enough. */
  lemma OpaqueFitsIff(s: Surface, t: Text, buf: seq<byte>, x: nat, y: nat)
    requires Holds(s, buf) && x < s.width && y <= s.height && t.bg != TRANSPARENT
    ensures !Draw(s, t, buf, x, y).stray <==> s.height - y <= 1 || s.height - y >= t.rows * RowLines(t) + 2
  {
    FitsIff(s, t, buf, x, y);
    StartIsProduct(t.rows, RowLines(t));
  }
}
