/** The size check on capture formats (avstream/avshws/capture.cpp), the choice of a synthesizer
    (device.cpp), and what they mean for writes into the synthesis buffer. */
module FormatCheck {
  import opened Words
  import opened Pixels
  import opened Overlay
  import opened TextOverlay
  import I = ImageSynthesizer

  datatype Compression = BiRgb | FourccYuy2 | OtherCompression

  /** The fields of a KS_BITMAPINFOHEADER that the code looks at. */
  datatype Header = Header(width: int, height: int, bitCount: nat, compression: Compression, sizeImage: nat)

  /** LONG and DWORD fields. */
  ghost predicate InRange(h: Header) {
    -0x8000_0000 <= h.width < 0x8000_0000 && -0x8000_0000 <= h.height < 0x8000_0000
      && h.bitCount < 0x1_0000 && h.sizeImage < TWO_32
  }

  function Abs(x: int): nat {
    if x < 0 then -x else x
  }

  /** TRUE means that the product fits 32 bits; then it is the product. */
  method MultiplyCheckOverflow(a: nat, b: nat) returns (fits: bool, product: nat)
    requires a < TWO_32 && b < TWO_32
    ensures fits <==> a * b < TWO_32
    ensures product == U32(a * b)
  {
    product := U32(a * b);
    ProductDivides(a, b);
    fits := a == 0 || product / a == b;
  }

  lemma ProductDivides(a: nat, b: nat)
    ensures a > 0 ==> (U32(a * b) / a == b <==> a * b < TWO_32)
  {
    if a > 0 {
      var p, q := U32(a * b), U32(a * b) / a;
      assert a * b == TWO_32 * (a * b / TWO_32) + p;
      assert p == a * q + p % a;
      if a * b < TWO_32 {
        RemainderIsUnique(a * b, TWO_32, 0, a * b);
        RemainderIsUnique(a * b, a, b, 0);
      } else {
        MultipleIsLarge(TWO_32, a * b / TWO_32);
        assert p < a * b;
      }
    }
  }

  /** What the check is to accept: the image's bytes fit 32 bits and biSizeImage. */
  ghost predicate Accepted(h: Header) {
    var pixels := U32(h.width) * Abs(h.height);
    pixels < TWO_32 && pixels * (h.bitCount / 8) < TWO_32 && pixels * (h.bitCount / 8) <= h.sizeImage
  }

  /** The part of DispatchSetFormat that compares the image with biSizeImage. */
  method CheckImageSize(h: Header) returns (accepted: bool)
    requires InRange(h)
    ensures accepted <==> Accepted(h)
  {
    var width, height, bytes := U32(h.width), Abs(h.height), h.bitCount / 8;
    var fits, pixels := MultiplyCheckOverflow(width, height);
    if !fits {
      return false;
    }
    U32Small(width * height);
    var imageSize;
    fits, imageSize := MultiplyCheckOverflow(pixels, bytes);
    if !fits {
      return false;
    }
    U32Small(pixels * bytes);
    accepted := h.sizeImage >= imageSize;
  }

  /** AcquireHardwareResources: the two kinds there are a synthesizer for. */
  datatype Synthesizer = NoSynthesizer | Synthesizer(kind: Kind)

  function Acquired(h: Header): Synthesizer {
    if h.bitCount == 24 && h.compression == BiRgb then Synthesizer(Rgb24(h.height >= 0))
    else if h.bitCount == 16 && h.compression == FourccYuy2 then Synthesizer(Yuy2)
    else NoSynthesizer
  }

  /** 24-bit RGB in either orientation and 16-bit YUY2 have a synthesizer of as many bits a pixel, and no
      other format has one; images of RGB are stored bottom row first unless their height is negative. */
  lemma SupportedFormats(h: Header)
    ensures Acquired(h).Synthesizer? <==> h == h.(bitCount := 24, compression := BiRgb) || h == h.(bitCount := 16, compression := FourccYuy2)
    ensures Acquired(h).Synthesizer? ==> 8 * BytesPerPixel(Acquired(h).kind) == h.bitCount
    ensures Acquired(h).Synthesizer? && Acquired(h).kind.Rgb24? ==> (Acquired(h).kind.flipVertical <==> h.height >= 0)
  {
  }

  /** m_Width and m_Height, as ULONGs. */
  function Image(h: Header, k: Kind): Surface {
    Surface(k, U32(h.width), Abs(h.height))
  }

  function ImageSize(s: Surface): nat {
    s.width * s.height * BytesPerPixel(s.kind)
  }

  /** All pixels together take the width times the height times the bytes of one. */
  lemma ImageBytes(s: Surface)
    requires s.kind.Yuy2? ==> s.width % 2 == 0
    ensures At(s.kind, Start(s.height, s.width)) == ImageSize(s)
  {
    StartIsProduct(s.height, s.width);
    AtIs(s.kind, Start(s.height, s.width));
    if s.kind.Yuy2? {
      EvenRows(s.height, s.width);
    }
  }

  /** For a format with a synthesizer the check accepts exactly the headers whose image takes at most
      biSizeImage bytes, whatever the products in 32 bits; with an even width in packed 4:2:2 that is
      exactly when a buffer of that size holds the image. */
  lemma AcceptedIffHeld(h: Header, buffer: seq<byte>)
    requires InRange(h) && Acquired(h).Synthesizer? && |buffer| == h.sizeImage
    ensures var s := Image(h, Acquired(h).kind);
      && (Accepted(h) <==> ImageSize(s) <= h.sizeImage)
      && ((s.kind.Yuy2? ==> s.width % 2 == 0) ==> (Accepted(h) <==> Holds(s, buffer)))
  {
    var s := Image(h, Acquired(h).kind);
    assert h.bitCount / 8 == BytesPerPixel(s.kind);
    if s.kind.Yuy2? ==> s.width % 2 == 0 {
      ImageBytes(s);
    }
    var p := s.width * s.height;
    assert p <= p * BytesPerPixel(s.kind);
  }

  // -------------------------------------------------------------- pixels of any accepted format

  /** Where GetImageLocation finds pixel (x, y), in ULONG arithmetic. */
  function Location(s: Surface, x: nat, y: nat): nat {
    if s.kind.Yuy2? then U32(2 * (x + y * s.width)) + x % 2
    else U32(3 * (x + (if s.kind.flipVertical then s.height - 1 - y else y) * s.width))
  }

  /** Inside an image whose bytes fit 32 bits nothing wraps. */
  lemma LocationIs(s: Surface, x: nat, y: nat)
    requires x < s.width && y < s.height && ImageSize(s) < TWO_32
    ensures Location(s, x, y) + BytesPerPixel(s.kind)
         == BytesPerPixel(s.kind) * (MemoryRow(s, y) * s.width + x + 1) + (if s.kind.Yuy2? then x % 2 else 0)
    ensures BytesPerPixel(s.kind) * (MemoryRow(s, y) * s.width + x + 1) <= ImageSize(s)
  {
    var b, before := BytesPerPixel(s.kind), MemoryRow(s, y) * s.width;
    LastIsLast(s.width, s.height, x, MemoryRow(s, y));
    ProductMono(b, before + x + 1, s.width * s.height);
    var i := x + before;
    assert b * i + b == b * (before + x + 1);
    assert Location(s, x, y) == U32(b * i) + (if s.kind.Yuy2? then x % 2 else 0);
    U32Small(b * i);
  }

  /** In an accepted format every pixel lies inside the allocated buffer, except the last one of a
      packed 4:2:2 image of odd width: it ends one byte behind the image, so a buffer of exactly the
      image's size is too short for it. */
  lemma AcceptedPixelsInside(h: Header, x: nat, y: nat)
    requires InRange(h) && Acquired(h).Synthesizer? && Accepted(h)
    requires x < U32(h.width) && y < Abs(h.height)
    ensures var s := Image(h, Acquired(h).kind);
      Location(s, x, y) + Length(s.kind, x) <= h.sizeImage
      <==> !(s.kind.Yuy2? && s.width % 2 == 1 && x == s.width - 1 && y == s.height - 1
             && h.sizeImage == ImageSize(s))
  {
    var s := Image(h, Acquired(h).kind);
    AcceptedIffHeld(h, seq<byte>(h.sizeImage, i => 0));
    PixelEnd(s, x, y);
  }

  lemma PixelEnd(s: Surface, x: nat, y: nat)
    requires x < s.width && y < s.height && ImageSize(s) < TWO_32
    ensures s.kind.Rgb24? || s.width % 2 == 0 || x != s.width - 1 || y != s.height - 1 ==>
      Location(s, x, y) + Length(s.kind, x) <= ImageSize(s)
    ensures s.kind.Yuy2? && s.width % 2 == 1 && x == s.width - 1 && y == s.height - 1 ==>
      Location(s, x, y) + Length(s.kind, x) == ImageSize(s) + 1
  {
    LocationIs(s, x, y);
    if s.kind.Yuy2? && x % 2 == 0 {
      LastIsLast(s.width, s.height, x, y);
    }
  }

  /** The pixel with the highest number is the last one. */
  lemma LastIsLast(w: nat, n: nat, x: nat, y: nat)
    requires x < w && y < n
    ensures y * w + x + 1 <= w * n
    ensures y * w + x + 1 == w * n <==> x == w - 1 && y == n - 1
  {
    MultipleIsLarge(w, n - y - 1);
    assert w * n == w * (n - y - 1) + y * w + w;
  }

  /** What SynthesizeBars writes lies inside the buffer: a run of the whole width at the beginning
      of the first line, even of an image without lines, and of every other. */
  ghost predicate BarsInside(s: Surface, size: nat) {
    s.width == 0 || forall line: nat | line < Max(1, s.height) :: RunEnd(s, line) <= size
  }

  function RunEnd(s: Surface, line: nat): nat {
    Location(s, 0, line) + At(s.kind, s.width)
  }

  /** The bars of an accepted format stay inside the buffer if and only if the image is empty to the
      right, or has lines and is no packed 4:2:2 image of odd width that fills the buffer. Without
      lines, the first one is drawn all the same, and only packed 4:2:2 with room for it will do. */
  lemma BarsInsideIff(h: Header)
    requires InRange(h) && Acquired(h).Synthesizer? && Accepted(h)
    ensures var s := Image(h, Acquired(h).kind);
      BarsInside(s, h.sizeImage) <==>
        || s.width == 0
        || (if s.height == 0 then s.kind.Yuy2? && 2 * s.width + s.width % 2 <= h.sizeImage
            else s.kind.Rgb24? || s.width % 2 == 0 || ImageSize(s) < h.sizeImage)
  {
    var s := Image(h, Acquired(h).kind);
    AcceptedIffHeld(h, seq<byte>(h.sizeImage, i => 0));
    if s.width > 0 && s.height == 0 {
      FirstRunOfNone(s);
      assert BarsInside(s, h.sizeImage) <==> RunEnd(s, 0) <= h.sizeImage;
    } else if s.width > 0 {
      assert ImageSize(s) < TWO_32;
      RunsOfLines(s, h.sizeImage);
    }
  }

  /** The bytes by which the last pixel of a line exceeds its place. */
  function Excess(s: Surface): nat {
    if s.kind.Yuy2? then s.width % 2 else 0
  }

  lemma RunEndIs(s: Surface, line: nat)
    requires 0 < s.width && line < s.height && ImageSize(s) < TWO_32
    ensures RunEnd(s, line) <= ImageSize(s) + Excess(s)
    ensures MemoryRow(s, line) == s.height - 1 ==> RunEnd(s, line) == ImageSize(s) + Excess(s)
  {
    var row, b := MemoryRow(s, line), BytesPerPixel(s.kind);
    LocationIs(s, 0, line);
    AtIs(s.kind, s.width);
    LastIsLast(s.width, s.height, s.width - 1, row);
    var before := row * s.width;
    assert Location(s, 0, line) == b * before && At(s.kind, s.width) == b * s.width + Excess(s);
    assert RunEnd(s, line) == b * (before + s.width) + Excess(s);
    ProductMono(b, before + s.width, s.width * s.height);
  }

  lemma ProductMono(b: nat, m: nat, n: nat)
    requires m <= n
    ensures b * m <= b * n
  {
    assert b * n == b * m + b * (n - m);
  }

  lemma RunsOfLines(s: Surface, size: nat)
    requires 0 < s.width && 0 < s.height && ImageSize(s) < TWO_32
    ensures BarsInside(s, size) <==> ImageSize(s) + Excess(s) <= size
  {
    forall line: nat | line < s.height
      ensures RunEnd(s, line) <= ImageSize(s) + Excess(s)
    {
      RunEndIs(s, line);
    }
    var last := if s.kind.Rgb24? && s.kind.flipVertical then 0 else s.height - 1;
    RunEndIs(s, last);
    assert BarsInside(s, size) ==> RunEnd(s, last) <= size;
  }

  /** The wrapped place of the line above the first ends the run at a multiple of 2^32. */
  lemma FirstRunOfNone(s: Surface)
    requires 0 < s.width && s.height == 0 && (s.kind.Rgb24? ==> s.kind.flipVertical)
    ensures s.kind.Rgb24? ==> RunEnd(s, 0) >= TWO_32
    ensures s.kind.Yuy2? ==> RunEnd(s, 0) == 2 * s.width + s.width % 2
  {
    AtIs(s.kind, s.width);
    if s.kind.Rgb24? {
      var q := (-3 * s.width) / TWO_32;
      assert -3 * s.width == TWO_32 * q + U32(-3 * s.width);
      assert 3 * (0 + (s.height - 1 - 0) * s.width) == -3 * s.width;
      assert RunEnd(s, 0) == TWO_32 * -q;
      MultipleIsLarge(TWO_32, -q);
    }
  }

  // ------------------------------------------------------------------------ two overlays

  /** FakeHardware's two overlays, the clock 28 lines above the bottom and the counter at (10, 10),
      both of scale 1: their places lie inside the image and they fit if and only if the image is at
      least 27 lines high and 10 pixels wide. At 27 lines the clock's line wraps to the value that
      asks for centering. */
  lemma ClockAndCounterFitIff(s: Surface, clock: Text, counter: Text)
    requires s.width < TWO_32 && s.height < TWO_32 && clock.scale == counter.scale == 1
    requires clock.rows == counter.rows == 8
    ensures I.Accommodates(s, clock, I.POSITION_CENTER, U32(s.height - 28)) && I.Accommodates(s, counter, 10, 10)
        <==> s.height >= 27 && s.width >= 10
  {
    StartIsProduct(8, 1);
    if s.height >= 28 {
      U32Small(s.height - 28);
    } else {
      RemainderIsUnique(s.height - 28, TWO_32, -1, s.height - 28 + TWO_32);
    }
  }
}
