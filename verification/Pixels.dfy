/** Pixels in the synthesis buffer of avstream/avshws: where each one lies and which bytes a color
    puts there, for RGB24 and for packed 4:2:2 (image.h, image.cpp). */
module Pixels {
  import opened Words

  /** The two synthesizers; RGB24 surfaces come in both orientations. */
  datatype Kind = Rgb24(flipVertical: bool) | Yuy2

  datatype Color = BLACK | WHITE | YELLOW | CYAN | GREEN | MAGENTA | RED | BLUE | GREY | TRANSPARENT

  /** CRGB24Synthesizer::Colors. */
  function Rgb(c: Color): (byte, byte, byte) {
    match c
    case BLACK => (0, 0, 0)
    case WHITE => (255, 255, 255)
    case YELLOW => (0, 255, 255)
    case CYAN => (255, 255, 0)
    case GREEN => (0, 255, 0)
    case MAGENTA => (255, 0, 255)
    case RED => (0, 0, 255)
    case BLUE => (255, 0, 0)
    case GREY => (128, 128, 128)
    case TRANSPARENT => (0, 0, 0)
  }

  /** CYUVSynthesizer::Colors. */
  function Yuv(c: Color): (byte, byte, byte) {
    match c
    case BLACK => (128, 16, 128)
    case WHITE => (128, 235, 128)
    case YELLOW => (16, 211, 146)
    case CYAN => (166, 170, 16)
    case GREEN => (54, 145, 34)
    case MAGENTA => (202, 106, 222)
    case RED => (90, 81, 240)
    case BLUE => (240, 41, 109)
    case GREY => (128, 125, 128)
    case TRANSPARENT => (0, 0, 0)
  }

  function BytesPerPixel(k: Kind): nat {
    if k.Rgb24? then 3 else 2
  }

  // ------------------------------------------------------------------- pixel places

  /** How many bytes pixel `p`, counted in memory order, owns. In packed 4:2:2 an even pixel owns
      three bytes of its group of four, an odd one the fourth. */
  function Length(k: Kind, p: nat): nat {
    if k.Rgb24? || p % 2 == 0 then 3 else 1
  }

  /** Where its bytes begin: behind those of the pixels before it. */
  function At(k: Kind, p: nat): nat {
    if p == 0 then 0 else At(k, p - 1) + Length(k, p - 1)
  }

  lemma {:induction false} AtIs(k: Kind, p: nat)
    ensures At(k, p) == if k.Rgb24? then 3 * p else 2 * p + p % 2
  {
    if p > 0 {
      AtIs(k, p - 1);
    }
  }

  lemma NextAt(k: Kind, p: nat)
    ensures At(k, p + 1) == At(k, p) + Length(k, p)
  {
  }

  lemma {:induction false} AtMono(k: Kind, p: nat, q: nat)
    requires p <= q
    ensures At(k, p) <= At(k, q)
    decreases q
  {
    if p < q {
      AtMono(k, p, q - 1);
    }
  }

  /** Pixels that start at the same parity take the same bytes. */
  lemma {:induction false} SameSpan(k: Kind, p: nat, q: nat, n: nat)
    requires k.Yuy2? ==> p % 2 == q % 2
    ensures At(k, p + n) - At(k, p) == At(k, q + n) - At(k, q)
    ensures Length(k, p + n) == Length(k, q + n)
    decreases n
  {
    if n > 0 {
      SameSpan(k, p, q, n - 1);
      NextAt(k, p + n - 1);
      NextAt(k, q + n - 1);
    }
  }

  /** The bytes a pixel owns. */
  datatype Dot = Dot3(a: byte, b: byte, c: byte) | Dot1(v: byte)

  function Bytes(d: Dot): seq<byte> {
    match d
    case Dot3(a, b, c) => [a, b, c]
    case Dot1(v) => [v]
  }

  /** What a color makes of pixel `p`. */
  function Colored(k: Kind, p: nat, c: Color): (d: Dot)
    ensures |Bytes(d)| == Length(k, p)
  {
    if k.Rgb24? then Dot3(Rgb(c).0, Rgb(c).1, Rgb(c).2)
    else if p % 2 == 0 then Dot3(Yuv(c).1, Yuv(c).0, Yuv(c).1)
    else Dot1(Yuv(c).2)
  }

  function Pixel(k: Kind, buf: seq<byte>, p: nat): Dot
    requires At(k, p + 1) <= |buf|
  {
    NextAt(k, p);
    var i := At(k, p);
    if Length(k, p) == 3 then Dot3(buf[i], buf[i + 1], buf[i + 2]) else Dot1(buf[i])
  }

  // -------------------------------------------------------------------- writing pixels

  function Put(k: Kind, buf: seq<byte>, p: nat, c: Color): (r: seq<byte>)
    requires At(k, p + 1) <= |buf|
    ensures |r| == |buf|
  {
    NextAt(k, p);
    if c == TRANSPARENT then buf else Patch(buf, At(k, p), Bytes(Colored(k, p, c)))
  }

  /** The colors put one after the other, from pixel `p` on. */
  function PutAll(k: Kind, buf: seq<byte>, p: nat, cs: seq<Color>): (r: seq<byte>)
    requires At(k, p + |cs|) <= |buf|
    ensures |r| == |buf|
  {
    if cs == [] then buf else
      AtMono(k, p + |cs| - 1, p + |cs|);
      Put(k, PutAll(k, buf, p, cs[..|cs| - 1]), p + |cs| - 1, cs[|cs| - 1])
  }

  /** The bytes of `n` pixels from `p` on copied to `q`. */
  function Copy(k: Kind, buf: seq<byte>, p: nat, q: nat, n: nat): (r: seq<byte>)
    requires At(k, p + n) <= |buf| && At(k, q + n) <= |buf|
    requires k.Yuy2? ==> p % 2 == q % 2
    ensures |r| == |buf|
  {
    SameSpan(k, p, q, n);
    AtMono(k, p, p + n);
    Patch(buf, At(k, q), buf[At(k, p)..At(k, p + n)])
  }

  /** A pixel whose bytes are not written keeps them. */
  lemma PixelKept(k: Kind, buf: seq<byte>, at: nat, d: seq<byte>, x: nat)
    requires at + |d| <= |buf| && At(k, x + 1) <= |buf|
    requires At(k, x + 1) <= at || at + |d| <= At(k, x)
    ensures Pixel(k, Patch(buf, at, d), x) == Pixel(k, buf, x)
  {
    NextAt(k, x);
    PatchIndex(buf, at, d, At(k, x));
    if Length(k, x) == 3 {
      PatchIndex(buf, at, d, At(k, x) + 1);
      PatchIndex(buf, at, d, At(k, x) + 2);
    }
  }

  /** A pixel put is that pixel and no other. */
  lemma PutPixel(k: Kind, buf: seq<byte>, p: nat, c: Color, x: nat)
    requires At(k, p + 1) <= |buf| && At(k, x + 1) <= |buf|
    ensures Pixel(k, Put(k, buf, p, c), x) == if x == p && c != TRANSPARENT then Colored(k, p, c) else Pixel(k, buf, x)
  {
    NextAt(k, p);
    if c != TRANSPARENT && x != p {
      if x < p {
        AtMono(k, x + 1, p);
      } else {
        AtMono(k, p + 1, x);
      }
      PixelKept(k, buf, At(k, p), Bytes(Colored(k, p, c)), x);
    }
  }

  /** What pixel `x` is after the last color was put. */
  lemma PutLast(k: Kind, buf: seq<byte>, p: nat, front: seq<Color>, c: Color, x: nat)
    requires At(k, p + |front| + 1) <= |buf| && At(k, x + 1) <= |buf|
    ensures At(k, p + |front|) <= |buf|
    ensures Pixel(k, PutAll(k, buf, p, front + [c]), x)
         == if x == p + |front| && c != TRANSPARENT then Colored(k, x, c) else Pixel(k, PutAll(k, buf, p, front), x)
  {
    AtMono(k, p + |front|, p + |front| + 1);
    assert (front + [c])[..|front|] == front;
    PutPixel(k, PutAll(k, buf, p, front), p + |front|, c, x);
  }

  /** What pixel `x` is after colors were put from `p` on. */
  lemma {:induction false} PutAllPixel(k: Kind, buf: seq<byte>, p: nat, cs: seq<Color>, x: nat)
    requires At(k, p + |cs|) <= |buf| && At(k, x + 1) <= |buf|
    ensures Pixel(k, PutAll(k, buf, p, cs), x)
         == if p <= x < p + |cs| && cs[x - p] != TRANSPARENT then Colored(k, x, cs[x - p]) else Pixel(k, buf, x)
  {
    if cs != [] {
      var front := cs[..|cs| - 1];
      assert cs == front + [cs[|cs| - 1]];
      PutLast(k, buf, p, front, cs[|cs| - 1], x);
      PutAllPixel(k, buf, p, front, x);
    }
  }

  /** What pixel `x` is after `n` pixels were copied from `p` to `q`. */
  lemma CopyPixel(k: Kind, buf: seq<byte>, p: nat, q: nat, n: nat, x: nat)
    requires At(k, p + n) <= |buf| && At(k, q + n) <= |buf| && At(k, x + 1) <= |buf|
    requires k.Yuy2? ==> p % 2 == q % 2
    ensures q <= x < q + n ==> At(k, p + (x - q) + 1) <= |buf|
    ensures Pixel(k, Copy(k, buf, p, q, n), x) == if q <= x < q + n then Pixel(k, buf, p + (x - q)) else Pixel(k, buf, x)
  {
    if q <= x < q + n {
      CopySpans(k, p, q, n, x - q);
      CopiedPixel(k, buf, At(k, p), At(k, p + n), At(k, q), p + (x - q), x);
    } else {
      SameSpan(k, p, q, n);
      AtMono(k, p, p + n);
      if x < q {
        AtMono(k, x + 1, q);
      } else {
        AtMono(k, q + n, x);
      }
      PixelKept(k, buf, At(k, q), buf[At(k, p)..At(k, p + n)], x);
    }
  }

  lemma CopySpans(k: Kind, p: nat, q: nat, n: nat, i: nat)
    requires i < n && (k.Yuy2? ==> p % 2 == q % 2)
    ensures At(k, p) <= At(k, p + i) && At(k, p + i + 1) <= At(k, p + n)
    ensures At(k, q + i) - At(k, q) == At(k, p + i) - At(k, p)
    ensures At(k, q + n) - At(k, q) == At(k, p + n) - At(k, p)
    ensures Length(k, q + i) == Length(k, p + i)
  {
    AtMono(k, p, p + i);
    AtMono(k, p + i + 1, p + n);
    SameSpan(k, p, q, i);
    SameSpan(k, p, q, n);
  }

  /** Pixel `x` when the bytes from `lo` to `hi` were copied to `to` and pixel `y` with them. */
  lemma CopiedPixel(k: Kind, buf: seq<byte>, lo: nat, hi: nat, to: nat, y: nat, x: nat)
    requires lo <= hi <= |buf| && to + (hi - lo) <= |buf|
    requires lo <= At(k, y) && At(k, y + 1) <= hi && At(k, x + 1) <= |buf|
    requires At(k, x) - to == At(k, y) - lo && Length(k, x) == Length(k, y)
    ensures Pixel(k, Patch(buf, to, buf[lo..hi]), x) == Pixel(k, buf, y)
  {
    NextAt(k, x);
    NextAt(k, y);
    PatchIndex(buf, to, buf[lo..hi], At(k, x));
    if Length(k, x) == 3 {
      PatchIndex(buf, to, buf[lo..hi], At(k, x) + 1);
      PatchIndex(buf, to, buf[lo..hi], At(k, x) + 2);
    }
  }

  // ------------------------------------------------------------------ the two color tables

  /** The RGB24 bytes are blue, green and red, and the colors mix as light does. */
  lemma ColorsMix()
    ensures Rgb(BLUE) == (255, 0, 0) && Rgb(GREEN) == (0, 255, 0) && Rgb(RED) == (0, 0, 255)
    ensures Rgb(BLACK) == (0, 0, 0) && Rgb(GREY) == (128, 128, 128)
    ensures Rgb(YELLOW) == Mixed(Rgb(RED), Rgb(GREEN)) && Rgb(CYAN) == Mixed(Rgb(GREEN), Rgb(BLUE))
    ensures Rgb(MAGENTA) == Mixed(Rgb(RED), Rgb(BLUE)) && Rgb(WHITE) == Mixed(Rgb(YELLOW), Rgb(BLUE))
  {
  }

  function Mixed(a: (byte, byte, byte), b: (byte, byte, byte)): (byte, byte, byte) {
    (Max(a.0, b.0), Max(a.1, b.1), Max(a.2, b.2))
  }

  /** The packed 4:2:2 table holds Cb, Y and Cr of the same colors: those of Recommendation ITU-R BT.601
      in 8 bits, to within two. */
  lemma ColorsAgree(c: Color)
    requires c != TRANSPARENT
    ensures var (b, g, r) := Rgb(c);
      && -2 * 256 < 25 * b + 129 * g + 66 * r + 16 * 256 - 256 * Yuv(c).1 < 2 * 256
      && -2 * 256 < 112 * b - 74 * g - 38 * r + 128 * 256 - 256 * Yuv(c).0 < 2 * 256
      && -2 * 256 < -18 * b - 94 * g + 112 * r + 128 * 256 - 256 * Yuv(c).2 < 2 * 256
  {
  }

  /** The bytes of a pixel, in memory order: blue, green and red of each, or Y, Cb, Y for an even pixel and
      Cr for the odd one behind it. */
  lemma PixelBytes(k: Kind, buf: seq<byte>, p: nat)
    requires At(k, p + 1) <= |buf|
    ensures k.Rgb24? ==> 3 * p + 2 < |buf| && Pixel(k, buf, p) == Dot3(buf[3 * p], buf[3 * p + 1], buf[3 * p + 2])
    ensures k.Yuy2? && p % 2 == 0 ==> 2 * p + 2 < |buf| && Pixel(k, buf, p) == Dot3(buf[2 * p], buf[2 * p + 1], buf[2 * p + 2])
    ensures k.Yuy2? && p % 2 == 1 ==> 2 * p + 1 < |buf| && Pixel(k, buf, p) == Dot1(buf[2 * p + 1])
    ensures k.Rgb24? ==> forall c :: Colored(k, p, c) == Dot3(Rgb(c).0, Rgb(c).1, Rgb(c).2)
    ensures k.Yuy2? ==> forall c :: Colored(k, p, c)
                          == if p % 2 == 0 then Dot3(Yuv(c).1, Yuv(c).0, Yuv(c).1) else Dot1(Yuv(c).2)
  {
    NextAt(k, p);
    AtIs(k, p);
  }
}
