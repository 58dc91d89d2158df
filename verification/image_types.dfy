/** Types shared by the convolution engine: channel samples, kernels, images
    and the row-major, channel-interleaved buffer layout.

    The `Index` macro lives in image.h, which is not part of this model; it is
    taken to be `y*w*bpp + x*bpp + bit`, which agrees with the row span
    `width*bpp` used by the evaluator and by the PNG writer's stride. */
module ImageTypes {

  /** One channel sample, a C `uint8_t`. */
  type Byte = b: int | 0 <= b < 256

  /** A 3×3 kernel, indexed `[row][column]`; the C `double` weights become exact reals. */
  type Matrix = m: seq<seq<real>> | |m| == 3 && |m[0]| == 3 && |m[1]| == 3 && |m[2]| == 3
    witness [[0.0, 0.0, 0.0], [0.0, 0.0, 0.0], [0.0, 0.0, 0.0]]

  /** An image: `width × height` pixels of `bpp` interleaved channels, stored row by row. */
  datatype Image = Image(width: nat, height: nat, bpp: nat, data: seq<Byte>)
  {
    /** The buffer holds exactly `width*height*bpp` samples. */
    predicate Valid()
    {
      |data| == width * height * bpp
    }

    /** Number of samples in one row. */
    function Span(): nat
    {
      width * bpp
    }

    /** Row of the sample stored at buffer position `i`. */
    function RowOf(i: nat): nat
      requires Span() > 0
    {
      i / Span()
    }

    /** Column of the sample stored at buffer position `i`. */
    function ColOf(i: nat): nat
      requires bpp > 0
      requires Span() > 0
    {
      (i % Span()) / bpp
    }

    /** Channel of the sample stored at buffer position `i`. */
    function ChannelOf(i: nat): nat
      requires bpp > 0
    {
      i % bpp
    }
  }

  /** Buffer position of channel `bit` of pixel `(x, y)` in an image `width` pixels wide. */
  function Index(x: int, y: int, width: int, bit: int, bpp: int): int
  {
    y * width * bpp + x * bpp + bit
  }

  lemma MulMonotone(a: int, b: int, c: nat)
    requires a <= b
    ensures a * c <= b * c
  {
  }

  /** Integer division is determined by any quotient/remainder pair with the remainder in range. */
  lemma {:induction false} DivModUnique(i: int, d: int, q: int, r: int)
    requires d > 0 && 0 <= r < d && i == q * d + r
    ensures i / d == q && i % d == r
  {
    var q', r' := i / d, i % d;
    assert (q - q') * d == r' - r;
    if q - q' >= 1 {
      MulMonotone(1, q - q', d);
    } else if q - q' <= -1 {
      MulMonotone(q - q', -1, d);
    }
  }

  /** Every coordinate inside the image addresses a sample inside the buffer. */
  lemma {:induction false} IndexInBounds(img: Image, x: int, y: int, bit: int)
    requires img.Valid()
    requires 0 <= x < img.width && 0 <= y < img.height && 0 <= bit < img.bpp
    ensures 0 <= Index(x, y, img.width, bit, img.bpp) < |img.data|
  {
    var w, h, bpp := img.width, img.height, img.bpp;
    MulMonotone(x + 1, w, bpp);
    MulMonotone(y + 1, h, w * bpp);
    assert Index(x, y, w, bit, bpp) == y * (w * bpp) + x * bpp + bit;
    assert |img.data| == h * (w * bpp);
  }

  /** Reading a buffer position back as coordinates gives the coordinates it was built from. */
  lemma {:induction false} IndexDecompose(img: Image, x: int, y: int, bit: int)
    requires img.Valid()
    requires 0 <= x < img.width && 0 <= y < img.height && 0 <= bit < img.bpp
    ensures img.Span() > 0
    ensures img.RowOf(Index(x, y, img.width, bit, img.bpp)) == y
    ensures img.ColOf(Index(x, y, img.width, bit, img.bpp)) == x
    ensures img.ChannelOf(Index(x, y, img.width, bit, img.bpp)) == bit
  {
    var w, bpp := img.width, img.bpp;
    var span := w * bpp;
    var i := Index(x, y, w, bit, bpp);
    MulMonotone(x + 1, w, bpp);
    assert i == y * span + (x * bpp + bit);
    DivModUnique(i, span, y, x * bpp + bit);
    DivModUnique(x * bpp + bit, bpp, x, bit);
    assert i == (y * w + x) * bpp + bit;
    DivModUnique(i, bpp, y * w + x, bit);
  }

  lemma MulCancelLess(a: int, b: int, c: int)
    requires c > 0 && a * c < b * c
    ensures a < b
  {
    if b <= a {
      MulMonotone(b, a, c);
    }
  }

  lemma ProductPositive(a: nat, b: nat)
    requires a * b > 0
    ensures a > 0 && b > 0
  {
  }

  /** Every buffer position lies in a row of the image. */
  lemma {:induction false} RowOfInRange(img: Image, i: int)
    requires img.Valid()
    requires 0 <= i < |img.data|
    ensures img.Span() > 0 && img.RowOf(i) < img.height
  {
    var span := img.Span();
    assert |img.data| == img.height * span;
    ProductPositive(img.height, span);
    DivMod(i, span);
    MulCancelLess(i / span, img.height, span);
  }

  /** Every buffer position is the position of the coordinates read from it. */
  lemma {:induction false} IndexCompose(img: Image, i: int)
    requires img.Valid()
    requires 0 <= i < |img.data|
    ensures img.bpp > 0 && img.Span() > 0
    ensures img.RowOf(i) < img.height && img.ColOf(i) < img.width && img.ChannelOf(i) < img.bpp
    ensures Index(img.ColOf(i), img.RowOf(i), img.width, img.ChannelOf(i), img.bpp) == i
  {
    var w, h, bpp := img.width, img.height, img.bpp;
    var span := w * bpp;
    assert h > 0 && span > 0 && w > 0 && bpp > 0 by {
      assert |img.data| == h * span;
      ProductPositive(h, span);
      ProductPositive(w, bpp);
    }
    var y, rest := i / span, i % span;
    var x, bit := rest / bpp, rest % bpp;
    assert i == y * span + rest && rest < span by {
      DivMod(i, span);
    }
    assert y < h by {
      assert |img.data| == h * span;
      MulCancelLess(y, h, span);
    }
    assert rest == x * bpp + bit && x < w by {
      DivMod(rest, bpp);
      MulCancelLess(x, w, bpp);
    }
    assert i == (y * w + x) * bpp + bit by {
      assert y * span == y * w * bpp;
    }
    assert img.ChannelOf(i) == bit by {
      DivModUnique(i, bpp, y * w + x, bit);
    }
  }

  lemma DivMod(i: nat, d: int)
    requires d > 0
    ensures i == (i / d) * d + i % d && 0 <= i % d < d && 0 <= i / d
  {
  }

  /** A buffer position lies in the rows `[lo, hi)` exactly when it lies in `[lo*span, hi*span)`. */
  lemma {:induction false} RowRange(img: Image, i: int, lo: int, hi: int)
    requires img.Span() > 0 && 0 <= i
    ensures (lo * img.Span() <= i < hi * img.Span()) <==> (lo <= img.RowOf(i) < hi)
  {
    var span := img.Span();
    var y := i / span;
    if lo <= y {
      MulMonotone(lo, y, span);
    } else {
      MulMonotone(y + 1, lo, span);
    }
    if y < hi {
      MulMonotone(y + 1, hi, span);
    } else {
      MulMonotone(hi, y, span);
    }
  }

  /** After the last channel of pixel `x` comes the first channel of pixel `x + 1`. */
  lemma NextPixel(x: int, y: int, width: int, bpp: int)
    ensures Index(x, y, width, bpp, bpp) == Index(x + 1, y, width, 0, bpp)
  {
    assert x * bpp + bpp == (x + 1) * bpp;
  }

  /** After the last pixel of row `y` comes the first pixel of row `y + 1`. */
  lemma NextRow(y: int, width: int, bpp: int)
    ensures Index(width, y, width, 0, bpp) == Index(0, y + 1, width, 0, bpp)
  {
    assert y * width * bpp + width * bpp == (y + 1) * width * bpp;
  }

  /** Row `y` starts `y` row spans into the buffer. */
  lemma RowStart(y: int, width: int, bpp: int)
    ensures Index(0, y, width, 0, bpp) == y * (width * bpp)
  {
    assert y * width * bpp == y * (width * bpp);
  }
}
