/** The per-pixel evaluator `getPixelValue` and the image it defines. */
module PixelEval {
  import opened ImageTypes
  import opened Kernels

  /** The left (or upper) neighbour coordinate of `c`, replicated at the edge. */
  function Prev(c: int): int
  {
    if c - 1 < 0 then 0 else c - 1
  }

  /** The right (or lower) neighbour coordinate of `c`, replicated at the edge `limit - 1`. */
  function Next(c: int, limit: int): int
  {
    if c + 1 >= limit then limit - 1 else c + 1
  }

  /** Inside `[0, limit)` both neighbours stay inside `[0, limit)`, are at most one step
      away, and are the true neighbours wherever those exist. */
  lemma NeighboursInBounds(c: int, limit: int)
    requires 0 <= c < limit
    ensures 0 <= Prev(c) <= c <= Next(c, limit) <= limit - 1
    ensures c - Prev(c) <= 1 && Next(c, limit) - c <= 1
    ensures c >= 1 ==> Prev(c) == c - 1
    ensures c + 1 < limit ==> Next(c, limit) == c + 1
  {
  }

  /** The sample at `(x, y)` on channel `bit`, as a real. */
  function Sample(src: Image, x: int, y: int, bit: int): real
    requires src.Valid()
    requires 0 <= x < src.width && 0 <= y < src.height && 0 <= bit < src.bpp
  {
    IndexInBounds(src, x, y, bit);
    src.data[Index(x, y, src.width, bit, src.bpp)] as real
  }

  /** The kernel-weighted sum of the 3×3 neighbourhood of `(x, y)` on channel `bit`. */
  function WeightedSum(src: Image, x: int, y: int, bit: int, k: Matrix): real
    requires src.Valid()
    requires 0 <= x < src.width && 0 <= y < src.height && 0 <= bit < src.bpp
  {
    var mx, px := Prev(x), Next(x, src.width);
    var my, py := Prev(y), Next(y, src.height);
    k[0][0] * Sample(src, mx, my, bit) +
    k[0][1] * Sample(src, x, my, bit) +
    k[0][2] * Sample(src, px, my, bit) +
    k[1][0] * Sample(src, mx, y, bit) +
    k[1][1] * Sample(src, x, y, bit) +
    k[1][2] * Sample(src, px, y, bit) +
    k[2][0] * Sample(src, mx, py, bit) +
    k[2][1] * Sample(src, x, py, bit) +
    k[2][2] * Sample(src, px, py, bit)
  }

  /** Clamps a sum to `[0, 255]` and truncates it to a byte. */
  function ClampToByte(s: real): (r: Byte)
    ensures s > 255.0 ==> r == 255
    ensures s < 0.0 ==> r == 0
    ensures 0.0 <= s <= 255.0 ==> r as real <= s < r as real + 1.0
  {
    var high := if s > 255.0 then 255.0 else s;
    var clamped := if high < 0.0 then 0.0 else high;
    clamped.Floor
  }

  /** The new value of channel `bit` of pixel `(x, y)`: the weighted sum of its
      edge-replicated neighbourhood, clamped to `[0, 255]` and truncated. */
  function GetPixelValue(src: Image, x: int, y: int, bit: int, k: Matrix): (r: Byte)
    requires src.Valid()
    requires 0 <= x < src.width && 0 <= y < src.height && 0 <= bit < src.bpp
    ensures WeightedSum(src, x, y, bit, k) > 255.0 ==> r == 255
    ensures WeightedSum(src, x, y, bit, k) < 0.0 ==> r == 0
    ensures 0.0 <= WeightedSum(src, x, y, bit, k) <= 255.0 ==>
              r as real <= WeightedSum(src, x, y, bit, k) < r as real + 1.0
  {
    ClampToByte(WeightedSum(src, x, y, bit, k))
  }

  /** All nine samples the evaluator reads lie inside the source buffer. */
  lemma NeighbourReadsInBounds(src: Image, x: int, y: int, bit: int)
    requires src.Valid()
    requires 0 <= x < src.width && 0 <= y < src.height && 0 <= bit < src.bpp
    ensures forall a, b | a in {Prev(x), x, Next(x, src.width)} && b in {Prev(y), y, Next(y, src.height)} ::
              0 <= Index(a, b, src.width, bit, src.bpp) < |src.data|
  {
    NeighboursInBounds(x, src.width);
    NeighboursInBounds(y, src.height);
    forall a, b | a in {Prev(x), x, Next(x, src.width)} && b in {Prev(y), y, Next(y, src.height)}
      ensures 0 <= Index(a, b, src.width, bit, src.bpp) < |src.data|
    {
      IndexInBounds(src, a, b, bit);
    }
  }

  /** The value the evaluator produces for buffer position `i`. */
  function OutputAt(src: Image, k: Matrix, i: int): Byte
    requires src.Valid() && 0 <= i < |src.data|
  {
    IndexCompose(src, i);
    GetPixelValue(src, src.ColOf(i), src.RowOf(i), src.ChannelOf(i), k)
  }

  /** The filtered image: every sample replaced by the evaluator's value at the same position. */
  ghost function Convolved(src: Image, k: Matrix): (out: seq<Byte>)
    requires src.Valid()
    ensures |out| == |src.data|
  {
    seq(|src.data|, i requires 0 <= i < |src.data| => OutputAt(src, k, i))
  }

  /** The filtered image holds, at the position of every pixel and channel,
      the evaluator's value for that pixel and channel. */
  lemma ConvolvedAt(src: Image, k: Matrix, x: int, y: int, bit: int)
    requires src.Valid()
    requires 0 <= x < src.width && 0 <= y < src.height && 0 <= bit < src.bpp
    ensures 0 <= Index(x, y, src.width, bit, src.bpp) < |src.data|
    ensures Convolved(src, k)[Index(x, y, src.width, bit, src.bpp)] == GetPixelValue(src, x, y, bit, k)
  {
    IndexInBounds(src, x, y, bit);
    IndexDecompose(src, x, y, bit);
  }

  /** With the identity kernel the evaluator returns the source sample itself. */
  lemma IdentityPixel(src: Image, x: int, y: int, bit: int)
    requires src.Valid()
    requires 0 <= x < src.width && 0 <= y < src.height && 0 <= bit < src.bpp
    ensures 0 <= Index(x, y, src.width, bit, src.bpp) < |src.data|
    ensures GetPixelValue(src, x, y, bit, Algorithms(Identity)) == src.data[Index(x, y, src.width, bit, src.bpp)]
  {
    IndexInBounds(src, x, y, bit);
    var v := src.data[Index(x, y, src.width, bit, src.bpp)];
    assert WeightedSum(src, x, y, bit, Algorithms(Identity)) == v as real;
  }

  /** Filtering with the identity kernel copies the image. */
  lemma IdentityCopies(src: Image)
    requires src.Valid()
    ensures Convolved(src, Algorithms(Identity)) == src.data
  {
    var out := Convolved(src, Algorithms(Identity));
    forall i | 0 <= i < |src.data|
      ensures out[i] == src.data[i]
    {
      IndexCompose(src, i);
      IdentityPixel(src, src.ColOf(i), src.RowOf(i), src.ChannelOf(i));
    }
  }

  /** An image whose every sample is `v`. */
  predicate IsFlat(src: Image, v: Byte)
  {
    forall i | 0 <= i < |src.data| :: src.data[i] == v
  }

  /** On a flat image the weighted sum is the flat value times the sum of the weights,
      at the border as well as inside. */
  lemma FlatSum(src: Image, v: Byte, x: int, y: int, bit: int, k: Matrix)
    requires src.Valid() && IsFlat(src, v)
    requires 0 <= x < src.width && 0 <= y < src.height && 0 <= bit < src.bpp
    ensures WeightedSum(src, x, y, bit, k) == v as real * KernelSum(k)
  {
    NeighbourReadsInBounds(src, x, y, bit);
    var mx, px := Prev(x), Next(x, src.width);
    var my, py := Prev(y), Next(y, src.height);
    assert Sample(src, mx, my, bit) == v as real;
    assert Sample(src, x, my, bit) == v as real;
    assert Sample(src, px, my, bit) == v as real;
    assert Sample(src, mx, y, bit) == v as real;
    assert Sample(src, x, y, bit) == v as real;
    assert Sample(src, px, y, bit) == v as real;
    assert Sample(src, mx, py, bit) == v as real;
    assert Sample(src, x, py, bit) == v as real;
    assert Sample(src, px, py, bit) == v as real;
  }

  /** A kernel whose weights sum to 1 leaves a flat image unchanged, border pixels included. */
  lemma FlatFieldInvariant(src: Image, v: Byte, k: Matrix)
    requires src.Valid() && IsFlat(src, v)
    requires KernelSum(k) == 1.0
    ensures Convolved(src, k) == src.data
  {
    var out := Convolved(src, k);
    forall i | 0 <= i < |src.data|
      ensures out[i] == src.data[i]
    {
      IndexCompose(src, i);
      FlatSum(src, v, src.ColOf(i), src.RowOf(i), src.ChannelOf(i), k);
    }
  }

  /** In a 1×1 image every neighbour is the pixel itself, so the result is the
      clamped product of the sample and the sum of the weights. */
  lemma SinglePixel(src: Image, bit: int, k: Matrix)
    requires src.Valid() && src.width == 1 && src.height == 1
    requires 0 <= bit < src.bpp
    ensures bit < |src.data|
    ensures GetPixelValue(src, 0, 0, bit, k) == ClampToByte(src.data[bit] as real * KernelSum(k))
  {
    var v := src.data[bit] as real;
    assert Index(0, 0, 1, bit, src.bpp) == bit;
    assert Sample(src, 0, 0, bit) == v;
    assert Prev(0) == 0 && Next(0, 1) == 0;
    assert WeightedSum(src, 0, 0, bit, k) == v * KernelSum(k) by {
      var s := Sample(src, 0, 0, bit);
      assert WeightedSum(src, 0, 0, bit, k) ==
        k[0][0] * s + k[0][1] * s + k[0][2] * s + k[1][0] * s + k[1][1] * s +
        k[1][2] * s + k[2][0] * s + k[2][1] * s + k[2][2] * s;
    }
  }
}
