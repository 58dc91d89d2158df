/** The band worker, the serial sweep and the scheduler that runs one worker per band. */
module ParallelConvolution {
  import opened ImageTypes
  import opened PixelEval
  import opened Bands

  /** Buffer position `i` lies in the rows of `band`. */
  predicate InBandRange(src: Image, band: ThreadData, i: int)
  {
    band.startRow * src.Span() <= i < band.endRow * src.Span()
  }

  /** Computes every pixel and channel of the rows of `band` into `dest`, at the
      position it has in the source; every other position of `dest` is untouched. */
  method ConvoluteThreadWorker(src: Image, dest: array<Byte>, k: Matrix, band: ThreadData)
    requires src.Valid() && dest.Length == |src.data|
    requires 0 <= band.startRow <= band.endRow <= src.height
    modifies dest
    ensures forall i | 0 <= i < dest.Length ::
              dest[i] == if InBandRange(src, band, i) then Convolved(src, k)[i] else old(dest[i])
  {
    ghost var conv := Convolved(src, k);
    var width, bpp := src.width, src.bpp;
    ghost var lo := Index(0, band.startRow, width, 0, bpp);
    ghost var cur := lo;
    var row := band.startRow;
    while row < band.endRow
      invariant band.startRow <= row <= band.endRow
      invariant lo <= cur == Index(0, row, width, 0, bpp)
      invariant forall i | 0 <= i < dest.Length :: dest[i] == if lo <= i < cur then conv[i] else old(dest[i])
    {
      var pix := 0;
      while pix < width
        invariant 0 <= pix <= width
        invariant lo <= cur == Index(pix, row, width, 0, bpp)
        invariant forall i | 0 <= i < dest.Length :: dest[i] == if lo <= i < cur then conv[i] else old(dest[i])
      {
        var bit := 0;
        while bit < bpp
          invariant 0 <= bit <= bpp
          invariant lo <= cur == Index(pix, row, width, bit, bpp)
          invariant forall i | 0 <= i < dest.Length :: dest[i] == if lo <= i < cur then conv[i] else old(dest[i])
        {
          var value := GetPixelValue(src, pix, row, bit, k);
          ConvolvedAt(src, k, pix, row, bit);
          dest[Index(pix, row, width, bit, bpp)] := value;
          cur := cur + 1;
          bit := bit + 1;
        }
        NextPixel(pix, row, width, bpp);
        pix := pix + 1;
      }
      NextRow(row, width, bpp);
      row := row + 1;
    }
    RowStart(band.startRow, width, bpp);
    RowStart(band.endRow, width, bpp);
  }

  /** The fallback path: one pass over all rows, columns and channels. */
  method SerialConvolute(src: Image, dest: array<Byte>, k: Matrix)
    requires src.Valid() && dest.Length == |src.data|
    modifies dest
    ensures dest[..] == Convolved(src, k)
  {
    ghost var conv := Convolved(src, k);
    var width, height, bpp := src.width, src.height, src.bpp;
    ghost var cur := 0;
    var row := 0;
    while row < height
      invariant 0 <= row <= height
      invariant 0 <= cur == Index(0, row, width, 0, bpp)
      invariant forall i | 0 <= i < dest.Length :: dest[i] == if i < cur then conv[i] else old(dest[i])
    {
      var pix := 0;
      while pix < width
        invariant 0 <= pix <= width
        invariant 0 <= cur == Index(pix, row, width, 0, bpp)
        invariant forall i | 0 <= i < dest.Length :: dest[i] == if i < cur then conv[i] else old(dest[i])
      {
        var bit := 0;
        while bit < bpp
          invariant 0 <= bit <= bpp
          invariant 0 <= cur == Index(pix, row, width, bit, bpp)
          invariant forall i | 0 <= i < dest.Length :: dest[i] == if i < cur then conv[i] else old(dest[i])
        {
          ConvolvedAt(src, k, pix, row, bit);
          dest[Index(pix, row, width, bit, bpp)] := GetPixelValue(src, pix, row, bit, k);
          cur := cur + 1;
          bit := bit + 1;
        }
        NextPixel(pix, row, width, bpp);
        pix := pix + 1;
      }
      NextRow(row, width, bpp);
      row := row + 1;
    }
    RowStart(height, width, bpp);
  }

  /** `order` runs each of `count` workers: it lists every band index, and nothing else. */
  predicate IsRunOrder(order: seq<nat>, count: int)
  {
    |order| == count &&
    (forall s | 0 <= s < |order| :: order[s] < count) &&
    (forall t | 0 <= t < count :: t in order)
  }

  /** Position `i` has been written by one of the first `done` workers of `order`. */
  ghost predicate Written(src: Image, bands: seq<ThreadData>, order: seq<nat>, done: int, i: int)
    requires forall s | 0 <= s < |order| :: order[s] < |bands|
    requires 0 <= done <= |order|
  {
    exists s | 0 <= s < done :: InBandRange(src, bands[order[s]], i)
  }

  /** Running one more worker adds exactly its band's positions to the written ones. */
  lemma WrittenStep(src: Image, bands: seq<ThreadData>, order: seq<nat>, j: int, i: int)
    requires forall s | 0 <= s < |order| :: order[s] < |bands|
    requires 0 <= j < |order|
    ensures Written(src, bands, order, j + 1, i) <==>
              Written(src, bands, order, j, i) || InBandRange(src, bands[order[j]], i)
  {
    if Written(src, bands, order, j + 1, i) {
      var s :| 0 <= s < j + 1 && InBandRange(src, bands[order[s]], i);
      if s < j {
        assert Written(src, bands, order, j, i);
      }
    }
  }

  /** Once every worker of a partition has run, in whatever order, every position is written. */
  lemma AllWritten(src: Image, bands: seq<ThreadData>, order: seq<nat>, i: int)
    requires src.Valid() && 0 <= i < |src.data|
    requires IsPartition(bands, src.height)
    requires IsRunOrder(order, |bands|)
    ensures Written(src, bands, order, |order|, i)
  {
    RowOfInRange(src, i);
    var y := src.RowOf(i);
    PartitionCovers(bands, src.height, y);
    var t :| 0 <= t < |bands| && InBand(bands[t], y);
    assert t in order;
    var s :| 0 <= s < |order| && order[s] == t;
    RowRange(src, i, bands[t].startRow, bands[t].endRow);
    assert InBandRange(src, bands[order[s]], i);
  }

  /** The effect of the threaded path: the workers of all bands run to completion,
      one after another in the arbitrary order `order`. The result is the same for
      every order, and equals the serial sweep's. */
  method RunWorkers(src: Image, dest: array<Byte>, k: Matrix, bands: seq<ThreadData>, order: seq<nat>)
    requires src.Valid() && dest.Length == |src.data|
    requires IsPartition(bands, src.height)
    requires IsRunOrder(order, |bands|)
    modifies dest
    ensures dest[..] == Convolved(src, k)
  {
    ghost var conv := Convolved(src, k);
    var j := 0;
    while j < |order|
      invariant 0 <= j <= |order|
      invariant forall i | 0 <= i < dest.Length ::
                  dest[i] == if Written(src, bands, order, j, i) then conv[i] else old(dest[i])
    {
      PartitionInRange(bands, src.height, order[j]);
      ConvoluteThreadWorker(src, dest, k, bands[order[j]]);
      forall i | 0 <= i < dest.Length
        ensures Written(src, bands, order, j + 1, i) <==>
                  Written(src, bands, order, j, i) || InBandRange(src, bands[order[j]], i)
      {
        WrittenStep(src, bands, order, j, i);
      }
      j := j + 1;
    }
    forall i | 0 <= i < dest.Length
      ensures dest[i] == conv[i]
    {
      AllWritten(src, bands, order, i);
    }
  }

  /** The scheduler. `numThreads` is the number of workers (the online core count);
      `allocOk` says whether the thread handles and records could be allocated,
      and if not the serial sweep runs instead. Both paths fill `dest` with the
      filtered image. */
  method Convolute(src: Image, dest: array<Byte>, k: Matrix, numThreads: int, allocOk: bool, order: seq<nat>)
    requires src.Valid() && dest.Length == |src.data|
    requires numThreads >= 1
    requires IsRunOrder(order, numThreads)
    modifies dest
    ensures dest[..] == Convolved(src, k)
  {
    if !allocOk {
      SerialConvolute(src, dest, k);
      return;
    }
    var bands := PartitionRows(src.height, numThreads);
    RunWorkers(src, dest, k, bands, order);
  }
}
