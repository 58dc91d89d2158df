/** The split of the image's rows into one contiguous band per worker thread. */
module Bands {

  /** The rows `[startRow, endRow)` handed to one worker. The thread record also
      carries the source, destination and kernel, which are the same for every
      worker and are passed to the worker directly in this model. */
  datatype ThreadData = ThreadData(startRow: int, endRow: int)

  /** Number of rows in a band. */
  function Rows(band: ThreadData): int
  {
    band.endRow - band.startRow
  }

  /** Row `y` belongs to `band`. */
  predicate InBand(band: ThreadData, y: int)
  {
    band.startRow <= y < band.endRow
  }

  /** Bands laid out in row order, with no gaps, covering `[0, height)`. */
  predicate IsPartition(bands: seq<ThreadData>, height: int)
  {
    |bands| >= 1 &&
    bands[0].startRow == 0 &&
    bands[|bands| - 1].endRow == height &&
    (forall t | 0 <= t < |bands| :: bands[t].startRow <= bands[t].endRow) &&
    (forall t | 0 < t < |bands| :: bands[t].startRow == bands[t - 1].endRow)
  }

  /** Rows dealt to band `t`: an equal share, plus one for each of the first
      `height % numThreads` bands. */
  function Share(height: nat, numThreads: nat, t: nat): nat
    requires numThreads >= 1
  {
    if t < height % numThreads then height / numThreads + 1 else height / numThreads
  }

  /** First row of band `t`: the rows dealt to the bands before it. */
  function BandStart(height: nat, numThreads: nat, t: nat): nat
    requires numThreads >= 1
  {
    if t == 0 then 0 else BandStart(height, numThreads, t - 1) + Share(height, numThreads, t - 1)
  }

  /** Splits `height` rows into `numThreads` bands: `height / numThreads` rows each,
      plus one for each of the first `height % numThreads` bands. */
  method PartitionRows(height: nat, numThreads: int) returns (bands: seq<ThreadData>)
    requires numThreads >= 1
    ensures |bands| == numThreads
    ensures IsPartition(bands, height)
    ensures forall t | 0 <= t < numThreads ::
              Rows(bands[t]) == if t < height % numThreads then height / numThreads + 1 else height / numThreads
    ensures forall t, u | 0 <= t < numThreads && 0 <= u < numThreads :: Rows(bands[t]) - Rows(bands[u]) <= 1
  {
    var threadData := new ThreadData[numThreads];
    var rowsPerThread := height / numThreads;
    var remainingRows := height % numThreads;
    var currentRow := 0;
    ghost var r := height % numThreads;
    var i := 0;
    while i < numThreads
      invariant 0 <= i <= numThreads
      invariant remainingRows == if i < r then r - i else 0
      invariant currentRow == BandStart(height, numThreads, i)
      invariant i > 0 ==> threadData[0].startRow == 0 && threadData[i - 1].endRow == currentRow
      invariant forall t | 0 <= t < i ::
                  Rows(threadData[t]) == if t < r then rowsPerThread + 1 else rowsPerThread
      invariant forall t | 0 < t < i :: threadData[t].startRow == threadData[t - 1].endRow
    {
      threadData[i] := ThreadData(currentRow, currentRow);
      var rowsForThisThread := rowsPerThread;
      if remainingRows > 0 {
        rowsForThisThread := rowsForThisThread + 1;
        remainingRows := remainingRows - 1;
      }
      threadData[i] := threadData[i].(endRow := currentRow + rowsForThisThread);
      currentRow := threadData[i].endRow;
      i := i + 1;
    }
    bands := threadData[..];
    BandStartEnd(height, numThreads);
    assert bands[0].startRow == 0 && bands[numThreads - 1].endRow == height;
    forall t | 0 <= t < numThreads
      ensures Rows(bands[t]) == if t < r then rowsPerThread + 1 else rowsPerThread
      ensures 0 < t ==> bands[t].startRow == bands[t - 1].endRow
    {
      assert bands[t] == threadData[t];
      if 0 < t {
        assert bands[t - 1] == threadData[t - 1];
      }
    }
  }

  /** Band `t` starts after `t` equal shares and one extra row for each earlier
      band that took one. */
  lemma {:induction false} BandStartClosedForm(height: nat, numThreads: nat, t: nat)
    requires numThreads >= 1
    ensures BandStart(height, numThreads, t) ==
              t * (height / numThreads) + (if t < height % numThreads then t else height % numThreads)
  {
    if t > 0 {
      BandStartClosedForm(height, numThreads, t - 1);
      assert t * (height / numThreads) == (t - 1) * (height / numThreads) + height / numThreads;
    }
  }

  /** The band after the last one would start at `height`: the bands use up every row. */
  lemma BandStartEnd(height: nat, numThreads: nat)
    requires numThreads >= 1
    ensures BandStart(height, numThreads, numThreads) == height
  {
    BandStartClosedForm(height, numThreads, numThreads);
    assert height == numThreads * (height / numThreads) + height % numThreads;
  }

  /** In a partition a band ends no later than any later band starts. */
  lemma {:induction false} PartitionOrdered(bands: seq<ThreadData>, height: int, t: int, u: int)
    requires IsPartition(bands, height)
    requires 0 <= t < u < |bands|
    ensures bands[t].endRow <= bands[u].startRow
    decreases u - t
  {
    if t + 1 < u {
      PartitionOrdered(bands, height, t + 1, u);
    }
  }

  /** Every band of a partition lies inside `[0, height]`. */
  lemma PartitionInRange(bands: seq<ThreadData>, height: int, t: int)
    requires IsPartition(bands, height)
    requires 0 <= t < |bands|
    ensures 0 <= bands[t].startRow <= bands[t].endRow <= height
  {
    if 0 < t {
      PartitionOrdered(bands, height, 0, t);
    }
    if t < |bands| - 1 {
      PartitionOrdered(bands, height, t, |bands| - 1);
    }
  }

  /** No row belongs to two bands of a partition, so no two workers write the same row. */
  lemma PartitionDisjoint(bands: seq<ThreadData>, height: int, t: int, u: int, y: int)
    requires IsPartition(bands, height)
    requires 0 <= t < |bands| && 0 <= u < |bands| && t != u
    ensures !(InBand(bands[t], y) && InBand(bands[u], y))
  {
    if t < u {
      PartitionOrdered(bands, height, t, u);
    } else {
      PartitionOrdered(bands, height, u, t);
    }
  }

  /** Every row of `[0, height)` belongs to some band of a partition. */
  lemma {:induction false} PartitionCovers(bands: seq<ThreadData>, height: int, y: int)
    requires IsPartition(bands, height)
    requires 0 <= y < height
    ensures exists t :: 0 <= t < |bands| && InBand(bands[t], y)
    decreases |bands|
  {
    var last := |bands| - 1;
    if y >= bands[last].startRow {
      assert InBand(bands[last], y);
    } else {
      var prefix := bands[..last];
      assert IsPartition(prefix, bands[last].startRow);
      PartitionCovers(prefix, bands[last].startRow, y);
      var t :| 0 <= t < |prefix| && InBand(prefix[t], y);
      assert InBand(bands[t], y);
    }
  }
}
