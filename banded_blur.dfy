/** The row-band blur (`ParallelGaussianBlur.applyGaussianBlur`).

    The image's rows are split into one band per worker; worker `t` runs the
    sequential loop nest over its own band. The thread pool is modelled as
    running the workers one after another in an arbitrary order (`order`, a
    permutation of the worker ids): since no two workers write the same pixel,
    every order yields the same image. */
module BandedBlur {
  import opened Convolution
  import opened SequentialBlur

  /** `(height / THREADS) * threadID`: the first row of worker `t`'s band. */
  function BandStart(height: nat, workers: nat, t: nat): nat
    requires workers >= 1
  {
    (height / workers) * t
  }

  /** One past the last row of worker `t`'s band: the last worker takes the
      remainder, up to `height`. A band never ends before it starts nor after
      the last row. */
  function BandEnd(height: nat, workers: nat, t: nat): (e: nat)
    requires workers >= 1 && t < workers
    ensures BandStart(height, workers, t) <= e <= height
  {
    var q := height / workers;
    MulMonotone(q, t, t + 1);
    MulMonotone(q, t + 1, workers);
    assert q * workers <= height;
    if t == workers - 1 then height else q * (t + 1)
  }

  /** Consecutive bands meet: each band ends where the next one starts. */
  lemma BandsAdjacent(height: nat, workers: nat, t: nat)
    requires workers >= 1 && t + 1 < workers
    ensures BandEnd(height, workers, t) == BandStart(height, workers, t + 1)
  {
  }

  /** Bands are pairwise disjoint: an earlier band ends no later than a later
      one starts. */
  lemma BandsOrdered(height: nat, workers: nat, t1: nat, t2: nat)
    requires workers >= 1 && t1 < t2 < workers
    ensures BandEnd(height, workers, t1) <= BandStart(height, workers, t2)
  {
    MulMonotone(height / workers, t1 + 1, t2);
  }

  /** The band that holds row `y`. */
  function BandOf(height: nat, workers: nat, y: nat): (t: nat)
    requires workers >= 1 && y < height
    ensures t < workers && BandStart(height, workers, t) <= y < BandEnd(height, workers, t)
  {
    var q := height / workers;
    if q == 0 then workers - 1
    else
      var d := y / q;
      assert q * d <= y < q * d + q;
      if d < workers - 1 then
        assert q * (d + 1) == q * d + q;
        d
      else
        MulMonotone(q, workers - 1, d);
        workers - 1
  }

  /** The bands partition the rows: row `y` of the image lies in band `t`
      exactly when `t` is `BandOf(y)`, so every row is covered once and no
      two bands overlap. */
  lemma BandsPartitionRows(height: nat, workers: nat, y: nat, t: nat)
    requires workers >= 1 && y < height && t < workers
    ensures BandStart(height, workers, t) <= y < BandEnd(height, workers, t) <==> t == BandOf(height, workers, y)
  {
    var u := BandOf(height, workers, y);
    if t < u {
      BandsOrdered(height, workers, t, u);
    } else if u < t {
      BandsOrdered(height, workers, u, t);
    }
  }

  /** With fewer rows than workers every band but the last is empty, and the
      last band is all the rows. */
  lemma FewRowsLastBandTakesAll(height: nat, workers: nat, t: nat)
    requires workers >= 1 && height < workers && t < workers
    ensures t < workers - 1 ==> BandStart(height, workers, t) == BandEnd(height, workers, t) == 0
    ensures t == workers - 1 ==> BandStart(height, workers, t) == 0 && BandEnd(height, workers, t) == height
  {
    assert height / workers == 0;
  }

  /** Worker `t` writes pixel (x, y): the column is not a border column and
      the row lies strictly inside the band, neither its first nor its last
      row (`y = startY + 1 .. endY - 2`). */
  predicate WrittenByWorker(width: int, height: nat, workers: nat, t: nat, x: int, y: int)
    requires workers >= 1 && t < workers
  {
    1 <= x < width - 1 && BandStart(height, workers, t) + 1 <= y < BandEnd(height, workers, t) - 1
  }

  /** Every pixel a worker writes is an interior pixel of the image, so all
      of its neighbour reads are in bounds. */
  lemma WorkerWritesInterior(width: int, height: nat, workers: nat, t: nat, x: int, y: int)
    requires workers >= 1 && t < workers
    requires WrittenByWorker(width, height, workers, t, x, y)
    ensures Interior(width, height, x, y)
  {
  }

  /** A pixel written by worker `t` lies in band `t`, so no two workers write
      the same pixel. */
  lemma WorkersWriteDisjointPixels(width: int, height: nat, workers: nat, t1: nat, t2: nat, x: int, y: int)
    requires workers >= 1 && t1 < workers && t2 < workers
    requires WrittenByWorker(width, height, workers, t1, x, y)
    requires WrittenByWorker(width, height, workers, t2, x, y)
    ensures t1 == t2
  {
    BandsPartitionRows(height, workers, y, t1);
    BandsPartitionRows(height, workers, y, t2);
  }

  /** Pixel (x, y) is written by the worker whose band holds row `y`. */
  predicate BandedWrites(width: int, height: nat, workers: nat, x: int, y: nat)
    requires workers >= 1 && y < height
  {
    WrittenByWorker(width, height, workers, BandOf(height, workers, y), x, y)
  }

  /** Only the worker owning row `y` can write a pixel of that row. */
  lemma WrittenByOwner(width: int, height: nat, workers: nat, t: nat, x: int, y: nat)
    requires workers >= 1 && t < workers && y < height
    ensures WrittenByWorker(width, height, workers, t, x, y) <==>
      BandedWrites(width, height, workers, x, y) && t == BandOf(height, workers, y)
  {
    BandsPartitionRows(height, workers, y, t);
  }

  /** The first and the last row of every non-empty band are never written,
      by any worker. */
  lemma BandEdgeRowsUnwritten(width: int, height: nat, workers: nat, t: nat, x: int)
    requires workers >= 1 && t < workers
    requires BandStart(height, workers, t) < BandEnd(height, workers, t)
    ensures !BandedWrites(width, height, workers, x, BandStart(height, workers, t))
    ensures !BandedWrites(width, height, workers, x, BandEnd(height, workers, t) - 1)
  {
    BandsPartitionRows(height, workers, BandStart(height, workers, t), t);
    BandsPartitionRows(height, workers, BandEnd(height, workers, t) - 1, t);
  }

  /** With a single worker the band is the whole image and the written pixels
      are exactly the interior. */
  lemma SingleWorkerWritesInterior(width: int, height: nat, x: int, y: nat)
    requires y < height
    ensures BandedWrites(width, height, 1, x, y) <==> Interior(width, height, x, y)
  {
  }

  /** What the banded blur leaves at (x, y): the blurred pixel where some
      worker writes, the fresh image's zero elsewhere. */
  function BandedOutput(img: array2<int>, workers: nat, x: int, y: nat): int
    reads img
    requires workers >= 1 && y < img.Length1
  {
    if BandedWrites(img.Length0, img.Length1, workers, x, y) then BlurredPixel(img, x, y) else 0
  }

  /** Every pixel the banded blur writes gets the value the sequential blur
      gives it, and with one worker the two images are equal. */
  lemma BandedAgreesWithSequential(img: array2<int>, workers: nat, x: int, y: nat)
    requires workers >= 1 && y < img.Length1
    ensures BandedWrites(img.Length0, img.Length1, workers, x, y) ==>
      BandedOutput(img, workers, x, y) == SequentialOutput(img, x, y)
    ensures workers == 1 ==> BandedOutput(img, workers, x, y) == SequentialOutput(img, x, y)
  {
  }

  /** `order` runs each of the `workers` workers exactly once. */
  predicate IsSchedule(order: seq<nat>, workers: nat) {
    |order| == workers &&
    (forall k :: 0 <= k < |order| ==> order[k] < workers) &&
    (forall t :: 0 <= t < workers ==> t in order)
  }

  /** The order in which the source submits the workers: 0, 1, ..., N - 1. */
  function SubmissionOrder(workers: nat): (order: seq<nat>)
    ensures IsSchedule(order, workers)
  {
    var order := seq(workers, t requires 0 <= t => t as nat);
    forall t | 0 <= t < workers
      ensures t in order
    {
      assert order[t] == t;
    }
    order
  }

  /** The task one worker runs: compute its band from its id, then blur the
      rows strictly inside the band. */
  method RunWorker(img: array2<int>, result: array2<int>, workers: nat, t: nat)
    requires workers >= 1 && t < workers
    requires result != img
    requires result.Length0 == img.Length0 && result.Length1 == img.Length1
    modifies result
    ensures forall px, py :: 0 <= px < result.Length0 && 0 <= py < result.Length1 ==>
      result[px, py] == if WrittenByWorker(img.Length0, img.Length1, workers, t, px, py) then BlurredPixel(img, px, py)
                        else old(result[px, py])
  {
    var height := img.Length1;
    var startY := (height / workers) * t;
    var endY := if t == workers - 1 then height else (height / workers) * (t + 1);
    assert endY == BandEnd(height, workers, t);
    BlurRows(img, result, startY + 1, endY - 1);
  }

  /** `applyGaussianBlur` of the row-band version: a fresh image, then every
      worker once, in any order. The result does not depend on the order. */
  method ApplyGaussianBlurBanded(img: array2<int>, workers: nat, order: seq<nat>) returns (result: array2<int>)
    requires workers >= 1 && IsSchedule(order, workers)
    ensures fresh(result)
    ensures result.Length0 == img.Length0 && result.Length1 == img.Length1
    ensures forall x, y :: 0 <= x < result.Length0 && 0 <= y < result.Length1 ==>
      result[x, y] == BandedOutput(img, workers, x, y)
  {
    var width, height := img.Length0, img.Length1;
    result := new int[width, height]((x, y) => 0);
    var k := 0;
    while k < |order|
      invariant 0 <= k <= |order|
      invariant forall x, y :: 0 <= x < width && 0 <= y < height ==>
        result[x, y] == if BandedWrites(width, height, workers, x, y) && BandOf(height, workers, y) in order[..k]
                        then BlurredPixel(img, x, y) else 0
    {
      var t := order[k];
      RunWorker(img, result, workers, t);
      forall x, y | 0 <= x < width && 0 <= y < height
        ensures WrittenByWorker(width, height, workers, t, x, y) <==>
          BandedWrites(width, height, workers, x, y) && t == BandOf(height, workers, y)
      {
        WrittenByOwner(width, height, workers, t, x, y);
      }
      assert order[..k + 1] == order[..k] + [t];
      k := k + 1;
    }
    assert order[..k] == order;
  }

  // The bands as evidently intended: a band's first and last rows are
  // skipped only where they are the image's own border rows.

  /** The corrected worker writes the interior pixels of its band, all of
      its rows except image border rows. */
  predicate WrittenByCorrectedWorker(width: int, height: nat, workers: nat, t: nat, x: int, y: int)
    requires workers >= 1 && t < workers
  {
    1 <= x < width - 1 &&
    (if BandStart(height, workers, t) < 1 then 1 else BandStart(height, workers, t)) <= y &&
    y < (if BandEnd(height, workers, t) > height - 1 then height - 1 else BandEnd(height, workers, t))
  }

  /** A corrected worker writes exactly the interior pixels of its own band. */
  lemma CorrectedWorkerWritesItsInterior(width: int, height: nat, workers: nat, t: nat, x: int, y: nat)
    requires workers >= 1 && t < workers && y < height
    ensures WrittenByCorrectedWorker(width, height, workers, t, x, y) <==>
      Interior(width, height, x, y) && t == BandOf(height, workers, y)
  {
    BandsPartitionRows(height, workers, y, t);
  }

  /** The corrected worker task: the band's rows clipped to the interior. */
  method RunCorrectedWorker(img: array2<int>, result: array2<int>, workers: nat, t: nat)
    requires workers >= 1 && t < workers
    requires result != img
    requires result.Length0 == img.Length0 && result.Length1 == img.Length1
    modifies result
    ensures forall px, py :: 0 <= px < result.Length0 && 0 <= py < result.Length1 ==>
      result[px, py] == if WrittenByCorrectedWorker(img.Length0, img.Length1, workers, t, px, py)
                        then BlurredPixel(img, px, py) else old(result[px, py])
  {
    var height := img.Length1;
    var startY := (height / workers) * t;
    var endY := if t == workers - 1 then height else (height / workers) * (t + 1);
    assert endY == BandEnd(height, workers, t);
    var yLo := if startY < 1 then 1 else startY;
    var yHi := if endY > height - 1 then height - 1 else endY;
    BlurRows(img, result, yLo, yHi);
  }

  /** With corrected bands, running every worker once in any order gives the
      sequential blur's image, for every worker count. */
  method ApplyGaussianBlurBandedCorrected(img: array2<int>, workers: nat, order: seq<nat>) returns (result: array2<int>)
    requires workers >= 1 && IsSchedule(order, workers)
    ensures fresh(result)
    ensures result.Length0 == img.Length0 && result.Length1 == img.Length1
    ensures forall x, y :: 0 <= x < result.Length0 && 0 <= y < result.Length1 ==>
      result[x, y] == SequentialOutput(img, x, y)
  {
    var width, height := img.Length0, img.Length1;
    result := new int[width, height]((x, y) => 0);
    var k := 0;
    while k < |order|
      invariant 0 <= k <= |order|
      invariant forall x, y :: 0 <= x < width && 0 <= y < height ==>
        result[x, y] == if Interior(width, height, x, y) && BandOf(height, workers, y) in order[..k]
                        then BlurredPixel(img, x, y) else 0
    {
      var t := order[k];
      RunCorrectedWorker(img, result, workers, t);
      forall x, y | 0 <= x < width && 0 <= y < height
        ensures WrittenByCorrectedWorker(width, height, workers, t, x, y) <==>
          Interior(width, height, x, y) && t == BandOf(height, workers, y)
      {
        CorrectedWorkerWritesItsInterior(width, height, workers, t, x, y);
      }
      assert order[..k + 1] == order[..k] + [t];
      k := k + 1;
    }
    assert order[..k] == order;
  }

  /** As written, an interior pixel that no worker writes stays black in the
      banded image while the sequential image has its colour; on a uniform
      image of a non-black colour the two images differ there. */
  lemma SkippedPixelDiffers(img: array2<int>, workers: nat, x: int, y: nat, v: int)
    requires workers >= 1 && 0 <= x < img.Length0 && y < img.Length1
    requires Interior(img.Length0, img.Length1, x, y)
    requires !BandedWrites(img.Length0, img.Length1, workers, x, y)
    requires forall px, py :: 0 <= px < img.Length0 && 0 <= py < img.Length1 ==> img[px, py] == v
    ensures BandedOutput(img, workers, x, y) == 0
    ensures SequentialOutput(img, x, y) == v % 0x100_0000
  {
    BlurOfUniformImage(img, x, y, v);
  }

  /** The input that shows it: two workers on a 3 × 6 image. Band 0 is rows
      0..2 and writes only row 1, band 1 is rows 3..5 and writes only row 4,
      so interior pixel (1, 2) is never written (nor is (1, 3)). */
  lemma BandBoundaryRowLost()
    ensures Interior(3, 6, 1, 2) && !BandedWrites(3, 6, 2, 1, 2)
    ensures Interior(3, 6, 1, 3) && !BandedWrites(3, 6, 2, 1, 3)
  {
    SecondAndThirdRowsOwned();
  }

  /** Of six rows split between two workers, row 2 is the last of band 0 and
      row 3 the first of band 1. */
  lemma SecondAndThirdRowsOwned()
    ensures BandOf(6, 2, 2) == 0 && BandEnd(6, 2, 0) == 3
    ensures BandOf(6, 2, 3) == 1 && BandStart(6, 2, 1) == 3
  {
    BandsPartitionRows(6, 2, 2, 0);
    BandsPartitionRows(6, 2, 3, 1);
  }
}
