/** The sequential reference blur (`GaussianBlur.applyGaussianBlur`).

    An image is an `array2<int>` of Java `getRGB` values indexed [x, y], so
    `Length0` is the width and `Length1` the height. The result image starts
    all zero, as a fresh `TYPE_INT_RGB` image does, and only interior pixels
    are ever written. */
module SequentialBlur {
  import opened Convolution

  /** A pixel with a full 3×3 neighbourhood inside a width × height image. */
  predicate Interior(width: int, height: int, x: int, y: int) {
    1 <= x < width - 1 && 1 <= y < height - 1
  }

  /** Every neighbour `(x + i, y + j)` of an interior pixel is inside the
      image, so no `getRGB` of the convolution is out of bounds. */
  lemma NeighboursInBounds(width: int, height: int, x: int, y: int, i: int, j: int)
    requires Interior(width, height, x, y)
    requires -1 <= i <= 1 && -1 <= j <= 1
    ensures 0 <= x + i < width && 0 <= y + j < height
  {
  }

  /** Channel `ch` of the neighbour at offset (i, j), as `getRGB` and the
      shift-and-mask read it. */
  function Sample(img: array2<int>, x: int, y: int, ch: Channel, i: int, j: int): int
    reads img
    requires 0 <= x + i < img.Length0 && 0 <= y + j < img.Length1
  {
    ChannelOf(img[x + i, y + j], ch)
  }

  /** One channel of the 3×3 neighbourhood of an interior pixel, sample [a][b]
      taken from pixel (x + a - 1, y + b - 1). */
  function WindowAt(img: array2<int>, x: int, y: int, ch: Channel): (win: seq<seq<int>>)
    reads img
    requires Interior(img.Length0, img.Length1, x, y)
    ensures IsChannelWindow(win)
  {
    [[Sample(img, x, y, ch, -1, -1), Sample(img, x, y, ch, -1, 0), Sample(img, x, y, ch, -1, 1)],
     [Sample(img, x, y, ch, 0, -1), Sample(img, x, y, ch, 0, 0), Sample(img, x, y, ch, 0, 1)],
     [Sample(img, x, y, ch, 1, -1), Sample(img, x, y, ch, 1, 0), Sample(img, x, y, ch, 1, 1)]]
  }

  /** Sample [i + 1][j + 1] of the window is the neighbour at offset (i, j). */
  lemma WindowAtSample(img: array2<int>, x: int, y: int, ch: Channel, i: int, j: int)
    requires Interior(img.Length0, img.Length1, x, y)
    requires -1 <= i <= 1 && -1 <= j <= 1
    ensures WindowAt(img, x, y, ch)[i + 1][j + 1] == ChannelOf(img[x + i, y + j], ch)
  {
    var win := WindowAt(img, x, y, ch);
    if i == -1 {
      assert win[0] == [Sample(img, x, y, ch, -1, -1), Sample(img, x, y, ch, -1, 0), Sample(img, x, y, ch, -1, 1)];
    } else if i == 0 {
      assert win[1] == [Sample(img, x, y, ch, 0, -1), Sample(img, x, y, ch, 0, 0), Sample(img, x, y, ch, 0, 1)];
    } else {
      assert win[2] == [Sample(img, x, y, ch, 1, -1), Sample(img, x, y, ch, 1, 0), Sample(img, x, y, ch, 1, 1)];
    }
  }

  /** The packed value `applyGaussianBlur` stores for an interior pixel: each
      of its channels is that channel's blurred value. */
  function BlurredPixel(img: array2<int>, x: int, y: int): (rgb: int)
    reads img
    requires Interior(img.Length0, img.Length1, x, y)
    ensures 0 <= rgb < 0x100_0000
    ensures forall ch :: ChannelOf(rgb, ch) == Conv(WindowAt(img, x, y, ch))
  {
    var r, g, b := WindowAt(img, x, y, Red), WindowAt(img, x, y, Green), WindowAt(img, x, y, Blue);
    ConvInRange(r);
    ConvInRange(g);
    ConvInRange(b);
    Pack(Conv(r), Conv(g), Conv(b))
  }

  /** Identity on uniform input: if all nine neighbours of an interior pixel
      carry channel value `v`, the blurred pixel carries `v` in that channel. */
  lemma BlurOfUniformNeighbourhood(img: array2<int>, x: int, y: int, ch: Channel, v: int)
    requires Interior(img.Length0, img.Length1, x, y)
    requires forall i, j :: -1 <= i <= 1 && -1 <= j <= 1 ==> Sample(img, x, y, ch, i, j) == v
    ensures ChannelOf(BlurredPixel(img, x, y), ch) == v
  {
    var win := WindowAt(img, x, y, ch);
    forall a, b | 0 <= a < 3 && 0 <= b < 3
      ensures win[a][b] == v
    {
      WindowAtSample(img, x, y, ch, a - 1, b - 1);
    }
    ConvOfUniform(win, v);
  }

  /** Identity on a uniform image: where every pixel is `v`, the blurred
      pixel is `v` with its alpha byte dropped. */
  lemma BlurOfUniformImage(img: array2<int>, x: int, y: int, v: int)
    requires Interior(img.Length0, img.Length1, x, y)
    requires forall px, py :: 0 <= px < img.Length0 && 0 <= py < img.Length1 ==> img[px, py] == v
    ensures BlurredPixel(img, x, y) == v % 0x100_0000
  {
    var rgb := BlurredPixel(img, x, y);
    forall ch
      ensures ChannelOf(rgb, ch) == ChannelOf(v, ch)
    {
      BlurOfUniformNeighbourhood(img, x, y, ch, ChannelOf(v, ch));
    }
    RepackKeepsColour(rgb);
    RepackKeepsColour(v);
  }

  /** A 3×3 image whose only non-zero red is 255 at the centre blurs to red
      255 * 4 / 16 = 63.75, truncated to 63, at the centre. */
  lemma SingleBrightCentre(img: array2<int>)
    requires img.Length0 == 3 && img.Length1 == 3
    requires ChannelOf(img[1, 1], Red) == 255
    requires forall x, y :: 0 <= x < 3 && 0 <= y < 3 && (x, y) != (1, 1) ==> ChannelOf(img[x, y], Red) == 0
    ensures ChannelOf(BlurredPixel(img, 1, 1), Red) == 63
  {
    var win := WindowAt(img, 1, 1, Red);
    forall a, b | 0 <= a < 3 && 0 <= b < 3
      ensures win[a][b] == if a == 1 && b == 1 then 255 else 0
    {
      WindowAtSample(img, 1, 1, Red, a - 1, b - 1);
    }
    WeightedSumExpanded(win);
  }

  /** What the sequential blur leaves at (x, y): the blurred pixel inside, the
      fresh image's zero on the border. */
  function SequentialOutput(img: array2<int>, x: int, y: int): int
    reads img
  {
    if Interior(img.Length0, img.Length1, x, y) then BlurredPixel(img, x, y) else 0
  }

  /** The body of the two inner loops: accumulate the nine weighted
      neighbours of each channel and pack the truncated sums. */
  method BlurPixel(img: array2<int>, x: int, y: int) returns (rgb: int)
    requires Interior(img.Length0, img.Length1, x, y)
    ensures rgb == BlurredPixel(img, x, y)
  {
    ghost var wr, wg, wb := WindowAt(img, x, y, Red), WindowAt(img, x, y, Green), WindowAt(img, x, y, Blue);
    var r, g, b := 0, 0, 0;
    var i := -1;
    while i <= 1
      invariant -1 <= i <= 2
      invariant r == PartialSum(wr, i + 1)
      invariant g == PartialSum(wg, i + 1)
      invariant b == PartialSum(wb, i + 1)
    {
      var j := -1;
      while j <= 1
        invariant -1 <= j <= 2
        invariant r == PartialSum(wr, i + 1) + ColumnSum(wr, i + 1, j + 1)
        invariant g == PartialSum(wg, i + 1) + ColumnSum(wg, i + 1, j + 1)
        invariant b == PartialSum(wb, i + 1) + ColumnSum(wb, i + 1, j + 1)
      {
        var pixel := img[x + i, y + j];
        var weight := Kernel[i + 1][j + 1];
        WindowAtSample(img, x, y, Red, i, j);
        WindowAtSample(img, x, y, Green, i, j);
        WindowAtSample(img, x, y, Blue, i, j);
        r := r + ChannelOf(pixel, Red) * weight;
        g := g + ChannelOf(pixel, Green) * weight;
        b := b + ChannelOf(pixel, Blue) * weight;
        j := j + 1;
      }
      i := i + 1;
    }
    ConvInRange(wr);
    ConvInRange(wg);
    ConvInRange(wb);
    rgb := Pack(r / Denominator, g / Denominator, b / Denominator);
  }

  /** The loop nest of `applyGaussianBlur` over columns 1 .. width - 2 and the
      rows `yLo .. yHi - 1`: every pixel in that rectangle gets its blurred
      value, every other pixel of `result` keeps what it had. */
  method BlurRows(img: array2<int>, result: array2<int>, yLo: int, yHi: int)
    requires result != img
    requires result.Length0 == img.Length0 && result.Length1 == img.Length1
    requires 1 <= yLo && yHi <= img.Length1 - 1
    modifies result
    ensures forall px, py :: 0 <= px < result.Length0 && 0 <= py < result.Length1 ==>
      result[px, py] == if 1 <= px < img.Length0 - 1 && yLo <= py < yHi then BlurredPixel(img, px, py)
                        else old(result[px, py])
  {
    var width, height := img.Length0, img.Length1;
    var x := 1;
    while x < width - 1
      invariant 1 <= x && (width >= 2 ==> x <= width - 1)
      invariant forall px, py :: 0 <= px < width && 0 <= py < height ==>
        result[px, py] == if 1 <= px < x && px < width - 1 && yLo <= py < yHi then BlurredPixel(img, px, py)
                          else old(result[px, py])
    {
      var y := yLo;
      while y < yHi
        invariant yLo <= y && (yLo <= yHi ==> y <= yHi)
        invariant forall px, py :: 0 <= px < width && 0 <= py < height ==>
          result[px, py] == if (1 <= px < x || (px == x && py < y)) && yLo <= py < yHi then BlurredPixel(img, px, py)
                            else old(result[px, py])
      {
        var rgb := BlurPixel(img, x, y);
        result[x, y] := rgb;
        y := y + 1;
      }
      x := x + 1;
    }
  }

  /** `applyGaussianBlur`: a fresh image of the same size whose interior holds
      the blurred pixels and whose border is left at zero; an image with no
      interior (width or height at most 2) comes back all zero. */
  method ApplyGaussianBlur(img: array2<int>) returns (result: array2<int>)
    ensures fresh(result)
    ensures result.Length0 == img.Length0 && result.Length1 == img.Length1
    ensures forall x, y :: 0 <= x < result.Length0 && 0 <= y < result.Length1 ==>
      result[x, y] == SequentialOutput(img, x, y)
    ensures img.Length0 <= 2 || img.Length1 <= 2 ==>
      forall x, y :: 0 <= x < result.Length0 && 0 <= y < result.Length1 ==> result[x, y] == 0
  {
    result := new int[img.Length0, img.Length1]((x, y) => 0);
    BlurRows(img, result, 1, img.Length1 - 1);
  }
}
