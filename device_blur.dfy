/** The OpenCL blur (`OpenCLGaussianBlur`): the image is flattened into a byte
    buffer, the `gaussian_blur` kernel runs once per (x, y) over it, and the
    output buffer is turned back into an image.

    A buffer is an `array<Byte>` of Java bytes; the kernel sees the same bits
    as `uchar`. The device launch is modelled as running the kernel for every
    (x, y) one after another in an arbitrary order (`order`); the device's
    output buffer is a fresh array whose contents are unspecified. */
module DeviceBlur {
  import opened Convolution
  import opened SequentialBlur

  /** A Java `byte`. */
  newtype Byte = b: int | -128 <= b < 128

  /** `b & 0xFF` in Java; also the value the kernel reads from a `uchar`. */
  function Unsigned(b: Byte): (u: int)
    ensures 0 <= u < 256
  {
    b as int % 256
  }

  /** `(byte) v` in Java, and the bits the kernel's `(uchar)` store leaves:
      the low eight bits of `v`. */
  function ToByte(v: int): (b: Byte)
    ensures Unsigned(b) == v % 256
  {
    var m := v % 256;
    if m < 128 then m as Byte else (m - 256) as Byte
  }

  /** Storing a channel value as a byte and reading it back with `& 0xFF` is
      the identity on 0..255, and the other way round on bytes. */
  lemma ByteRoundTrip(v: int, b: Byte)
    ensures 0 <= v < 256 ==> Unsigned(ToByte(v)) == v
    ensures ToByte(Unsigned(b)) == b
  {
  }

  /** `(y * width + x) * 3 + c`: where channel `ch` of pixel (x, y) lives in a
      flat buffer, row after row, three bytes per pixel. */
  function ByteIndex(width: int, x: int, y: int, ch: Channel): int {
    (y * width + x) * 3 + ch.Index()
  }

  /** The row-major pixel number `y * width + x` of a pixel inside a
      width × height image is below `width * height`. */
  lemma PixelNumberBelow(width: nat, height: nat, x: int, y: int)
    requires 0 <= x < width && 0 <= y < height
    ensures 0 <= y * width + x < width * height
  {
    MulMonotone(width, 0, y);
    MulMonotone(width, y, height - 1);
    assert (height - 1) * width + width == width * height;
  }

  /** Every channel offset of every pixel lies inside the
      `width * height * 3` bytes `extractRGB` allocates. */
  lemma ByteIndexInBounds(width: nat, height: nat, x: int, y: int, ch: Channel)
    requires 0 <= x < width && 0 <= y < height
    ensures 0 <= ByteIndex(width, x, y, ch) < width * height * 3
  {
    PixelNumberBelow(width, height, x, y);
  }

  /** Distinct pixels of a row-major image have distinct pixel numbers. */
  lemma PixelNumberInjective(width: nat, x1: int, y1: int, x2: int, y2: int)
    requires 0 <= x1 < width && 0 <= x2 < width && 0 <= y1 && 0 <= y2
    requires y1 * width + x1 == y2 * width + x2
    ensures x1 == x2 && y1 == y2
  {
    if y1 < y2 {
      MulMonotone(width, y1 + 1, y2);
    } else if y2 < y1 {
      MulMonotone(width, y2 + 1, y1);
    }
  }

  /** No byte of pixel (x, y) falls among the three bytes of another pixel
      (x0, y0): kernel invocations for distinct pixels write disjoint bytes. */
  lemma ByteIndexOutsideOtherPixel(width: nat, x: int, y: int, ch: Channel, x0: int, y0: int)
    requires 0 <= x < width && 0 <= y && 0 <= x0 < width && 0 <= y0
    requires (x, y) != (x0, y0)
    ensures ByteIndex(width, x, y, ch) < ByteIndex(width, x0, y0, Red) ||
            ByteIndex(width, x0, y0, Red) + 3 <= ByteIndex(width, x, y, ch)
  {
    var p, p0 := y * width + x, y0 * width + x0;
    if p == p0 {
      PixelNumberInjective(width, x, y, x0, y0);
    }
  }

  /** Distinct (pixel, channel) pairs have distinct offsets. */
  lemma ByteIndexInjective(width: nat, x1: int, y1: int, c1: Channel, x2: int, y2: int, c2: Channel)
    requires 0 <= x1 < width && 0 <= y1 && 0 <= x2 < width && 0 <= y2
    requires ByteIndex(width, x1, y1, c1) == ByteIndex(width, x2, y2, c2)
    ensures x1 == x2 && y1 == y2 && c1 == c2
  {
    if (x1, y1) != (x2, y2) {
      ByteIndexOutsideOtherPixel(width, x1, y1, c1, x2, y2);
    }
  }

  /** `buf` is `extractRGB(img)`: as long as the image has three bytes per
      pixel, each the pixel's channel as a byte. */
  predicate IsFlattening(buf: seq<Byte>, img: array2<int>)
    reads img
  {
    |buf| == img.Length0 * img.Length1 * 3 &&
    forall x, y, ch :: 0 <= x < img.Length0 && 0 <= y < img.Length1 ==>
      0 <= ByteIndex(img.Length0, x, y, ch) < |buf| &&
      buf[ByteIndex(img.Length0, x, y, ch)] == ToByte(ChannelOf(img[x, y], ch))
  }

  /** `extractRGB`: a fresh buffer with every pixel's three channels at its
      offset. */
  method ExtractRgb(img: array2<int>) returns (pixels: array<Byte>)
    ensures fresh(pixels)
    ensures IsFlattening(pixels[..], img)
  {
    var width, height := img.Length0, img.Length1;
    pixels := new Byte[width * height * 3];
    var y := 0;
    while y < height
      invariant 0 <= y <= height
      invariant forall px, py, ch :: 0 <= px < width && 0 <= py < y ==>
        0 <= ByteIndex(width, px, py, ch) < pixels.Length &&
        pixels[ByteIndex(width, px, py, ch)] == ToByte(ChannelOf(img[px, py], ch))
    {
      var x := 0;
      while x < width
        invariant 0 <= x <= width
        invariant forall px, py, ch :: 0 <= px < width && 0 <= py < height && (py < y || (py == y && px < x)) ==>
          0 <= ByteIndex(width, px, py, ch) < pixels.Length &&
          pixels[ByteIndex(width, px, py, ch)] == ToByte(ChannelOf(img[px, py], ch))
      {
        var rgb := img[x, y];
        var idx := (y * width + x) * 3;
        ByteIndexInBounds(width, height, x, y, Blue);
        forall px, py, ch | 0 <= px < width && 0 <= py < height && (px, py) != (x, y)
          ensures ByteIndex(width, px, py, ch) < idx || idx + 3 <= ByteIndex(width, px, py, ch)
        {
          ByteIndexOutsideOtherPixel(width, px, py, ch, x, y);
        }
        pixels[idx] := ToByte(ChannelOf(rgb, Red));
        pixels[idx + 1] := ToByte(ChannelOf(rgb, Green));
        pixels[idx + 2] := ToByte(ChannelOf(rgb, Blue));
        x := x + 1;
      }
      y := y + 1;
    }
    forall x, y, ch | 0 <= x < width && 0 <= y < height
      ensures 0 <= ByteIndex(width, x, y, ch) < pixels.Length
    {
      ByteIndexInBounds(width, height, x, y, ch);
    }
  }

  /** The packed RGB value `createImage` makes of pixel (x, y) of a buffer:
      each channel is the unsigned value of the channel's byte. */
  function PixelFrom(buf: seq<Byte>, width: nat, height: nat, x: int, y: int): (rgb: int)
    requires |buf| == width * height * 3
    requires 0 <= x < width && 0 <= y < height
    ensures 0 <= rgb < 0x100_0000
  {
    var idx := (y * width + x) * 3;
    // The guard always holds (`ByteIndexInBounds`); testing it here rather
    // than calling the lemma keeps the nonlinear bound out of the definition.
    if 0 <= idx && idx + 2 < |buf| then PackedAt(buf, idx) else 0
  }

  /** Channel `ch` of the colour packed at `idx` is the byte at
      `idx + ch.Index()`. */
  lemma PackedAtChannel(buf: seq<Byte>, idx: int, ch: Channel)
    requires 0 <= idx && idx + 2 < |buf|
    ensures ChannelOf(PackedAt(buf, idx), ch) == Unsigned(buf[idx + ch.Index()])
  {
  }

  /** The three bytes at `idx`, read unsigned and packed: each channel of the
      result is the unsigned value of its byte. */
  function PackedAt(buf: seq<Byte>, idx: int): (rgb: int)
    requires 0 <= idx && idx + 2 < |buf|
    ensures 0 <= rgb < 0x100_0000
    ensures ChannelOf(rgb, Red) == Unsigned(buf[idx])
    ensures ChannelOf(rgb, Green) == Unsigned(buf[idx + 1])
    ensures ChannelOf(rgb, Blue) == Unsigned(buf[idx + 2])
  {
    Pack(Unsigned(buf[idx]), Unsigned(buf[idx + 1]), Unsigned(buf[idx + 2]))
  }

  /** Each channel of the packed pixel is the unsigned value of that
      channel's byte in the buffer. */
  lemma PixelFromChannels(buf: seq<Byte>, width: nat, height: nat, x: int, y: int, ch: Channel)
    requires |buf| == width * height * 3
    requires 0 <= x < width && 0 <= y < height
    ensures 0 <= ByteIndex(width, x, y, ch) < |buf|
    ensures ChannelOf(PixelFrom(buf, width, height, x, y), ch) == Unsigned(buf[ByteIndex(width, x, y, ch)])
  {
    ByteIndexInBounds(width, height, x, y, Red);
    ByteIndexInBounds(width, height, x, y, Blue);
    var idx := ByteIndex(width, x, y, Red);
    PackedAtChannel(buf, idx, ch);
  }

  /** `createImage(extractRGB(img), w, h)` gives every pixel back its colour:
      the RGB bits of the original, with the alpha byte dropped. */
  lemma FlattenRoundTrip(buf: seq<Byte>, img: array2<int>, x: int, y: int)
    requires IsFlattening(buf, img)
    requires 0 <= x < img.Length0 && 0 <= y < img.Length1
    ensures PixelFrom(buf, img.Length0, img.Length1, x, y) == img[x, y] % 0x100_0000
  {
    var rgb := PixelFrom(buf, img.Length0, img.Length1, x, y);
    var v := img[x, y];
    forall ch
      ensures ChannelOf(rgb, ch) == ChannelOf(v, ch)
    {
      PixelFromChannels(buf, img.Length0, img.Length1, x, y, ch);
      ByteRoundTrip(ChannelOf(v, ch), 0);
    }
    RepackKeepsColour(rgb);
    RepackKeepsColour(v);
  }

  /** The body of `createImage`'s loops: the three bytes of pixel (x, y),
      packed. */
  method ReadPixel(pixels: array<Byte>, width: nat, height: nat, x: int, y: int) returns (rgb: int)
    requires pixels.Length == width * height * 3
    requires 0 <= x < width && 0 <= y < height
    ensures rgb == PixelFrom(pixels[..], width, height, x, y)
  {
    PixelNumberBelow(width, height, x, y);
    var idx := (y * width + x) * 3;
    rgb := Pack(Unsigned(pixels[idx]), Unsigned(pixels[idx + 1]), Unsigned(pixels[idx + 2]));
  }

  /** `createImage`: a fresh width × height image holding, at each pixel, the
      colour packed from the pixel's three bytes. */
  method CreateImage(pixels: array<Byte>, width: nat, height: nat) returns (image: array2<int>)
    requires pixels.Length == width * height * 3
    ensures fresh(image)
    ensures image.Length0 == width && image.Length1 == height
    ensures forall x, y :: 0 <= x < width && 0 <= y < height ==>
      image[x, y] == PixelFrom(pixels[..], width, height, x, y)
  {
    image := new int[width, height]((x, y) => 0);
    var y := 0;
    while y < height
      invariant 0 <= y <= height
      invariant forall px, py :: 0 <= px < width && 0 <= py < y ==>
        image[px, py] == PixelFrom(pixels[..], width, height, px, py)
    {
      FillRow(pixels, image, y);
      y := y + 1;
    }
  }

  /** The inner loop of `createImage`: row y of `image` gets its packed
      pixels, every other row keeps its values. */
  method FillRow(pixels: array<Byte>, image: array2<int>, y: int)
    requires pixels.Length == image.Length0 * image.Length1 * 3
    requires 0 <= y < image.Length1
    modifies image
    ensures forall px, py :: 0 <= px < image.Length0 && 0 <= py < image.Length1 ==>
      image[px, py] == if py == y then PixelFrom(pixels[..], image.Length0, image.Length1, px, y) else old(image[px, py])
  {
    var width, height := image.Length0, image.Length1;
    var x := 0;
    while x < width
      invariant 0 <= x <= width
      invariant forall px, py :: 0 <= px < width && 0 <= py < height ==>
        image[px, py] == if py == y && px < x then PixelFrom(pixels[..], width, height, px, y) else old(image[px, py])
    {
      var rgb := ReadPixel(pixels, width, height, x, y);
      image[x, y] := rgb;
      x := x + 1;
    }
  }

  /** Channel `ch` of the neighbour at offset (i, j), as the kernel reads it
      from `input[((y + j) * width + (x + i)) * 3 + c]`. */
  function FlatSample(buf: seq<Byte>, width: nat, height: nat, x: int, y: int, ch: Channel, i: int, j: int): int
    requires |buf| == width * height * 3
    requires 0 <= x + i < width && 0 <= y + j < height
  {
    ByteIndexInBounds(width, height, x + i, y + j, ch);
    Unsigned(buf[ByteIndex(width, x + i, y + j, ch)])
  }

  /** One channel of the 3×3 neighbourhood of an interior pixel, read from a
      flat buffer, indexed like `Kernel`. */
  function FlatWindow(buf: seq<Byte>, width: nat, height: nat, x: int, y: int, ch: Channel): (win: seq<seq<int>>)
    requires |buf| == width * height * 3
    requires Interior(width, height, x, y)
    ensures IsChannelWindow(win)
  {
    [[FlatSample(buf, width, height, x, y, ch, -1, -1), FlatSample(buf, width, height, x, y, ch, -1, 0),
      FlatSample(buf, width, height, x, y, ch, -1, 1)],
     [FlatSample(buf, width, height, x, y, ch, 0, -1), FlatSample(buf, width, height, x, y, ch, 0, 0),
      FlatSample(buf, width, height, x, y, ch, 0, 1)],
     [FlatSample(buf, width, height, x, y, ch, 1, -1), FlatSample(buf, width, height, x, y, ch, 1, 0),
      FlatSample(buf, width, height, x, y, ch, 1, 1)]]
  }

  /** Sample [i + 1][j + 1] of the flat window is the byte at offset (i, j). */
  lemma FlatWindowSample(buf: seq<Byte>, width: nat, height: nat, x: int, y: int, ch: Channel, i: int, j: int)
    requires |buf| == width * height * 3
    requires Interior(width, height, x, y)
    requires -1 <= i <= 1 && -1 <= j <= 1
    ensures 0 <= ByteIndex(width, x + i, y + j, ch) < |buf|
    ensures FlatWindow(buf, width, height, x, y, ch)[i + 1][j + 1] == Unsigned(buf[ByteIndex(width, x + i, y + j, ch)])
  {
    ByteIndexInBounds(width, height, x + i, y + j, ch);
    var win := FlatWindow(buf, width, height, x, y, ch);
    if i == -1 {
      assert win[0] == [FlatSample(buf, width, height, x, y, ch, -1, -1), FlatSample(buf, width, height, x, y, ch, -1, 0),
                        FlatSample(buf, width, height, x, y, ch, -1, 1)];
    } else if i == 0 {
      assert win[1] == [FlatSample(buf, width, height, x, y, ch, 0, -1), FlatSample(buf, width, height, x, y, ch, 0, 0),
                        FlatSample(buf, width, height, x, y, ch, 0, 1)];
    } else {
      assert win[2] == [FlatSample(buf, width, height, x, y, ch, 1, -1), FlatSample(buf, width, height, x, y, ch, 1, 0),
                        FlatSample(buf, width, height, x, y, ch, 1, 1)];
    }
  }

  /** On the flattened image, the kernel's neighbourhood is the sequential
      blur's neighbourhood: both versions sum the same nine samples. */
  lemma FlatWindowOfFlattening(buf: seq<Byte>, img: array2<int>, x: int, y: int, ch: Channel)
    requires IsFlattening(buf, img)
    requires Interior(img.Length0, img.Length1, x, y)
    ensures FlatWindow(buf, img.Length0, img.Length1, x, y, ch) == WindowAt(img, x, y, ch)
  {
    var flat, win := FlatWindow(buf, img.Length0, img.Length1, x, y, ch), WindowAt(img, x, y, ch);
    forall a, b | 0 <= a < 3 && 0 <= b < 3
      ensures flat[a][b] == win[a][b]
    {
      FlatWindowSample(buf, img.Length0, img.Length1, x, y, ch, a - 1, b - 1);
      WindowAtSample(img, x, y, ch, a - 1, b - 1);
      ByteRoundTrip(ChannelOf(img[x + a - 1, y + b - 1], ch), 0);
    }
    assert flat[0] == win[0] && flat[1] == win[1] && flat[2] == win[2];
  }

  /** The byte an interior kernel invocation stores for channel `ch`: the
      `(uchar)` of the blurred value, which never wraps, so reading it back
      gives the blurred value itself. */
  function KernelByte(buf: seq<Byte>, width: nat, height: nat, x: int, y: int, ch: Channel): (b: Byte)
    requires |buf| == width * height * 3
    requires Interior(width, height, x, y)
    ensures Unsigned(b) == Conv(FlatWindow(buf, width, height, x, y, ch))
  {
    ConvInRange(FlatWindow(buf, width, height, x, y, ch));
    ToByte(Conv(FlatWindow(buf, width, height, x, y, ch)))
  }

  /** The kernel's two loops over (i, j): the nine weighted bytes of each
      channel of the neighbourhood of interior pixel (x, y), summed. */
  method KernelSums(input: array<Byte>, width: nat, height: nat, x: int, y: int) returns (r: int, g: int, b: int)
    requires input.Length == width * height * 3
    requires Interior(width, height, x, y)
    ensures r == WeightedSum(FlatWindow(input[..], width, height, x, y, Red))
    ensures g == WeightedSum(FlatWindow(input[..], width, height, x, y, Green))
    ensures b == WeightedSum(FlatWindow(input[..], width, height, x, y, Blue))
  {
    ghost var buf := input[..];
    ghost var wr, wg, wb := FlatWindow(buf, width, height, x, y, Red), FlatWindow(buf, width, height, x, y, Green),
                            FlatWindow(buf, width, height, x, y, Blue);
    r, g, b := 0, 0, 0;
    var i := -1;
    while i <= 1
      invariant -1 <= i <= 2
      invariant r == PartialSum(wr, i + 1)
      invariant g == PartialSum(wg, i + 1)
      invariant b == PartialSum(wb, i + 1)
    {
      var j := -1;
      while j <= 1
        invariant -1 <= j <= 2
        invariant r == PartialSum(wr, i + 1) + ColumnSum(wr, i + 1, j + 1)
        invariant g == PartialSum(wg, i + 1) + ColumnSum(wg, i + 1, j + 1)
        invariant b == PartialSum(wb, i + 1) + ColumnSum(wb, i + 1, j + 1)
      {
        var index := ((y + j) * width + (x + i)) * 3;
        FlatWindowSample(buf, width, height, x, y, Red, i, j);
        FlatWindowSample(buf, width, height, x, y, Green, i, j);
        FlatWindowSample(buf, width, height, x, y, Blue, i, j);
        assert index == ByteIndex(width, x + i, y + j, Red);
        assert wr[i + 1][j + 1] == Unsigned(input[index]);
        assert wg[i + 1][j + 1] == Unsigned(input[index + 1]);
        assert wb[i + 1][j + 1] == Unsigned(input[index + 2]);
        var weight := Kernel[i + 1][j + 1];
        r := r + Unsigned(input[index]) * weight;
        g := g + Unsigned(input[index + 1]) * weight;
        b := b + Unsigned(input[index + 2]) * weight;
        j := j + 1;
      }
      i := i + 1;
    }
  }

  /** One invocation of the `gaussian_blur` kernel for global id (x, y). On a
      border pixel it returns at once and writes nothing; on an interior pixel
      it writes exactly the pixel's three bytes, with the blurred channels. */
  method GaussianBlurKernel(input: array<Byte>, output: array<Byte>, width: nat, height: nat, x: int, y: int)
    requires input != output
    requires input.Length == width * height * 3 && output.Length == width * height * 3
    requires 0 <= x < width && 0 <= y < height
    modifies output
    ensures 0 <= ByteIndex(width, x, y, Red) && ByteIndex(width, x, y, Blue) < output.Length
    ensures !Interior(width, height, x, y) ==> output[..] == old(output[..])
    ensures Interior(width, height, x, y) ==>
      forall ch :: output[ByteIndex(width, x, y, ch)] == KernelByte(input[..], width, height, x, y, ch)
    ensures forall k :: 0 <= k < output.Length && !(ByteIndex(width, x, y, Red) <= k < ByteIndex(width, x, y, Red) + 3) ==>
      output[k] == old(output[k])
  {
    ByteIndexInBounds(width, height, x, y, Blue);
    if x < 1 || y < 1 || x >= width - 1 || y >= height - 1 {
      return;
    }
    var r, g, b := KernelSums(input, width, height, x, y);
    var idx := (y * width + x) * 3;
    output[idx] := ToByte(r / Denominator);
    output[idx + 1] := ToByte(g / Denominator);
    output[idx + 2] := ToByte(b / Denominator);
    assert idx == ByteIndex(width, x, y, Red);
    forall ch
      ensures output[ByteIndex(width, x, y, ch)] == KernelByte(input[..], width, height, x, y, ch)
    {
      if ch == Red {
        assert output[idx] == KernelByte(input[..], width, height, x, y, Red);
      } else if ch == Green {
        assert output[idx + 1] == KernelByte(input[..], width, height, x, y, Green);
      } else {
        assert output[idx + 2] == KernelByte(input[..], width, height, x, y, Blue);
      }
    }
  }

  /** `order` lists every global id of a width × height launch exactly once. */
  predicate IsLaunch(order: seq<(int, int)>, width: nat, height: nat) {
    |order| == width * height &&
    (forall k :: 0 <= k < |order| ==> 0 <= order[k].0 < width && 0 <= order[k].1 < height) &&
    (forall x, y :: 0 <= x < width && 0 <= y < height ==> (x, y) in order)
  }

  /** The launch of `gaussian_blur` over the global range (width, height), in
      any order: afterwards every interior pixel's bytes hold its blurred
      channels and every border pixel's bytes are as before. */
  method RunKernel(input: array<Byte>, output: array<Byte>, width: nat, height: nat, order: seq<(int, int)>)
    requires input != output
    requires input.Length == width * height * 3 && output.Length == width * height * 3
    requires IsLaunch(order, width, height)
    modifies output
    ensures forall x, y, ch :: 0 <= x < width && 0 <= y < height ==>
      0 <= ByteIndex(width, x, y, ch) < output.Length &&
      output[ByteIndex(width, x, y, ch)] ==
        if Interior(width, height, x, y) then KernelByte(input[..], width, height, x, y, ch)
        else old(output[ByteIndex(width, x, y, ch)])
  {
    forall x, y, ch | 0 <= x < width && 0 <= y < height
      ensures 0 <= ByteIndex(width, x, y, ch) < output.Length
    {
      ByteIndexInBounds(width, height, x, y, ch);
    }
    var k := 0;
    while k < |order|
      invariant 0 <= k <= |order|
      invariant forall x, y, ch :: 0 <= x < width && 0 <= y < height ==>
        output[ByteIndex(width, x, y, ch)] ==
          if Interior(width, height, x, y) && (x, y) in order[..k] then KernelByte(input[..], width, height, x, y, ch)
          else old(output[ByteIndex(width, x, y, ch)])
    {
      var (x0, y0) := order[k];
      GaussianBlurKernel(input, output, width, height, x0, y0);
      forall x, y, ch | 0 <= x < width && 0 <= y < height && (x, y) != (x0, y0)
        ensures ByteIndex(width, x, y, ch) < ByteIndex(width, x0, y0, Red) ||
                ByteIndex(width, x0, y0, Red) + 3 <= ByteIndex(width, x, y, ch)
      {
        ByteIndexOutsideOtherPixel(width, x, y, ch, x0, y0);
      }
      assert order[..k + 1] == order[..k] + [(x0, y0)];
      k := k + 1;
    }
    assert order[..k] == order;
  }

  /** The whole OpenCL path: flatten, launch on a buffer of unspecified
      contents, read back and unflatten. Every interior pixel comes out equal
      to the sequential blur's pixel; border pixels carry whatever bytes the
      device buffer held. */
  method BlurOnDevice(img: array2<int>, order: seq<(int, int)>) returns (blurred: array2<int>)
    requires IsLaunch(order, img.Length0, img.Length1)
    ensures fresh(blurred)
    ensures blurred.Length0 == img.Length0 && blurred.Length1 == img.Length1
    ensures forall x, y :: Interior(img.Length0, img.Length1, x, y) ==> blurred[x, y] == BlurredPixel(img, x, y)
  {
    var width, height := img.Length0, img.Length1;
    var imageData := ExtractRgb(img);
    var outputData := new Byte[imageData.Length];
    RunKernel(imageData, outputData, width, height, order);
    blurred := CreateImage(outputData, width, height);
    forall x, y | Interior(width, height, x, y)
      ensures blurred[x, y] == BlurredPixel(img, x, y)
    {
      DevicePixel(imageData[..], outputData[..], img, x, y);
    }
  }

  /** A pixel whose three output bytes are the kernel's bytes, read back from
      the output buffer, is the sequential blur's pixel. */
  lemma DevicePixel(input: seq<Byte>, output: seq<Byte>, img: array2<int>, x: int, y: int)
    requires IsFlattening(input, img)
    requires |output| == |input|
    requires Interior(img.Length0, img.Length1, x, y)
    requires forall ch :: (0 <= ByteIndex(img.Length0, x, y, ch) < |output| &&
      output[ByteIndex(img.Length0, x, y, ch)] == KernelByte(input, img.Length0, img.Length1, x, y, ch))
    ensures PixelFrom(output, img.Length0, img.Length1, x, y) == BlurredPixel(img, x, y)
  {
    var width, height := img.Length0, img.Length1;
    var rgb := PixelFrom(output, width, height, x, y);
    forall ch
      ensures ChannelOf(rgb, ch) == ChannelOf(BlurredPixel(img, x, y), ch)
    {
      PixelFromChannels(output, width, height, x, y, ch);
      FlatWindowOfFlattening(input, img, x, y, ch);
    }
    RepackKeepsColour(rgb);
    RepackKeepsColour(BlurredPixel(img, x, y));
  }
}
