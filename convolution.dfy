/** The numeric core shared by the three blur programs: the packed-RGB pixel
    format, the fixed 3×3 kernel and the weighted sum over a 3×3 window.

    The programs accumulate `channel * k/16` in floating point. Every weight is
    a multiple of 1/16 and every channel is at most 255, so each partial sum is
    an exact multiple of 1/16 below 256 and the float computation equals the
    integer sum of `k * channel` divided by 16; the final `(int)` or `(uchar)`
    cast truncates, which on non-negative values is Dafny's `/`. */
module Convolution {

  /** The three colour channels of a packed pixel, in packing order. */
  datatype Channel = Red | Green | Blue {
    /** Place value of the channel's byte in a packed int: 1 << 16, 1 << 8, 1 << 0. */
    function Scale(): nat {
      match this
      case Red => 0x1_0000
      case Green => 0x100
      case Blue => 1
    }

    /** Position of the channel among a pixel's three bytes in a flat buffer. */
    function Index(): nat {
      match this
      case Red => 0
      case Green => 1
      case Blue => 2
    }
  }

  /** `(rgb >> s) & 0xFF` on a Java int. Dividing by a positive power of two
      in Dafny floors, which is an arithmetic right shift on two's complement,
      and `% 256` keeps the low byte, which is the mask; so this holds for
      negative ints (an opaque alpha byte) too. */
  function ChannelOf(rgb: int, ch: Channel): (c: int)
    ensures 0 <= c < 256
  {
    (rgb / ch.Scale()) % 256
  }

  /** `(r << 16) | (g << 8) | b` for three channel values below 256: the three
      bit fields do not overlap, so the OR is their sum. */
  function Pack(r: int, g: int, b: int): (rgb: int)
    requires 0 <= r < 256 && 0 <= g < 256 && 0 <= b < 256
    ensures 0 <= rgb < 0x100_0000
    ensures ChannelOf(rgb, Red) == r && ChannelOf(rgb, Green) == g && ChannelOf(rgb, Blue) == b
  {
    var rgb := r * 0x1_0000 + g * 0x100 + b;
    assert rgb / 0x100 == r * 0x100 + g;
    assert rgb / 0x1_0000 == r;
    rgb
  }

  /** Unpacking the three channels of any int and packing them again keeps
      exactly its low 24 bits (`rgb & 0xFFFFFF`): alpha is dropped, colour kept. */
  lemma {:induction false} RepackKeepsColour(v: int)
    ensures Pack(ChannelOf(v, Red), ChannelOf(v, Green), ChannelOf(v, Blue)) == v % 0x100_0000
  {
    var low := v % 0x100_0000;
    var q := v / 0x100_0000;
    assert v == q * 0x100_0000 + low;
    var r, g, b := low / 0x1_0000, (low / 0x100) % 0x100, low % 0x100;
    assert low == r * 0x1_0000 + g * 0x100 + b;
    assert v / 0x1_0000 == q * 0x100 + r;
    assert ChannelOf(v, Red) == r;
    assert v / 0x100 == q * 0x1_0000 + low / 0x100;
    assert ChannelOf(v, Green) == g;
    assert ChannelOf(v, Blue) == b;
  }

  /** The kernel weights in sixteenths, indexed [x-offset + 1][y-offset + 1]. */
  const Kernel: seq<seq<nat>> := [[1, 2, 1], [2, 4, 2], [1, 2, 1]]

  /** The common denominator of the weights. */
  const Denominator: nat := 16

  /** A 3×3 neighbourhood of one channel, indexed like `Kernel`. */
  predicate IsWindow(win: seq<seq<int>>) {
    |win| == 3 && forall a :: 0 <= a < 3 ==> |win[a]| == 3
  }

  /** A window whose samples are all channel values, that is in 0..255. */
  predicate IsChannelWindow(win: seq<seq<int>>) {
    IsWindow(win) && forall a, b :: 0 <= a < 3 && 0 <= b < 3 ==> 0 <= win[a][b] < 256
  }

  /** The sum of the first `n` weighted samples of column `a`, in the order the
      inner loop over the y-offset adds them. */
  function ColumnSum(win: seq<seq<int>>, a: nat, n: nat): int
    requires IsWindow(win) && a < 3 && n <= 3
  {
    if n == 0 then 0 else ColumnSum(win, a, n - 1) + Kernel[a][n - 1] * win[a][n - 1]
  }

  /** The sum of the first `m` whole columns, in the order the outer loop over
      the x-offset adds them. */
  function PartialSum(win: seq<seq<int>>, m: nat): int
    requires IsWindow(win) && m <= 3
  {
    if m == 0 then 0 else PartialSum(win, m - 1) + ColumnSum(win, m - 1, 3)
  }

  /** Sixteen times the blurred channel value: all nine weighted samples. */
  function WeightedSum(win: seq<seq<int>>): int
    requires IsWindow(win)
  {
    PartialSum(win, 3)
  }

  /** The blurred channel value: the weighted sum, truncated. */
  function Conv(win: seq<seq<int>>): int
    requires IsWindow(win)
  {
    WeightedSum(win) / Denominator
  }

  /** The sum of the first `n` weights of column `a`. */
  function ColumnWeight(a: nat, n: nat): nat
    requires a < 3 && n <= 3
  {
    if n == 0 then 0 else ColumnWeight(a, n - 1) + Kernel[a][n - 1]
  }

  /** The sum of the weights of the first `m` columns. */
  function TotalWeight(m: nat): nat
    requires m <= 3
  {
    if m == 0 then 0 else TotalWeight(m - 1) + ColumnWeight(m - 1, 3)
  }

  /** The nine weights add up to the denominator: the kernel is normalised. */
  lemma KernelNormalised()
    ensures TotalWeight(3) == Denominator
  {
    assert ColumnWeight(0, 3) == 4 && ColumnWeight(1, 3) == 8 && ColumnWeight(2, 3) == 4;
  }

  /** The kernel table is symmetric, so indexing it [x][y] or [y][x] is the same. */
  lemma KernelSymmetric(a: nat, b: nat)
    requires a < 3 && b < 3
    ensures Kernel[a][b] == Kernel[b][a]
  {
  }

  /** Samples between `lo` and `hi` give a column sum between `lo` and `hi`
      times the column's weight. */
  lemma {:induction false} ColumnSumBetween(win: seq<seq<int>>, a: nat, n: nat, lo: int, hi: int)
    requires IsWindow(win) && a < 3 && n <= 3
    requires forall b :: 0 <= b < 3 ==> lo <= win[a][b] <= hi
    ensures lo * ColumnWeight(a, n) <= ColumnSum(win, a, n) <= hi * ColumnWeight(a, n)
  {
    if n > 0 {
      ColumnSumBetween(win, a, n - 1, lo, hi);
      var k, s := Kernel[a][n - 1], win[a][n - 1];
      MulBetween(k, s, lo, hi);
      assert lo * ColumnWeight(a, n) == lo * ColumnWeight(a, n - 1) + lo * k;
      assert hi * ColumnWeight(a, n) == hi * ColumnWeight(a, n - 1) + hi * k;
    }
  }

  /** Scaling `lo <= s <= hi` by a non-negative weight keeps the order. */
  lemma MulBetween(k: nat, s: int, lo: int, hi: int)
    requires lo <= s <= hi
    ensures lo * k <= k * s <= hi * k
  {
  }

  /** `q * a <= q * b` when `a <= b`. */
  lemma MulMonotone(q: nat, a: int, b: int)
    requires a <= b
    ensures q * a <= q * b
  {
    assert q * b == q * a + q * (b - a);
  }

  /** Samples between `lo` and `hi` give a partial sum between `lo` and `hi`
      times the weight of the columns summed. */
  lemma {:induction false} PartialSumBetween(win: seq<seq<int>>, m: nat, lo: int, hi: int)
    requires IsWindow(win) && m <= 3
    requires forall a, b :: 0 <= a < 3 && 0 <= b < 3 ==> lo <= win[a][b] <= hi
    ensures lo * TotalWeight(m) <= PartialSum(win, m) <= hi * TotalWeight(m)
  {
    if m > 0 {
      PartialSumBetween(win, m - 1, lo, hi);
      ColumnSumBetween(win, m - 1, 3, lo, hi);
      assert lo * TotalWeight(m) == lo * TotalWeight(m - 1) + lo * ColumnWeight(m - 1, 3);
      assert hi * TotalWeight(m) == hi * TotalWeight(m - 1) + hi * ColumnWeight(m - 1, 3);
    }
  }

  /** A blurred channel stays a channel value: the weighted sum of samples in
      0..255 is at most 255 * 16, so the truncated quotient is in 0..255 and
      no cast to a byte wraps. */
  lemma ConvInRange(win: seq<seq<int>>)
    requires IsChannelWindow(win)
    ensures 0 <= WeightedSum(win) <= 255 * Denominator
    ensures 0 <= Conv(win) < 256
  {
    PartialSumBetween(win, 3, 0, 255);
    KernelNormalised();
  }

  /** Identity on uniform input: when all nine samples equal `v`, the blurred
      value is `v`, because the weights sum to 16/16. */
  lemma ConvOfUniform(win: seq<seq<int>>, v: int)
    requires IsWindow(win)
    requires forall a, b :: 0 <= a < 3 && 0 <= b < 3 ==> win[a][b] == v
    ensures Conv(win) == v
  {
    PartialSumBetween(win, 3, v, v);
    KernelNormalised();
  }

  /** The window read with the offsets swapped. */
  function Transpose(win: seq<seq<int>>): (t: seq<seq<int>>)
    requires IsWindow(win)
    ensures IsWindow(t)
  {
    seq(3, a requires 0 <= a < 3 => seq(3, b requires 0 <= b < 3 => win[b][a]))
  }

  /** The nine weighted samples written out. */
  lemma WeightedSumExpanded(win: seq<seq<int>>)
    requires IsWindow(win)
    ensures WeightedSum(win) ==
      (win[0][0] + 2 * win[0][1] + win[0][2]) +
      (2 * win[1][0] + 4 * win[1][1] + 2 * win[1][2]) +
      (win[2][0] + 2 * win[2][1] + win[2][2])
  {
    forall a | 0 <= a < 3
      ensures ColumnSum(win, a, 3) == Kernel[a][0] * win[a][0] + Kernel[a][1] * win[a][1] + Kernel[a][2] * win[a][2]
    {
      assert ColumnSum(win, a, 1) == Kernel[a][0] * win[a][0];
      assert ColumnSum(win, a, 2) == ColumnSum(win, a, 1) + Kernel[a][1] * win[a][1];
    }
    assert PartialSum(win, 1) == ColumnSum(win, 0, 3);
    assert PartialSum(win, 2) == PartialSum(win, 1) + ColumnSum(win, 1, 3);
  }

  /** Because the kernel is symmetric, weighting sample [x][y] by
      `Kernel[y][x]` instead of `Kernel[x][y]` gives the same sum. */
  lemma WeightedSumTransposed(win: seq<seq<int>>)
    requires IsWindow(win)
    ensures WeightedSum(Transpose(win)) == WeightedSum(win)
  {
    var t := Transpose(win);
    WeightedSumExpanded(win);
    WeightedSumExpanded(t);
  }
}
