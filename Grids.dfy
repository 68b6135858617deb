/**
  * Pixel buffers as values, and what each transform of the editor does to
  * one.  The methods of `Editor.ImageEditor` are proved to turn the buffer
  * they hold into these functions of the buffer they started from; the
  * lemmas here say what the functions mean.
  */
module Grids {
  import opened Pixels

  /** A buffer as a sequence of rows: `g[row][column]`. */
  type Grid = seq<seq<Int32>>

  predicate IsRect(g: Grid, h: nat, w: nat)
  {
    |g| == h && forall i | 0 <= i < h :: |g[i]| == w
  }

  /** The column count of row 0, as the editor reads it. */
  function Width(g: Grid): nat
  {
    if |g| == 0 then 0 else |g[0]|
  }

  /** A rectangular buffer with at least one row and one column, as every
    * decoded image is. */
  predicate IsImage(g: Grid)
  {
    |g| >= 1 && |g[0]| >= 1 && IsRect(g, |g|, |g[0]|)
  }

  /** Two rectangles of the same shape that agree everywhere are equal. */
  lemma SameCells(a: Grid, b: Grid, h: nat, w: nat)
    requires IsRect(a, h, w) && IsRect(b, h, w)
    requires forall i, j | 0 <= i < h && 0 <= j < w :: a[i][j] == b[i][j]
    ensures a == b
  {
    forall i | 0 <= i < h
      ensures a[i] == b[i]
    {
    }
  }

  /** Every pixel has a clear top byte. */
  predicate InRange(g: Grid)
  {
    forall i, j | 0 <= i < |g| && 0 <= j < |g[i]| :: IsRgb24(g[i][j])
  }

  lemma MulMono(a: int, b: int, k: int)
    requires a <= b && k >= 0
    ensures a * k <= b * k
  {
    assert b * k - a * k == (b - a) * k;
  }

  lemma MulAssoc(a: int, b: int, c: int)
    ensures a * (b * c) == (a * b) * c
  {
  }

  /** Block `k` of size `s` in a length `total` divisible by `s` lies inside it. */
  lemma {:induction false} BlockInside(k: int, s: int, total: int)
    requires s >= 1 && total >= 0 && total % s == 0 && 0 <= k < total / s
    ensures 0 <= k * s && k * s + s <= total
  {
    MulMono(0, k, s);
    MulMono(k + 1, total / s, s);
  }

  /** The block starting at `k * s` is block number `k` of the `total / s`. */
  lemma {:induction false} BlockStart(k: int, s: int, total: int)
    requires s >= 1 && total >= 0 && total % s == 0 && k >= 0 && k * s < total
    ensures k < total / s
  {
    if k >= total / s {
      MulMono(total / s, k, s);
      assert false;
    }
  }

  /** A scan in steps of `s` that has reached the end has visited all
    * `total / s` blocks. */
  lemma {:induction false} BlockCount(k: int, s: int, total: int)
    requires s >= 1 && total >= 0 && total % s == 0 && 0 <= k <= total / s && k * s >= total
    ensures k == total / s
  {
    if k < total / s {
      BlockInside(k, s, total);
      assert false;
    }
  }

  // ---------------------------------------------------------------------
  // rotate

  /** One clockwise quarter turn of an H x W buffer: a W x H buffer whose row
    * `j` is column `j` of the old one read from the bottom up. */
  function Rotate90(g: Grid): (r: Grid)
    requires IsImage(g)
    ensures IsImage(r) && |r| == Width(g) && Width(r) == |g|
  {
    var h, w := |g|, |g[0]|;
    seq(w, j requires 0 <= j < w => seq(h, k requires 0 <= k < h => g[h - 1 - k][j]))
  }

  /** The pixel at (i, j) moves to (j, H - 1 - i). */
  lemma Rotate90At(g: Grid, i: nat, j: nat)
    requires IsImage(g) && i < |g| && j < Width(g)
    ensures Rotate90(g)[j][|g| - 1 - i] == g[i][j]
  {
  }

  /** `n` quarter turns, one after the other. */
  function RotateBy(g: Grid, n: nat): (r: Grid)
    requires IsImage(g)
    ensures IsImage(r)
    decreases n
  {
    if n == 0 then g else RotateBy(Rotate90(g), n - 1)
  }

  /** Every quarter turn swaps the dimensions: an even number of turns keeps
    * them, an odd number transposes them. */
  lemma {:induction false} RotateByDims(g: Grid, n: nat)
    requires IsImage(g)
    ensures n % 2 == 0 ==> |RotateBy(g, n)| == |g| && Width(RotateBy(g, n)) == Width(g)
    ensures n % 2 == 1 ==> |RotateBy(g, n)| == Width(g) && Width(RotateBy(g, n)) == |g|
    decreases n
  {
    if n > 0 {
      RotateByDims(Rotate90(g), n - 1);
    }
  }

  /** Two quarter turns: the pixel at (i, j) moves to (H - 1 - i, W - 1 - j). */
  lemma {:induction false} HalfTurnAt(g: Grid, i: nat, j: nat)
    requires IsImage(g) && i < |g| && j < Width(g)
    ensures RotateBy(g, 2)[|g| - 1 - i][Width(g) - 1 - j] == g[i][j]
  {
    var r := Rotate90(g);
    assert RotateBy(g, 2) == Rotate90(r) by {
      assert RotateBy(g, 2) == RotateBy(r, 1) == RotateBy(Rotate90(r), 0);
    }
    Rotate90At(g, i, j);
    Rotate90At(r, j, |g| - 1 - i);
  }

  /** Turning `a` and then `b` quarter turns is turning `a + b`. */
  lemma {:induction false} RotateByAdd(g: Grid, a: nat, b: nat)
    requires IsImage(g)
    ensures RotateBy(RotateBy(g, a), b) == RotateBy(g, a + b)
    decreases a
  {
    if a > 0 {
      RotateByAdd(Rotate90(g), a - 1, b);
    }
  }

  /** A quarter turn only moves pixels, so a buffer whose pixels all have a
    * clear top byte keeps that property. */
  lemma Rotate90InRange(g: Grid)
    requires IsImage(g) && InRange(g)
    ensures InRange(Rotate90(g))
  {
    var r := Rotate90(g);
    forall j, k | 0 <= j < |r| && 0 <= k < |r[j]|
      ensures IsRgb24(r[j][k])
    {
      assert r[j][k] == g[|g| - 1 - k][j];
    }
  }

  /** Any number of quarter turns keeps every pixel in range, so `rotate`
    * may be followed by `downSample`. */
  lemma {:induction false} RotateByInRange(g: Grid, n: nat)
    requires IsImage(g) && InRange(g)
    ensures InRange(RotateBy(g, n))
    decreases n
  {
    if n > 0 {
      Rotate90InRange(g);
      RotateByInRange(Rotate90(g), n - 1);
    }
  }

  /** Four quarter turns restore the buffer, dimensions and pixels. */
  lemma {:induction false} FullTurn(g: Grid)
    requires IsImage(g)
    ensures RotateBy(g, 4) == g
  {
    var h, w := |g|, Width(g);
    var half := RotateBy(g, 2);
    RotateByAdd(g, 2, 2);
    var full := RotateBy(half, 2);
    assert |half| == h && Width(half) == w;
    forall i, j | 0 <= i < h && 0 <= j < w
      ensures full[i][j] == g[i][j]
    {
      HalfTurnAt(g, i, j);
      HalfTurnAt(half, h - 1 - i, w - 1 - j);
    }
    forall i | 0 <= i < h
      ensures full[i] == g[i]
    {
      assert |full[i]| == w == |g[i]|;
    }
  }

  /** Quarter turns count modulo four. */
  lemma {:induction false} RotateByModFour(g: Grid, n: nat)
    requires IsImage(g)
    ensures RotateBy(g, n) == RotateBy(g, n % 4)
    decreases n
  {
    if n >= 4 {
      FourMore(g, n - 4);
      RotateByModFour(g, n - 4);
    }
  }

  lemma FourMore(g: Grid, n: nat)
    requires IsImage(g)
    ensures RotateBy(g, n + 4) == RotateBy(g, n) && (n + 4) % 4 == n % 4
  {
    RotateByAdd(g, 4, n);
    FullTurn(g);
  }

  const NINETY_DEGREE: int := 90
  const THREE_HUNDRED_SIXTY_DEGREE: int := 360

  /** The number of quarter turns `rotate(degree)` performs: none for a
    * negative degree or one that is not a multiple of 90, otherwise the
    * degree modulo 360 divided by 90. */
  function RotationSteps(degree: int): (n: nat)
    ensures n < 4
  {
    if degree < 0 || degree % NINETY_DEGREE != 0 then 0
    else (degree % THREE_HUNDRED_SIXTY_DEGREE) / NINETY_DEGREE
  }

  /** `rotate` leaves the buffer alone exactly for a negative degree, a
    * degree not divisible by 90 and a multiple of 360. */
  lemma {:induction false} RotationStepsNone(degree: int)
    ensures RotationSteps(degree) == 0 <==>
      (degree < 0 || degree % NINETY_DEGREE != 0 || degree % THREE_HUNDRED_SIXTY_DEGREE == 0)
  {
    if degree >= 0 && degree % NINETY_DEGREE == 0 {
      DegreeQuarter(degree);
    }
  }

  /** A non-negative multiple of 90 turns `degree / 90` quarter turns,
    * modulo four. */
  lemma {:induction false} RotationStepsQuarters(degree: int)
    requires degree >= 0 && degree % NINETY_DEGREE == 0
    ensures RotationSteps(degree) == (degree / NINETY_DEGREE) % 4
  {
    DegreeQuarter(degree);
  }

  /** For a non-negative multiple of 90 the remainder modulo 360 is
    * 90 times the quarter count modulo four. */
  lemma DegreeQuarter(degree: int)
    requires degree >= 0 && degree % 90 == 0
    ensures degree % 360 == 90 * ((degree / 90) % 4)
    ensures (degree % 360) / 90 == (degree / 90) % 4
  {
    var k := degree / 90;
    var m, t := k / 4, k % 4;
    assert degree == 90 * k;
    assert degree == 360 * m + 90 * t;
    DivMulAdd(m, 90 * t, 360);
    DivMulAdd(t, 0, 90);
  }

  /** Rotating by `degree` is rotating by `degree - 90` after one quarter
    * turn, for the reduced degrees 180 and 270 the recursion of `rotate`
    * goes through. */
  lemma {:induction false} RotationStepsRecurse(degree: int)
    requires degree >= 0 && degree % NINETY_DEGREE == 0
    requires degree % THREE_HUNDRED_SIXTY_DEGREE > NINETY_DEGREE
    ensures RotationSteps(degree) == 1 + RotationSteps(degree % THREE_HUNDRED_SIXTY_DEGREE - NINETY_DEGREE)
  {
    DegreeQuarter(degree);
    var d := degree % 360;
    assert d == 180 || d == 270;
  }

  /** The turns `rotate(degree)` makes, for a degree it does not reject: one
    * quarter turn, then either nothing (a reduced degree of 90) or the turns
    * of the recursive call on the reduced degree minus 90. */
  lemma {:induction false} RotateByRecurse(g: Grid, degree: int)
    requires IsImage(g) && degree >= 0 && degree % NINETY_DEGREE == 0
    requires degree % THREE_HUNDRED_SIXTY_DEGREE != 0
    ensures degree % THREE_HUNDRED_SIXTY_DEGREE == NINETY_DEGREE ==>
      RotateBy(g, RotationSteps(degree)) == Rotate90(g)
    ensures degree % THREE_HUNDRED_SIXTY_DEGREE > NINETY_DEGREE ==>
      RotateBy(g, RotationSteps(degree)) ==
      RotateBy(Rotate90(g), RotationSteps(degree % THREE_HUNDRED_SIXTY_DEGREE - NINETY_DEGREE))
  {
    DegreeQuarter(degree);
    if degree % THREE_HUNDRED_SIXTY_DEGREE > NINETY_DEGREE {
      RotationStepsRecurse(degree);
    } else {
      assert RotationSteps(degree) == 1;
      assert RotateBy(g, 1) == RotateBy(Rotate90(g), 0);
    }
  }

  // ---------------------------------------------------------------------
  // downSample

  datatype Channel = Red | Green | Blue

  /** A channel of a pixel as `downSample` splits it, by division. */
  function ChannelOf(rgb: Int32, c: Channel): int
  {
    match c
    case Red => DivRed(rgb)
    case Green => DivGreen(rgb)
    case Blue => DivBlue(rgb)
  }

  /** The mask-based unpacking of the same channel. */
  function UnpackChannel(rgb: Int32, c: Channel): int
  {
    match c
    case Red => UnpackRedByte(rgb)
    case Green => UnpackGreenByte(rgb)
    case Blue => UnpackBlueByte(rgb)
  }

  lemma ChannelIsByte(rgb: Int32, c: Channel)
    requires IsRgb24(rgb)
    ensures ChannelOf(rgb, c) == UnpackChannel(rgb, c) && IsByte(ChannelOf(rgb, c))
  {
    DivisionSplitMatchesMasks(rgb);
  }

  /** Sum of channel `c` over `g[row][col .. col + n)`, added left to right. */
  function RowSum(g: Grid, c: Channel, row: nat, col: nat, n: nat): int
    requires row < |g| && col + n <= |g[row]|
    decreases n
  {
    if n == 0 then 0 else RowSum(g, c, row, col, n - 1) + ChannelOf(g[row][col + n - 1], c)
  }

  /** Sum of channel `c` over the `m x n` block at (row, col), added row by row. */
  function BlockSum(g: Grid, c: Channel, row: nat, col: nat, m: nat, n: nat): int
    requires IsImage(g) && row + m <= |g| && col + n <= Width(g)
    decreases m
  {
    if m == 0 then 0 else BlockSum(g, c, row, col, m - 1, n) + RowSum(g, c, row + m - 1, col, n)
  }

  /** One more row of a block adds that row's sum, for every channel. */
  lemma BlockSumNextRow(g: Grid, row: nat, col: nat, m: nat, n: nat)
    requires IsImage(g) && row + m < |g| && col + n <= Width(g)
    ensures forall c :: BlockSum(g, c, row, col, m + 1, n) == BlockSum(g, c, row, col, m, n) + RowSum(g, c, row + m, col, n)
  {
  }

  lemma {:induction false} RowSumBounds(g: Grid, c: Channel, row: nat, col: nat, n: nat)
    requires InRange(g) && row < |g| && col + n <= |g[row]|
    ensures 0 <= RowSum(g, c, row, col, n) <= 0xff * n
    decreases n
  {
    if n > 0 {
      RowSumBounds(g, c, row, col, n - 1);
      ChannelIsByte(g[row][col + n - 1], c);
    }
  }

  lemma {:induction false} BlockSumBounds(g: Grid, c: Channel, row: nat, col: nat, m: nat, n: nat)
    requires IsImage(g) && InRange(g) && row + m <= |g| && col + n <= Width(g)
    ensures 0 <= BlockSum(g, c, row, col, m, n) <= 0xff * (m * n)
    decreases m
  {
    if m > 0 {
      BlockSumBounds(g, c, row, col, m - 1, n);
      RowSumBounds(g, c, row + m - 1, col, n);
      assert (m - 1) * n + n == m * n;
    }
  }

  /** A truncated mean of values that are bytes is a byte. */
  lemma MeanIsByte(sum: int, count: int)
    requires count >= 1 && 0 <= sum <= 0xff * count
    ensures IsByte(JavaDiv(sum, count)) && JavaDiv(sum, count) == sum / count
  {
    var q := JavaDiv(sum, count);
    if q > 0xff {
      MulMono(0x100, q, count);
      assert false;
    }
  }

  /** Channel `c` summed over the `hs x ws` block at (row, col) and divided,
    * truncating, by the block's pixel count. */
  function ChannelMean(g: Grid, c: Channel, row: nat, col: nat, hs: nat, ws: nat): (mean: int)
    requires IsImage(g) && InRange(g) && hs >= 1 && ws >= 1
    requires row + hs <= |g| && col + ws <= Width(g)
    ensures IsByte(mean) && mean == BlockSum(g, c, row, col, hs, ws) / (hs * ws)
  {
    var sum := BlockSum(g, c, row, col, hs, ws);
    BlockSumBounds(g, c, row, col, hs, ws);
    MulMono(1, hs, ws);
    MeanIsByte(sum, hs * ws);
    JavaDiv(sum, hs * ws)
  }

  /** The pixel `downSample` paints for the `hs x ws` block at (row, col):
    * the three channel means recombined as
    * `red * RED_DIVISOR + green * GREEN_DIVISOR + blue`. */
  function BlockAverage(g: Grid, row: nat, col: nat, hs: nat, ws: nat): (rgb: Int32)
    requires IsImage(g) && InRange(g) && hs >= 1 && ws >= 1
    requires row + hs <= |g| && col + ws <= Width(g)
  {
    var red := ChannelMean(g, Red, row, col, hs, ws);
    var green := ChannelMean(g, Green, row, col, hs, ws);
    var blue := ChannelMean(g, Blue, row, col, hs, ws);
    red * RED_DIVISOR + green * GREEN_DIVISOR + blue
  }

  /** The scales `downSample` accepts: both at least 1, neither above its
    * dimension, and each dividing its dimension exactly. */
  predicate ValidScales(h: int, w: int, heightScale: int, widthScale: int)
  {
    !(heightScale < 1 || widthScale < 1 || heightScale > h || widthScale > w
      || h % heightScale != 0 || w % widthScale != 0)
  }

  /** The buffer `downSample` builds: one averaged pixel per block. */
  function DownSampled(g: Grid, heightScale: int, widthScale: int): (r: Grid)
    requires IsImage(g) && InRange(g) && ValidScales(|g|, Width(g), heightScale, widthScale)
    ensures IsImage(r) && |r| == |g| / heightScale && Width(r) == Width(g) / widthScale
  {
    var h, w := |g| / heightScale, Width(g) / widthScale;
    DivMulAdd(1, 0, heightScale);
    DivMulAdd(1, 0, widthScale);
    MulMono(1, |g| / heightScale, heightScale);
    seq(h, br requires 0 <= br < h =>
      seq(w, bc requires 0 <= bc < w => ScaledPixel(g, heightScale, widthScale, br, bc)))
  }

  /** The output pixel of `downSample` at (br, bc): the average of the block
    * whose top-left corner is (br * heightScale, bc * widthScale). */
  function ScaledPixel(g: Grid, heightScale: int, widthScale: int, br: nat, bc: nat): Int32
    requires IsImage(g) && InRange(g) && ValidScales(|g|, Width(g), heightScale, widthScale)
    requires br < |g| / heightScale && bc < Width(g) / widthScale
  {
    BlockInside(br, heightScale, |g|);
    BlockInside(bc, widthScale, Width(g));
    BlockAverage(g, br * heightScale, bc * widthScale, heightScale, widthScale)
  }

  /** Every output pixel of `downSample` packs, channel by channel, the
    * truncated mean of that channel over its block, so each channel is a
    * byte and the output again has a clear top byte. */
  lemma {:induction false} DownSampledAt(g: Grid, heightScale: int, widthScale: int, br: nat, bc: nat)
    requires IsImage(g) && InRange(g) && ValidScales(|g|, Width(g), heightScale, widthScale)
    requires br < |g| / heightScale && bc < Width(g) / widthScale
    ensures br * heightScale + heightScale <= |g| && bc * widthScale + widthScale <= Width(g)
    ensures forall c :: IsByte(UnpackChannel(DownSampled(g, heightScale, widthScale)[br][bc], c))
    ensures forall c :: (UnpackChannel(DownSampled(g, heightScale, widthScale)[br][bc], c) ==
      BlockSum(g, c, br * heightScale, bc * widthScale, heightScale, widthScale) / (heightScale * widthScale))
    ensures IsRgb24(DownSampled(g, heightScale, widthScale)[br][bc])
  {
    BlockInside(br, heightScale, |g|);
    BlockInside(bc, widthScale, Width(g));
    var row, col := br * heightScale, bc * widthScale;
    var red := ChannelMean(g, Red, row, col, heightScale, widthScale);
    var green := ChannelMean(g, Green, row, col, heightScale, widthScale);
    var blue := ChannelMean(g, Blue, row, col, heightScale, widthScale);
    assert DownSampled(g, heightScale, widthScale)[br][bc] == PackInt(red, green, blue);
    UnpackPackInt(red, green, blue);
  }

  /** The output of `downSample` again has a clear top byte everywhere. */
  lemma DownSampledInRange(g: Grid, heightScale: int, widthScale: int)
    requires IsImage(g) && InRange(g) && ValidScales(|g|, Width(g), heightScale, widthScale)
    ensures InRange(DownSampled(g, heightScale, widthScale))
  {
    var r := DownSampled(g, heightScale, widthScale);
    forall i, j | 0 <= i < |r| && 0 <= j < |r[i]|
      ensures IsRgb24(r[i][j])
    {
      DownSampledAt(g, heightScale, widthScale, i, j);
    }
  }

  /** `downSample(1, 1)` changes nothing. */
  lemma {:induction false} DownSampleByOne(g: Grid)
    requires IsImage(g) && InRange(g)
    ensures ValidScales(|g|, Width(g), 1, 1)
    ensures DownSampled(g, 1, 1) == g
  {
    var r := DownSampled(g, 1, 1);
    forall i, j | 0 <= i < |g| && 0 <= j < Width(g)
      ensures r[i][j] == g[i][j]
    {
      ScaledPixelByOne(g, i, j);
    }
    SameCells(r, g, |g|, Width(g));
  }

  /** A 1 x 1 block averages to its own pixel. */
  lemma {:induction false} ScaledPixelByOne(g: Grid, i: nat, j: nat)
    requires IsImage(g) && InRange(g) && i < |g| && j < Width(g)
    requires ValidScales(|g|, Width(g), 1, 1)
    ensures ScaledPixel(g, 1, 1, i, j) == g[i][j]
  {
    var p := g[i][j];
    assert BlockSum(g, Red, i, j, 1, 1) == DivRed(p);
    assert BlockSum(g, Green, i, j, 1, 1) == DivGreen(p);
    assert BlockSum(g, Blue, i, j, 1, 1) == DivBlue(p);
    ChannelIsByte(p, Red);
    ChannelIsByte(p, Green);
    ChannelIsByte(p, Blue);
    DivisionSplitRecombines(p);
  }

  lemma {:induction false} RowSumUniform(g: Grid, p: Int32, c: Channel, row: nat, col: nat, n: nat)
    requires row < |g| && col + n <= |g[row]|
    requires forall j | col <= j < col + n :: g[row][j] == p
    ensures RowSum(g, c, row, col, n) == n * ChannelOf(p, c)
    decreases n
  {
    if n > 0 {
      var x := ChannelOf(p, c);
      assert RowSum(g, c, row, col, n - 1) == (n - 1) * x by {
        RowSumUniform(g, p, c, row, col, n - 1);
      }
      assert g[row][col + n - 1] == p;
      assert (n - 1) * x + x == n * x;
    }
  }

  lemma {:induction false} BlockSumUniform(g: Grid, p: Int32, c: Channel, row: nat, col: nat, m: nat, n: nat)
    requires IsImage(g) && row + m <= |g| && col + n <= Width(g)
    requires forall i, j | 0 <= i < |g| && 0 <= j < |g[i]| :: g[i][j] == p
    ensures BlockSum(g, c, row, col, m, n) == m * (n * ChannelOf(p, c))
    decreases m
  {
    if m > 0 {
      var k := n * ChannelOf(p, c);
      assert BlockSum(g, c, row, col, m - 1, n) == (m - 1) * k by {
        BlockSumUniform(g, p, c, row, col, m - 1, n);
      }
      assert RowSum(g, c, row + m - 1, col, n) == k by {
        RowSumUniform(g, p, c, row + m - 1, col, n);
      }
      assert (m - 1) * k + k == m * k;
    }
  }

  /** Over a block of one colour every channel mean is that colour's channel. */
  lemma {:induction false} ChannelMeanUniform(g: Grid, p: Int32, c: Channel, row: nat, col: nat, hs: nat, ws: nat)
    requires IsImage(g) && InRange(g) && hs >= 1 && ws >= 1
    requires row + hs <= |g| && col + ws <= Width(g)
    requires forall i, j | 0 <= i < |g| && 0 <= j < |g[i]| :: g[i][j] == p
    ensures ChannelMean(g, c, row, col, hs, ws) == ChannelOf(p, c)
  {
    var x, n := ChannelOf(p, c), hs * ws;
    assert BlockSum(g, c, row, col, hs, ws) == x * n by {
      BlockSumUniform(g, p, c, row, col, hs, ws);
      MulAssoc(hs, ws, x);
    }
    DivMulAdd(x, 0, n);
  }

  /** A buffer of one colour down-samples to a buffer of that same colour. */
  lemma {:induction false} DownSampleUniform(g: Grid, p: Int32, heightScale: int, widthScale: int)
    requires IsImage(g) && InRange(g) && ValidScales(|g|, Width(g), heightScale, widthScale)
    requires forall i, j | 0 <= i < |g| && 0 <= j < |g[i]| :: g[i][j] == p
    ensures forall i, j | 0 <= i < |DownSampled(g, heightScale, widthScale)| &&
      0 <= j < Width(DownSampled(g, heightScale, widthScale)) :: DownSampled(g, heightScale, widthScale)[i][j] == p
  {
    var r := DownSampled(g, heightScale, widthScale);
    forall i, j | 0 <= i < |r| && 0 <= j < Width(r)
      ensures r[i][j] == p
    {
      BlockInside(i, heightScale, |g|);
      BlockInside(j, widthScale, Width(g));
      var row, col := i * heightScale, j * widthScale;
      assert r[i][j] == BlockAverage(g, row, col, heightScale, widthScale);
      ChannelMeanUniform(g, p, Red, row, col, heightScale, widthScale);
      ChannelMeanUniform(g, p, Green, row, col, heightScale, widthScale);
      ChannelMeanUniform(g, p, Blue, row, col, heightScale, widthScale);
      DivisionSplitRecombines(p);
    }
  }

  // ---------------------------------------------------------------------
  // patch

  /** A patch buffer: at least one row (the editor reads row 0), rectangular,
    * possibly with no columns. */
  predicate IsPatch(p: Grid)
  {
    |p| >= 1 && IsRect(p, |p|, |p[0]|)
  }

  /** The placement checks of `patch`: the start is not negative and not past
    * the buffer, and the patch's bottom-right corner is inside the buffer. */
  predicate PatchFits(h: int, w: int, startRow: int, startColumn: int, ph: int, pw: int)
  {
    !(startRow < 0 || startColumn < 0 || startRow > h || startColumn > w) &&
    !(startRow + ph > h || startColumn + pw > w)
  }

  /** The buffer after a patch: inside the patch rectangle every pixel that is
    * not the transparency key is the patch's, everything else is the
    * buffer's own. */
  function Patched(g: Grid, startRow: int, startColumn: int, p: Grid, keyRed: int, keyGreen: int, keyBlue: int): (r: Grid)
    requires IsImage(g) && IsPatch(p) && PatchFits(|g|, Width(g), startRow, startColumn, |p|, Width(p))
    ensures IsImage(r) && |r| == |g| && Width(r) == Width(g)
  {
    seq(|g|, i requires 0 <= i < |g| =>
      seq(Width(g), j requires 0 <= j < Width(g) =>
        if startRow <= i < startRow + |p| && startColumn <= j < startColumn + Width(p)
           && !IsTransparent(p[i - startRow][j - startColumn], keyRed, keyGreen, keyBlue)
        then p[i - startRow][j - startColumn]
        else g[i][j]))
  }

  /** Non-transparent pixels among the first `n` of a row. */
  function RowOpaque(row: seq<Int32>, keyRed: int, keyGreen: int, keyBlue: int, n: nat): nat
    requires n <= |row|
    decreases n
  {
    if n == 0 then 0
    else
      var last := if IsTransparent(row[n - 1], keyRed, keyGreen, keyBlue) then 0 else 1;
      RowOpaque(row, keyRed, keyGreen, keyBlue, n - 1) + last
  }

  /** Non-transparent pixels in the first `m` rows of a patch. */
  function GridOpaque(p: Grid, keyRed: int, keyGreen: int, keyBlue: int, m: nat): nat
    requires IsPatch(p) && m <= |p|
    decreases m
  {
    if m == 0 then 0
    else GridOpaque(p, keyRed, keyGreen, keyBlue, m - 1) + RowOpaque(p[m - 1], keyRed, keyGreen, keyBlue, Width(p))
  }

  /** The number of patch pixels whose channels differ from the key. */
  function OpaqueCount(p: Grid, keyRed: int, keyGreen: int, keyBlue: int): nat
    requires IsPatch(p)
  {
    GridOpaque(p, keyRed, keyGreen, keyBlue, |p|)
  }

  lemma {:induction false} RowOpaqueBounds(row: seq<Int32>, keyRed: int, keyGreen: int, keyBlue: int, n: nat)
    requires n <= |row|
    ensures RowOpaque(row, keyRed, keyGreen, keyBlue, n) <= n
    ensures RowOpaque(row, keyRed, keyGreen, keyBlue, n) == 0 <==>
      forall j | 0 <= j < n :: IsTransparent(row[j], keyRed, keyGreen, keyBlue)
    ensures RowOpaque(row, keyRed, keyGreen, keyBlue, n) == n <==>
      forall j | 0 <= j < n :: !IsTransparent(row[j], keyRed, keyGreen, keyBlue)
    decreases n
  {
    if n > 0 {
      RowOpaqueBounds(row, keyRed, keyGreen, keyBlue, n - 1);
    }
  }

  lemma {:induction false} GridOpaqueBounds(p: Grid, keyRed: int, keyGreen: int, keyBlue: int, m: nat)
    requires IsPatch(p) && m <= |p|
    ensures GridOpaque(p, keyRed, keyGreen, keyBlue, m) <= m * Width(p)
    ensures GridOpaque(p, keyRed, keyGreen, keyBlue, m) == 0 <==>
      forall i, j | 0 <= i < m && 0 <= j < Width(p) :: IsTransparent(p[i][j], keyRed, keyGreen, keyBlue)
    ensures GridOpaque(p, keyRed, keyGreen, keyBlue, m) == m * Width(p) <==>
      forall i, j | 0 <= i < m && 0 <= j < Width(p) :: !IsTransparent(p[i][j], keyRed, keyGreen, keyBlue)
    decreases m
  {
    if m > 0 {
      var w := Width(p);
      GridOpaqueBounds(p, keyRed, keyGreen, keyBlue, m - 1);
      RowOpaqueBounds(p[m - 1], keyRed, keyGreen, keyBlue, w);
      assert (m - 1) * w + w == m * w;
    }
  }

  /** The count `patch` returns lies between 0 and the patch's pixel count; it
    * is 0 exactly when every patch pixel is the key, and the full pixel count
    * exactly when none is. */
  lemma {:induction false} OpaqueCountBounds(p: Grid, keyRed: int, keyGreen: int, keyBlue: int)
    requires IsPatch(p)
    ensures OpaqueCount(p, keyRed, keyGreen, keyBlue) <= |p| * Width(p)
    ensures OpaqueCount(p, keyRed, keyGreen, keyBlue) == 0 <==>
      forall i, j | 0 <= i < |p| && 0 <= j < Width(p) :: IsTransparent(p[i][j], keyRed, keyGreen, keyBlue)
    ensures OpaqueCount(p, keyRed, keyGreen, keyBlue) == |p| * Width(p) <==>
      forall i, j | 0 <= i < |p| && 0 <= j < Width(p) :: !IsTransparent(p[i][j], keyRed, keyGreen, keyBlue)
  {
    GridOpaqueBounds(p, keyRed, keyGreen, keyBlue, |p|);
  }

  /** A patch made only of the key writes nothing and counts nothing. */
  lemma {:induction false} PatchAllTransparent(g: Grid, startRow: int, startColumn: int, p: Grid, keyRed: int, keyGreen: int, keyBlue: int)
    requires IsImage(g) && IsPatch(p) && PatchFits(|g|, Width(g), startRow, startColumn, |p|, Width(p))
    requires forall i, j | 0 <= i < |p| && 0 <= j < Width(p) :: IsTransparent(p[i][j], keyRed, keyGreen, keyBlue)
    ensures Patched(g, startRow, startColumn, p, keyRed, keyGreen, keyBlue) == g
    ensures OpaqueCount(p, keyRed, keyGreen, keyBlue) == 0
  {
    OpaqueCountBounds(p, keyRed, keyGreen, keyBlue);
    var r := Patched(g, startRow, startColumn, p, keyRed, keyGreen, keyBlue);
    forall i | 0 <= i < |g|
      ensures r[i] == g[i]
    {
      forall j | 0 <= j < Width(g)
        ensures r[i][j] == g[i][j]
      {
        if startRow <= i < startRow + |p| && startColumn <= j < startColumn + Width(p) {
          assert IsTransparent(p[i - startRow][j - startColumn], keyRed, keyGreen, keyBlue);
        }
      }
    }
  }

  /** A patch without the key overwrites exactly its rectangle and counts
    * all of its pixels. */
  lemma {:induction false} PatchNoneTransparent(g: Grid, startRow: int, startColumn: int, p: Grid, keyRed: int, keyGreen: int, keyBlue: int)
    requires IsImage(g) && IsPatch(p) && PatchFits(|g|, Width(g), startRow, startColumn, |p|, Width(p))
    requires forall i, j | 0 <= i < |p| && 0 <= j < Width(p) :: !IsTransparent(p[i][j], keyRed, keyGreen, keyBlue)
    ensures OpaqueCount(p, keyRed, keyGreen, keyBlue) == |p| * Width(p)
    ensures forall i, j | 0 <= i < |p| && 0 <= j < Width(p) ::
      Patched(g, startRow, startColumn, p, keyRed, keyGreen, keyBlue)[startRow + i][startColumn + j] == p[i][j]
    ensures forall i, j | 0 <= i < |g| && 0 <= j < Width(g) &&
      !(startRow <= i < startRow + |p| && startColumn <= j < startColumn + Width(p)) ::
      Patched(g, startRow, startColumn, p, keyRed, keyGreen, keyBlue)[i][j] == g[i][j]
  {
    OpaqueCountBounds(p, keyRed, keyGreen, keyBlue);
  }

  /** Patching buffers whose pixels have a clear top byte keeps it so. */
  lemma PatchedInRange(g: Grid, startRow: int, startColumn: int, p: Grid, keyRed: int, keyGreen: int, keyBlue: int)
    requires IsImage(g) && IsPatch(p) && PatchFits(|g|, Width(g), startRow, startColumn, |p|, Width(p))
    requires InRange(g) && InRange(p)
    ensures InRange(Patched(g, startRow, startColumn, p, keyRed, keyGreen, keyBlue))
  {
  }

  /** Patching again with the same patch at the same place changes nothing
    * more. */
  lemma {:induction false} PatchIdempotent(g: Grid, startRow: int, startColumn: int, p: Grid, keyRed: int, keyGreen: int, keyBlue: int)
    requires IsImage(g) && IsPatch(p) && PatchFits(|g|, Width(g), startRow, startColumn, |p|, Width(p))
    ensures var once := Patched(g, startRow, startColumn, p, keyRed, keyGreen, keyBlue);
      Patched(once, startRow, startColumn, p, keyRed, keyGreen, keyBlue) == once
  {
    var once := Patched(g, startRow, startColumn, p, keyRed, keyGreen, keyBlue);
    var twice := Patched(once, startRow, startColumn, p, keyRed, keyGreen, keyBlue);
    forall i | 0 <= i < |g|
      ensures twice[i] == once[i]
    {
      assert forall j | 0 <= j < Width(g) :: twice[i][j] == once[i][j];
    }
  }

  /** With pixels that have a clear top byte and a key of three bytes, a
    * patch pixel is skipped exactly when it is the packed key: inside the
    * rectangle the result is the patch pixel unless that pixel equals
    * `PackInt(keyRed, keyGreen, keyBlue)`, in which case it is the buffer's. */
  lemma {:induction false} PatchedByPackedKey(g: Grid, startRow: int, startColumn: int, p: Grid, keyRed: int, keyGreen: int, keyBlue: int)
    requires IsImage(g) && IsPatch(p) && PatchFits(|g|, Width(g), startRow, startColumn, |p|, Width(p))
    requires InRange(p) && IsByte(keyRed) && IsByte(keyGreen) && IsByte(keyBlue)
    ensures forall i, j | 0 <= i < |p| && 0 <= j < Width(p) ::
      Patched(g, startRow, startColumn, p, keyRed, keyGreen, keyBlue)[startRow + i][startColumn + j] ==
        if p[i][j] == PackInt(keyRed, keyGreen, keyBlue) then g[startRow + i][startColumn + j] else p[i][j]
  {
    forall i, j | 0 <= i < |p| && 0 <= j < Width(p)
      ensures IsTransparent(p[i][j], keyRed, keyGreen, keyBlue) <==> p[i][j] == PackInt(keyRed, keyGreen, keyBlue)
    {
      TransparentIffPackedKey(p[i][j], keyRed, keyGreen, keyBlue);
    }
  }
}
