/**
  * The editor itself: its buffer `image`, row-major with one packed RGB
  * `int` per cell, is the one field of a class, and `rotate`, `downSample`
  * and `patch` are methods that replace it (the first two) or update it in
  * place (the last).  Each method is proved to leave the buffer equal to a
  * function in `Grids` of the buffer it started from.
  */
module Editor {
  import opened Pixels
  import opened Grids

  /** The values of a two-dimensional array, row by row. */
  ghost function GridOf(a: array2<Int32>): (g: Grid)
    reads a
    ensures IsRect(g, a.Length0, a.Length1)
    ensures forall i, j | 0 <= i < a.Length0 && 0 <= j < a.Length1 :: g[i][j] == a[i, j]
  {
    seq(a.Length0, i requires 0 <= i < a.Length0 reads a =>
      seq(a.Length1, j requires 0 <= j < a.Length1 reads a => a[i, j]))
  }

  class ImageEditor {
    /** The buffer: `image[row, column]`. */
    var image: array2<Int32>

    /** Both dimensions are positive, as they are for every decoded image;
      * every transform keeps it so. */
    ghost predicate Valid()
      reads this
    {
      image.Length0 >= 1 && image.Length1 >= 1
    }

    /** The buffer as a value. */
    ghost function Contents(): (g: Grid)
      reads this, image
      ensures IsRect(g, image.Length0, image.Length1)
      ensures Valid() ==> IsImage(g) && Width(g) == image.Length1
    {
      GridOf(image)
    }

    /** Starts a session on a decoded buffer, as `image = open(pathname)` does. */
    constructor (pixels: array2<Int32>)
      requires pixels.Length0 >= 1 && pixels.Length1 >= 1
      ensures Valid() && image == pixels
    {
      image := pixels;
    }

    /** One clockwise quarter turn, the body of `rotate`: back the buffer up,
      * then remap the copy into a fresh W x H buffer. */
    method TurnQuarter()
      requires Valid()
      modifies this
      ensures Valid() && fresh(image)
      ensures Contents() == Rotate90(old(Contents()))
    {
      var oldImage := CopyOf(image);
      image := QuarterTurned(oldImage);
    }

    /** `rotate(degree)`: a negative degree or one that is not a multiple of
      * 90 changes nothing; otherwise the degree is reduced modulo 360, 0
      * changes nothing, and each further 90 is one more quarter turn, taken
      * by the recursion on `degree - 90`. */
    method Rotate(degree: int)
      requires Valid()
      modifies this
      ensures Valid()
      ensures Contents() == RotateBy(old(Contents()), RotationSteps(degree))
      ensures InRange(old(Contents())) ==> InRange(Contents())
      ensures RotationSteps(degree) == 0 ==> image == old(image)
      ensures RotationSteps(degree) != 0 ==> fresh(image)
      decreases degree
    {
      ghost var before := Contents();
      if degree < 0 || degree % NINETY_DEGREE != 0 {
        return;
      }
      var reduced := degree % THREE_HUNDRED_SIXTY_DEGREE;
      if reduced == 0 {
        return;
      }
      RotateByRecurse(before, degree);
      if InRange(before) {
        RotateByInRange(before, RotationSteps(degree));
      }
      TurnQuarter();
      if reduced > NINETY_DEGREE {
        Rotate(reduced - NINETY_DEGREE);
      }
    }

    /** `downSample(heightScale, widthScale)`: scales it rejects change nothing;
      * otherwise every `heightScale x widthScale` block is replaced by one
      * pixel holding the truncated mean of each channel over the block. */
    method DownSample(heightScale: int, widthScale: int)
      requires Valid() && InRange(Contents())
      modifies this
      ensures Valid() && InRange(Contents())
      ensures !ValidScales(old(image.Length0), old(image.Length1), heightScale, widthScale) ==>
        image == old(image)
      ensures ValidScales(old(image.Length0), old(image.Length1), heightScale, widthScale) ==>
        fresh(image) && Contents() == DownSampled(old(Contents()), heightScale, widthScale)
    {
      var source := image;
      var h, w := source.Length0, source.Length1;
      if heightScale < 1 || widthScale < 1 || heightScale > h || widthScale > w
         || h % heightScale != 0 || w % widthScale != 0 {
        return;
      }
      ghost var g := GridOf(source);
      var newHeight, newWidth := h / heightScale, w / widthScale;
      var scaledImage := new Int32[newHeight, newWidth];
      var scaledRow, newRow := 0, 0;
      while scaledRow < h
        invariant 0 <= newRow <= newHeight && scaledRow == newRow * heightScale
        invariant forall a, b | 0 <= a < newRow && 0 <= b < newWidth ::
          scaledImage[a, b] == ScaledPixel(g, heightScale, widthScale, a, b)
        decreases h - scaledRow
      {
        BlockStart(newRow, heightScale, h);
        ScaleRow(source, scaledImage, g, heightScale, widthScale, scaledRow, newRow);
        assert (newRow + 1) * heightScale == scaledRow + heightScale;
        scaledRow, newRow := scaledRow + heightScale, newRow + 1;
      }
      BlockCount(newRow, heightScale, h);
      image := scaledImage;

      SameCells(GridOf(scaledImage), DownSampled(g, heightScale, widthScale), newHeight, newWidth);
      DownSampledInRange(g, heightScale, widthScale);
    }

    /** `patch(...)`: a placement that does not fit writes nothing and returns
      * 0; otherwise every patch pixel whose channels differ from the
      * transparency key is copied to (startRow + pr, startColumn + pc), and
      * the number of pixels copied is returned.  The patch buffer may be the
      * buffer itself. */
    method Patch(startRow: int, startColumn: int, patchImage: array2<Int32>,
                 transparentRed: int, transparentGreen: int, transparentBlue: int) returns (count: int)
      requires Valid() && patchImage.Length0 >= 1
      modifies image
      ensures Valid()
      ensures !PatchFits(image.Length0, image.Length1, startRow, startColumn, patchImage.Length0, patchImage.Length1) ==>
        count == 0 && Contents() == old(Contents())
      ensures PatchFits(image.Length0, image.Length1, startRow, startColumn, patchImage.Length0, patchImage.Length1) ==>
        count == OpaqueCount(old(GridOf(patchImage)), transparentRed, transparentGreen, transparentBlue) &&
        Contents() == Patched(old(Contents()), startRow, startColumn, old(GridOf(patchImage)),
                            transparentRed, transparentGreen, transparentBlue)
    {
      var target := image;
      var pHeight, pWidth := patchImage.Length0, patchImage.Length1;
      var h, w := target.Length0, target.Length1;
      if startRow < 0 || startColumn < 0 || startRow > h || startColumn > w {
        return 0;
      }
      if startRow + pHeight > h || startColumn + pWidth > w {
        return 0;
      }
      ghost var g := GridOf(target);
      ghost var p := GridOf(patchImage);
      StagedDone(g, p, startRow, startColumn, transparentRed, transparentGreen, transparentBlue);
      count := 0;
      for pr := 0 to pHeight
        invariant count == GridOpaque(p, transparentRed, transparentGreen, transparentBlue, pr)
        invariant forall a, b | 0 <= a < pHeight && 0 <= b < pWidth :: patchImage[a, b] == p[a][b]
        invariant forall r, c | 0 <= r < h && 0 <= c < w ::
          target[r, c] == Staged(g, p, startRow, startColumn, transparentRed, transparentGreen, transparentBlue, pr, 0, r, c)
      {
        count := PatchRow(target, patchImage, g, p, startRow, startColumn,
                          transparentRed, transparentGreen, transparentBlue, pr, count);
      }

      SameCells(GridOf(target), Patched(g, startRow, startColumn, p, transparentRed, transparentGreen, transparentBlue), h, w);
    }
  }

  // ---------------------------------------------------------------------
  // rotate

  /** The back-up loop of `rotate`: a fresh copy of `source`. */
  method CopyOf(source: array2<Int32>) returns (copy: array2<Int32>)
    ensures fresh(copy) && copy.Length0 == source.Length0 && copy.Length1 == source.Length1
    ensures GridOf(copy) == GridOf(source)
  {
    var h, w := source.Length0, source.Length1;
    copy := new Int32[h, w];
    for i := 0 to h
      invariant forall a, b | 0 <= a < i && 0 <= b < w :: copy[a, b] == source[a, b]
    {
      for j := 0 to w
        invariant forall a, b | 0 <= a < i && 0 <= b < w :: copy[a, b] == source[a, b]
        invariant forall b | 0 <= b < j :: copy[i, b] == source[i, b]
      {
        copy[i, j] := source[i, j];
      }
    }
    SameCells(GridOf(copy), GridOf(source), h, w);
  }

  /** The remap loop of `rotate`: a fresh W x H buffer holding pixel (i, j)
    * of the H x W `oldImage` at (j, H - 1 - i). */
  method QuarterTurned(oldImage: array2<Int32>) returns (turned: array2<Int32>)
    requires oldImage.Length0 >= 1 && oldImage.Length1 >= 1
    ensures fresh(turned)
    ensures GridOf(turned) == Rotate90(GridOf(oldImage))
  {
    var h, w := oldImage.Length0, oldImage.Length1;
    var numberOfRowInOld := h;
    turned := new Int32[w, h];
    for i := 0 to h
      invariant forall a, b | 0 <= a < i && 0 <= b < w :: turned[b, numberOfRowInOld - 1 - a] == oldImage[a, b]
    {
      for j := 0 to w
        invariant forall a, b | 0 <= a < i && 0 <= b < w :: turned[b, numberOfRowInOld - 1 - a] == oldImage[a, b]
        invariant forall b | 0 <= b < j :: turned[b, numberOfRowInOld - 1 - i] == oldImage[i, b]
      {
        turned[j, numberOfRowInOld - 1 - i] := oldImage[i, j];
      }
    }

    ghost var after := Rotate90(GridOf(oldImage));
    forall j | 0 <= j < w
      ensures GridOf(turned)[j] == after[j]
    {
      forall k | 0 <= k < h
        ensures GridOf(turned)[j][k] == after[j][k]
      {
        assert turned[j, h - 1 - (h - 1 - k)] == oldImage[h - 1 - k, j];
      }
    }
  }

  // ---------------------------------------------------------------------
  // downSample

  /** The column loop of `downSample` for one row of blocks: fills row
    * `newRow` of `scaledImage` with the averages of the blocks starting on
    * buffer row `scaledRow` and leaves every other row alone. */
  method ScaleRow(source: array2<Int32>, scaledImage: array2<Int32>, ghost g: Grid,
                  heightScale: int, widthScale: int, scaledRow: int, newRow: int)
    requires g == GridOf(source) && InRange(g) && scaledImage != source
    requires ValidScales(source.Length0, source.Length1, heightScale, widthScale)
    requires scaledImage.Length0 == source.Length0 / heightScale
    requires scaledImage.Length1 == source.Length1 / widthScale
    requires 0 <= newRow < scaledImage.Length0 && scaledRow == newRow * heightScale
    modifies scaledImage
    ensures forall a, b | 0 <= a < scaledImage.Length0 && 0 <= b < scaledImage.Length1 ::
      scaledImage[a, b] == if a == newRow then ScaledPixel(g, heightScale, widthScale, a, b) else old(scaledImage[a, b])
  {
    BlockInside(newRow, heightScale, source.Length0);
    var w := source.Length1;
    var scaledColumn, newColumn := 0, 0;
    while scaledColumn < w
      invariant 0 <= newColumn <= scaledImage.Length1 && scaledColumn == newColumn * widthScale
      invariant forall a, b | 0 <= a < scaledImage.Length0 && 0 <= b < scaledImage.Length1 ::
        scaledImage[a, b] ==
          if a == newRow && b < newColumn then ScaledPixel(g, heightScale, widthScale, a, b) else old(scaledImage[a, b])
      decreases w - scaledColumn
    {
      BlockStart(newColumn, widthScale, w);
      BlockInside(newColumn, widthScale, w);
      var newRgb := AverageBlock(source, g, scaledRow, scaledColumn, heightScale, widthScale);
      scaledImage[newRow, newColumn] := newRgb;
      assert (newColumn + 1) * widthScale == scaledColumn + widthScale;
      scaledColumn, newColumn := scaledColumn + widthScale, newColumn + 1;
    }
    BlockCount(newColumn, widthScale, w);
  }

  /** The two inner loops of `downSample` and what follows them: the
    * channel sums over the `heightScale x widthScale` block at (row, col),
    * each divided by the block size with Java's `/`, and the three
    * repacked. */
  method AverageBlock(source: array2<Int32>, ghost g: Grid, row: nat, col: nat, heightScale: nat, widthScale: nat)
    returns (newRgb: Int32)
    requires g == GridOf(source) && InRange(g)
    requires heightScale >= 1 && widthScale >= 1
    requires row + heightScale <= source.Length0 && col + widthScale <= source.Length1
    ensures newRgb == BlockAverage(g, row, col, heightScale, widthScale)
  {
    var red, green, blue := BlockSums(source, g, row, col, heightScale, widthScale);
    red := JavaDiv(red, heightScale * widthScale);
    green := JavaDiv(green, heightScale * widthScale);
    blue := JavaDiv(blue, heightScale * widthScale);
    assert red == ChannelMean(g, Red, row, col, heightScale, widthScale);
    assert green == ChannelMean(g, Green, row, col, heightScale, widthScale);
    assert blue == ChannelMean(g, Blue, row, col, heightScale, widthScale);
    newRgb := red * RED_DIVISOR + green * GREEN_DIVISOR + blue;
  }

  /** The two inner loops of `downSample`: each channel, split by division,
    * summed over the `heightScale x widthScale` block at (row, col). */
  method BlockSums(source: array2<Int32>, ghost g: Grid, row: nat, col: nat, heightScale: nat, widthScale: nat)
    returns (red: int, green: int, blue: int)
    requires g == GridOf(source) && IsImage(g)
    requires heightScale >= 1 && widthScale >= 1
    requires row + heightScale <= source.Length0 && col + widthScale <= source.Length1
    ensures red == BlockSum(g, Red, row, col, heightScale, widthScale)
    ensures green == BlockSum(g, Green, row, col, heightScale, widthScale)
    ensures blue == BlockSum(g, Blue, row, col, heightScale, widthScale)
  {
    red, green, blue := 0, 0, 0;
    for i := row to row + heightScale
      invariant red == BlockSum(g, Red, row, col, i - row, widthScale)
      invariant green == BlockSum(g, Green, row, col, i - row, widthScale)
      invariant blue == BlockSum(g, Blue, row, col, i - row, widthScale)
    {
      BlockSumNextRow(g, row, col, i - row, widthScale);
      assert row + (i - row) == i;
      red, green, blue := AddRowSums(source, g, i, col, widthScale, red, green, blue);
    }
  }

  /** The innermost loop of `downSample`: adds the channels of
    * `source[i, col .. col + widthScale)`, split by division, to the sums
    * so far. */
  method AddRowSums(source: array2<Int32>, ghost g: Grid, i: nat, col: nat, widthScale: nat,
                    red0: int, green0: int, blue0: int)
    returns (red: int, green: int, blue: int)
    requires g == GridOf(source)
    requires i < source.Length0 && col + widthScale <= source.Length1
    ensures red == red0 + RowSum(g, Red, i, col, widthScale)
    ensures green == green0 + RowSum(g, Green, i, col, widthScale)
    ensures blue == blue0 + RowSum(g, Blue, i, col, widthScale)
  {
    red, green, blue := red0, green0, blue0;
    for j := col to col + widthScale
      invariant red == red0 + RowSum(g, Red, i, col, j - col)
      invariant green == green0 + RowSum(g, Green, i, col, j - col)
      invariant blue == blue0 + RowSum(g, Blue, i, col, j - col)
    {
      var rgb: Int32 := source[i, j];
      red := red + JavaDiv(rgb, RED_DIVISOR);
      rgb := JavaRem(rgb, RED_DIVISOR);
      green := green + JavaDiv(rgb, GREEN_DIVISOR);
      rgb := JavaRem(rgb, GREEN_DIVISOR);
      blue := blue + rgb;
    }
  }

  // ---------------------------------------------------------------------
  // patch

  /** The column loop of `patch` for patch row `pr`: copies the row's opaque
    * pixels and adds their number to the count so far.  `target` and
    * `patchImage` may be the same buffer. */
  method PatchRow(target: array2<Int32>, patchImage: array2<Int32>, ghost g: Grid, ghost p: Grid,
                  startRow: int, startColumn: int, keyRed: int, keyGreen: int, keyBlue: int,
                  pr: nat, count0: int)
    returns (count: int)
    requires IsImage(g) && IsPatch(p) && PatchFits(|g|, Width(g), startRow, startColumn, |p|, Width(p))
    requires target.Length0 == |g| && target.Length1 == Width(g)
    requires patchImage.Length0 == |p| && patchImage.Length1 == Width(p) && pr < |p|
    requires forall a, b | 0 <= a < |p| && 0 <= b < Width(p) :: patchImage[a, b] == p[a][b]
    requires forall r, c | 0 <= r < |g| && 0 <= c < Width(g) ::
      target[r, c] == Staged(g, p, startRow, startColumn, keyRed, keyGreen, keyBlue, pr, 0, r, c)
    modifies target
    ensures count == count0 + RowOpaque(p[pr], keyRed, keyGreen, keyBlue, Width(p))
    ensures forall a, b | 0 <= a < |p| && 0 <= b < Width(p) :: patchImage[a, b] == p[a][b]
    ensures forall r, c | 0 <= r < |g| && 0 <= c < Width(g) ::
      target[r, c] == Staged(g, p, startRow, startColumn, keyRed, keyGreen, keyBlue, pr + 1, 0, r, c)
  {
    count := count0;
    for pc := 0 to patchImage.Length1
      invariant count == count0 + RowOpaque(p[pr], keyRed, keyGreen, keyBlue, pc)
      invariant forall a, b | 0 <= a < |p| && 0 <= b < Width(p) :: patchImage[a, b] == p[a][b]
      invariant forall r, c | 0 <= r < |g| && 0 <= c < Width(g) ::
        target[r, c] == Staged(g, p, startRow, startColumn, keyRed, keyGreen, keyBlue, pr, pc, r, c)
    {
      var pRgb: Int32 := patchImage[pr, pc];
      var pRed := JavaDiv(pRgb, RED_DIVISOR);
      pRgb := JavaRem(pRgb, RED_DIVISOR);
      var pGreen := JavaDiv(pRgb, GREEN_DIVISOR);
      pRgb := JavaRem(pRgb, GREEN_DIVISOR);
      var pBlue := pRgb;
      if pRed == keyRed && pGreen == keyGreen && pBlue == keyBlue {
        StagedSkip(g, p, startRow, startColumn, keyRed, keyGreen, keyBlue, pr, pc);
        continue;
      }
      StagedWrite(g, p, startRow, startColumn, keyRed, keyGreen, keyBlue, pr, pc);
      target[pr + startRow, pc + startColumn] := patchImage[pr, pc];
      count := count + 1;
    }
    StagedNextRow(g, p, startRow, startColumn, keyRed, keyGreen, keyBlue, pr);
  }

  /** Whether `patch`, having finished `pr` patch rows and `pc` pixels of
    * the next, has visited buffer cell (r, c). */
  predicate Visited(startRow: int, startColumn: int, ph: int, pw: int, pr: int, pc: int, r: int, c: int)
  {
    startRow <= r < startRow + ph && startColumn <= c < startColumn + pw &&
    (r < startRow + pr || (r == startRow + pr && c < startColumn + pc))
  }

  /** Buffer cell (r, c) part way through `patch`: a visited cell holds the
    * patch's pixel unless that pixel is transparent, any other cell its
    * original value. */
  ghost function Staged(g: Grid, p: Grid, startRow: int, startColumn: int,
                        keyRed: int, keyGreen: int, keyBlue: int, pr: int, pc: int, r: nat, c: nat): Int32
    requires IsImage(g) && IsPatch(p) && PatchFits(|g|, Width(g), startRow, startColumn, |p|, Width(p))
    requires r < |g| && c < Width(g)
  {
    if Visited(startRow, startColumn, |p|, Width(p), pr, pc, r, c)
       && !IsTransparent(p[r - startRow][c - startColumn], keyRed, keyGreen, keyBlue)
    then p[r - startRow][c - startColumn]
    else g[r][c]
  }

  /** Skipping a transparent pixel leaves every cell's staged value as it was. */
  lemma StagedSkip(g: Grid, p: Grid, startRow: int, startColumn: int,
                   keyRed: int, keyGreen: int, keyBlue: int, pr: nat, pc: nat)
    requires IsImage(g) && IsPatch(p) && PatchFits(|g|, Width(g), startRow, startColumn, |p|, Width(p))
    requires pr < |p| && pc < Width(p) && IsTransparent(p[pr][pc], keyRed, keyGreen, keyBlue)
    ensures forall r, c | 0 <= r < |g| && 0 <= c < Width(g) ::
      Staged(g, p, startRow, startColumn, keyRed, keyGreen, keyBlue, pr, pc + 1, r, c) ==
      Staged(g, p, startRow, startColumn, keyRed, keyGreen, keyBlue, pr, pc, r, c)
  {
  }

  /** Copying an opaque pixel changes the staged value of its cell only. */
  lemma StagedWrite(g: Grid, p: Grid, startRow: int, startColumn: int,
                    keyRed: int, keyGreen: int, keyBlue: int, pr: nat, pc: nat)
    requires IsImage(g) && IsPatch(p) && PatchFits(|g|, Width(g), startRow, startColumn, |p|, Width(p))
    requires pr < |p| && pc < Width(p) && !IsTransparent(p[pr][pc], keyRed, keyGreen, keyBlue)
    ensures Staged(g, p, startRow, startColumn, keyRed, keyGreen, keyBlue, pr, pc + 1,
                   startRow + pr, startColumn + pc) == p[pr][pc]
    ensures forall r, c | 0 <= r < |g| && 0 <= c < Width(g) && (r != startRow + pr || c != startColumn + pc) ::
      Staged(g, p, startRow, startColumn, keyRed, keyGreen, keyBlue, pr, pc + 1, r, c) ==
      Staged(g, p, startRow, startColumn, keyRed, keyGreen, keyBlue, pr, pc, r, c)
  {
    assert Visited(startRow, startColumn, |p|, Width(p), pr, pc + 1, startRow + pr, startColumn + pc);
  }

  /** A finished patch row is the start of the next. */
  lemma StagedNextRow(g: Grid, p: Grid, startRow: int, startColumn: int,
                      keyRed: int, keyGreen: int, keyBlue: int, pr: nat)
    requires IsImage(g) && IsPatch(p) && PatchFits(|g|, Width(g), startRow, startColumn, |p|, Width(p))
    requires pr < |p|
    ensures forall r, c | 0 <= r < |g| && 0 <= c < Width(g) ::
      Staged(g, p, startRow, startColumn, keyRed, keyGreen, keyBlue, pr, Width(p), r, c) ==
      Staged(g, p, startRow, startColumn, keyRed, keyGreen, keyBlue, pr + 1, 0, r, c)
  {
  }

  /** Before the first row nothing is staged; after the last, everything is. */
  lemma StagedDone(g: Grid, p: Grid, startRow: int, startColumn: int, keyRed: int, keyGreen: int, keyBlue: int)
    requires IsImage(g) && IsPatch(p) && PatchFits(|g|, Width(g), startRow, startColumn, |p|, Width(p))
    ensures forall r, c | 0 <= r < |g| && 0 <= c < Width(g) ::
      Staged(g, p, startRow, startColumn, keyRed, keyGreen, keyBlue, 0, 0, r, c) == g[r][c]
    ensures forall r, c | 0 <= r < |g| && 0 <= c < Width(g) ::
      Staged(g, p, startRow, startColumn, keyRed, keyGreen, keyBlue, |p|, 0, r, c) ==
      Patched(g, startRow, startColumn, p, keyRed, keyGreen, keyBlue)[r][c]
  {
    forall r, c | 0 <= r < |g| && 0 <= c < Width(g)
      ensures Staged(g, p, startRow, startColumn, keyRed, keyGreen, keyBlue, |p|, 0, r, c) ==
              Patched(g, startRow, startColumn, p, keyRed, keyGreen, keyBlue)[r][c]
    {
    }
  }
}
