/**
 * The context area of the crop node: the integer rectangle around the masked
 * pixels that is cut out for inpainting.
 */
module Geometry {
  import opened Wrappers
  import opened Ints
  import opened Grids
  import opened Sizes

  /** Rows yMin..yMax and columns xMin..xMax of an image, both ends included. */
  datatype Box = Box(yMin: int, yMax: int, xMin: int, xMax: int) {

    function Height(): int
    {
      yMax - yMin + 1
    }

    function Width(): int
    {
      xMax - xMin + 1
    }

    /** The box is non-empty and lies inside a height x width image. */
    predicate Within(height: int, width: int)
    {
      0 <= yMin <= yMax < height && 0 <= xMin <= xMax < width
    }

    predicate Contains(b: Box)
    {
      yMin <= b.yMin && b.yMax <= yMax && xMin <= b.xMin && b.xMax <= xMax
    }
  }

  /**
   * The shaping parameters of the crop node. The preferred sizes are the list
   * already split at commas and converted to integers.
   */
  datatype CropParams = CropParams(
    contextExpandPixels: nat,
    contextExpandFactor: real,
    adjustToPreferredSizes: bool,
    preferredSizes: seq<int>,
    preferSquareSize: bool)

  // ---------------------------------------------------------------------------
  // Recentring a window of a given size
  // ---------------------------------------------------------------------------

  /**
   * The window of `preferredSize` positions centred on the interval
   * [minVal, maxVal], then shifted back inside [0, maxDimension). Python's `//`
   * floors; Dafny's `/` is Euclidean, and the two agree for the divisor 2.
   */
  function AdjustToPreferredSize(minVal: int, maxVal: int, maxDimension: int, preferredSize: int): (r: (int, int))
    ensures 1 <= preferredSize <= maxDimension ==>
      r.1 - r.0 + 1 == preferredSize && 0 <= r.0 <= r.1 < maxDimension
  {
    var center := (minVal + maxVal) / 2;
    var newMin := center - preferredSize / 2;
    var newMax := newMin + preferredSize - 1;
    var shifted := if newMin < 0 then (0, preferredSize - 1) else (newMin, newMax);
    if shifted.1 >= maxDimension then
      var top := maxDimension - 1;
      (top - preferredSize + 1, top)
    else
      shifted
  }

  /** Where the window of `size` positions starts when it is centred on [minVal, maxVal]. */
  function CentredStart(minVal: int, maxVal: int, size: int): int
  {
    (minVal + maxVal) / 2 - size / 2
  }

  /** The window starts at the centred position moved into the range of starts that fit. */
  lemma AdjustIsClampedCentre(minVal: int, maxVal: int, maxDimension: int, preferredSize: int)
    requires 1 <= preferredSize <= maxDimension
    ensures AdjustToPreferredSize(minVal, maxVal, maxDimension, preferredSize).0
         == Clamp(CentredStart(minVal, maxVal, preferredSize), 0, maxDimension - preferredSize)
  {
  }

  /** The centred window is kept exactly when it already fits inside [0, maxDimension). */
  lemma AdjustKeepsCentreIffItFits(minVal: int, maxVal: int, maxDimension: int, preferredSize: int)
    requires 1 <= preferredSize <= maxDimension
    ensures var c := CentredStart(minVal, maxVal, preferredSize);
      AdjustToPreferredSize(minVal, maxVal, maxDimension, preferredSize) == (c, c + preferredSize - 1)
      <==> 0 <= c && c + preferredSize - 1 < maxDimension
  {
  }

  /** The interval 100..200 with a window of 50: centred in a dimension of 1000, pushed back in one of 140. */
  lemma AdjustExamples()
    ensures AdjustToPreferredSize(100, 200, 1000, 50) == (125, 174)
    ensures AdjustToPreferredSize(100, 200, 140, 50) == (90, 139)
  {
  }

  /** Both axes of `b` recentred to the given sizes. */
  function Recentre(b: Box, height: int, width: int, ySize: int, xSize: int): (r: Box)
    requires 1 <= ySize <= height && 1 <= xSize <= width
    ensures r.Within(height, width) && r.Height() == ySize && r.Width() == xSize
    ensures r.xMin == Clamp(CentredStart(b.xMin, b.xMax, xSize), 0, width - xSize)
    ensures r.yMin == Clamp(CentredStart(b.yMin, b.yMax, ySize), 0, height - ySize)
  {
    AdjustIsClampedCentre(b.xMin, b.xMax, width, xSize);
    AdjustIsClampedCentre(b.yMin, b.yMax, height, ySize);
    var x := AdjustToPreferredSize(b.xMin, b.xMax, width, xSize);
    var y := AdjustToPreferredSize(b.yMin, b.yMax, height, ySize);
    Box(y.0, y.1, x.0, x.1)
  }

  // ---------------------------------------------------------------------------
  // The tight bounding box of the non-zero mask pixels
  // ---------------------------------------------------------------------------

  predicate NonZeroAt(m: Mask, i: int, j: int)
  {
    0 <= i < |m| && 0 <= j < |m[i]| && m[i][j] != 0.0
  }

  ghost predicate HasNonZero(m: Mask)
  {
    exists i, j :: NonZeroAt(m, i, j)
  }

  /** Every non-zero pixel of `m` lies in `b`. */
  ghost predicate Encloses(b: Box, m: Mask)
  {
    forall i, j :: NonZeroAt(m, i, j) ==> b.yMin <= i <= b.yMax && b.xMin <= j <= b.xMax
  }

  /** Each of the four sides of `b` passes through a non-zero pixel of `m`. */
  ghost predicate Attained(b: Box, m: Mask)
  {
    && (exists j :: NonZeroAt(m, b.yMin, j))
    && (exists j :: NonZeroAt(m, b.yMax, j))
    && (exists i :: NonZeroAt(m, i, b.xMin))
    && (exists i :: NonZeroAt(m, i, b.xMax))
  }

  /** For each row, whether it holds a non-zero pixel. */
  function RowFlags(m: Mask): (f: seq<bool>)
    ensures |f| == |m|
    ensures forall i :: 0 <= i < |m| ==> (f[i] <==> exists j :: NonZeroAt(m, i, j))
  {
    seq(|m|, i requires 0 <= i < |m| => exists j :: 0 <= j < |m[i]| && NonZeroAt(m, i, j))
  }

  /** For each of the first `w` columns, whether it holds a non-zero pixel. */
  function ColumnFlags(m: Mask, w: nat): (f: seq<bool>)
    ensures |f| == w
    ensures forall j :: 0 <= j < w ==> (f[j] <==> exists i :: NonZeroAt(m, i, j))
  {
    seq(w, j requires 0 <= j < w => exists i :: 0 <= i < |m| && NonZeroAt(m, i, j))
  }

  /** The smallest index whose flag is set (`torch.min` over the indices returned by `nonzero`). */
  function FirstSet(f: seq<bool>): (r: Option<nat>)
    ensures r.None? <==> forall k :: 0 <= k < |f| ==> !f[k]
    ensures r.Some? ==> r.value < |f| && f[r.value] && forall k :: 0 <= k < r.value ==> !f[k]
  {
    if f == [] then
      None
    else if f[0] then
      Some(0)
    else
      match FirstSet(f[1..])
      case None => None
      case Some(k) => Some(k + 1)
  }

  /** The largest index whose flag is set (`torch.max` over the indices returned by `nonzero`). */
  function LastSet(f: seq<bool>): (r: Option<nat>)
    ensures r.None? <==> forall k :: 0 <= k < |f| ==> !f[k]
    ensures r.Some? ==> r.value < |f| && f[r.value] && forall k :: r.value < k < |f| ==> !f[k]
  {
    if f == [] then
      None
    else if f[|f| - 1] then
      Some(|f| - 1)
    else
      LastSet(f[..|f| - 1])
  }

  /**
   * The tight bounding box of the non-zero pixels of `m`, or None when there is
   * none: the y bounds are the least and greatest row index returned by
   * `torch.nonzero`, the x bounds the least and greatest column index.
   */
  function TightBox(m: Mask): (r: Option<Box>)
    requires Rectangular(m)
    ensures r.None? <==> !HasNonZero(m)
    ensures r.Some? ==> r.value.Within(|m|, Width(m)) && Encloses(r.value, m) && Attained(r.value, m)
  {
    var rows, columns := RowFlags(m), ColumnFlags(m, Width(m));
    var yMin, yMax, xMin, xMax := FirstSet(rows), LastSet(rows), FirstSet(columns), LastSet(columns);
    if yMin.None? || xMin.None? then
      assert !HasNonZero(m) by {
        if HasNonZero(m) {
          var i, j :| NonZeroAt(m, i, j);
          NonZeroSetsFlags(m, i, j);
        }
      }
      None
    else
      var b := Box(yMin.value, yMax.value, xMin.value, xMax.value);
      BoundsOfFlags(m, b);
      Some(b)
  }

  /** A non-zero pixel sets the flag of its row and of its column. */
  lemma NonZeroSetsFlags(m: Mask, i: int, j: int)
    requires Rectangular(m) && NonZeroAt(m, i, j)
    ensures RowFlags(m)[i] && ColumnFlags(m, Width(m))[j]
  {
  }

  /** The box from the first and last set row and column flags is the tight box. */
  lemma BoundsOfFlags(m: Mask, b: Box)
    requires Rectangular(m)
    requires FirstSet(RowFlags(m)) == Some(b.yMin) && LastSet(RowFlags(m)).Some? && LastSet(RowFlags(m)).value == b.yMax
    requires FirstSet(ColumnFlags(m, Width(m))) == Some(b.xMin)
    requires LastSet(ColumnFlags(m, Width(m))).Some? && LastSet(ColumnFlags(m, Width(m))).value == b.xMax
    ensures HasNonZero(m) && b.Within(|m|, Width(m)) && Encloses(b, m) && Attained(b, m)
  {
    var rows, columns := RowFlags(m), ColumnFlags(m, Width(m));
    assert rows[b.yMin] && rows[b.yMax] && columns[b.xMin] && columns[b.xMax];
    forall i, j | NonZeroAt(m, i, j)
      ensures b.yMin <= i <= b.yMax && b.xMin <= j <= b.xMax
    {
      NonZeroSetsFlags(m, i, j);
    }
  }

  // ---------------------------------------------------------------------------
  // Growing the box
  // ---------------------------------------------------------------------------

  function RealMax(a: real, b: real): real
  {
    if a >= b then a else b
  }

  /** Python's one-argument `round`: the nearest integer, a tie going to the even one. */
  function RoundHalfEven(v: real): (r: int)
    ensures -0.5 <= r as real - v <= 0.5
    ensures r as real - v == 0.5 || v - r as real == 0.5 ==> r % 2 == 0
  {
    var f := v.Floor;
    var d := v - f as real;
    if d < 0.5 then f
    else if d > 0.5 then f + 1
    else if f % 2 == 0 then f
    else f + 1
  }

  /**
   * `round(max(size * (context_expand_factor - 1), context_expand_pixels))`:
   * the number of pixels an axis of `size` pixels grows by.
   */
  function GrowAmount(size: int, expandFactor: real, expandPixels: nat): (g: int)
    ensures g >= expandPixels
    ensures -0.5 <= g as real - RealMax(size as real * (expandFactor - 1.0), expandPixels as real) <= 0.5
  {
    RoundHalfEven(RealMax(size as real * (expandFactor - 1.0), expandPixels as real))
  }

  /**
   * `t` grown by half of each grow amount on both sides and clamped to the
   * image: every side moves out by exactly that much unless the image edge
   * stops it first.
   */
  function ExpandBox(t: Box, height: int, width: int, yGrow: int, xGrow: int): (r: Box)
    requires t.Within(height, width) && yGrow >= 0 && xGrow >= 0
    ensures r.Within(height, width) && r.Contains(t)
    ensures r.yMin >= t.yMin - yGrow / 2 && (r.yMin == 0 || r.yMin == t.yMin - yGrow / 2)
    ensures r.yMax <= t.yMax + yGrow / 2 && (r.yMax == height - 1 || r.yMax == t.yMax + yGrow / 2)
    ensures r.xMin >= t.xMin - xGrow / 2 && (r.xMin == 0 || r.xMin == t.xMin - xGrow / 2)
    ensures r.xMax <= t.xMax + xGrow / 2 && (r.xMax == width - 1 || r.xMax == t.xMax + xGrow / 2)
  {
    Box(Max(t.yMin - yGrow / 2, 0), Min(t.yMax + yGrow / 2, height - 1),
        Max(t.xMin - xGrow / 2, 0), Min(t.xMax + xGrow / 2, width - 1))
  }

  // ---------------------------------------------------------------------------
  // The context area
  // ---------------------------------------------------------------------------

  /**
   * The final context area computed from the context mask, or None when the
   * context mask has no non-zero pixel.
   */
  function ContextArea(context: Mask, p: CropParams): (r: Option<Box>)
    requires Rectangular(context)
    ensures r.None? <==> !HasNonZero(context)
    ensures r.Some? ==> r.value.Within(|context|, Width(context))
  {
    match TightBox(context)
    case None => None
    case Some(t) => Some(AreaAround(t, |context|, Width(context), p))
  }

  /**
   * The context area around the tight box `t` of a height x width mask: `t`
   * grown, then resized by the snapping or the square path.
   */
  function AreaAround(t: Box, height: int, width: int, p: CropParams): (r: Box)
    requires t.Within(height, width)
    ensures r.Within(height, width)
  {
    var yGrow := GrowAmount(t.Height(), p.contextExpandFactor, p.contextExpandPixels);
    var xGrow := GrowAmount(t.Width(), p.contextExpandFactor, p.contextExpandPixels);
    ResizeArea(t, ExpandBox(t, height, width, yGrow, xGrow), height, width, p)
  }

  /**
   * The grown box resized by the snapping or the square path. Both paths take
   * their sizes from the TIGHT extents of `t`, not from the grown ones, and
   * recentre on the grown box.
   */
  function ResizeArea(t: Box, grown: Box, height: int, width: int, p: CropParams): (r: Box)
    requires t.Within(height, width) && grown.Within(height, width)
    ensures r.Within(height, width)
  {
    var ySize, xSize := t.Height(), t.Width();
    if p.adjustToPreferredSizes then
      var preferredX := PreferredSize(p.preferredSizes, xSize);
      var preferredY := PreferredSize(p.preferredSizes, ySize);
      var side := Max(preferredX, preferredY);
      var chosenX := if p.preferSquareSize then side else preferredX;
      var chosenY := if p.preferSquareSize then side else preferredY;
      Recentre(grown, height, width, Min(chosenY, height), Min(chosenX, width))
    else if p.preferSquareSize then
      var side := Max(xSize, ySize);
      Recentre(grown, height, width, Min(side, height), Min(side, width))
    else
      grown
  }

  /**
   * Without snapping or squaring, the context area contains every masked
   * pixel and reaches at least half the expand pixels beyond the tight box on
   * each side, unless that side is at the image edge.
   */
  lemma ContextAreaPlainPath(context: Mask, p: CropParams)
    requires Rectangular(context) && HasNonZero(context)
    requires !p.adjustToPreferredSizes && !p.preferSquareSize
    ensures var t := TightBox(context).value;
      var b := ContextArea(context, p).value;
      && b.Contains(t) && Encloses(b, context)
      && (b.yMin == 0 || b.yMin <= t.yMin - p.contextExpandPixels / 2)
      && (b.yMax == |context| - 1 || b.yMax >= t.yMax + p.contextExpandPixels / 2)
      && (b.xMin == 0 || b.xMin <= t.xMin - p.contextExpandPixels / 2)
      && (b.xMax == Width(context) - 1 || b.xMax >= t.xMax + p.contextExpandPixels / 2)
  {
    var t := TightBox(context).value;
    var yGrow := GrowAmount(t.Height(), p.contextExpandFactor, p.contextExpandPixels);
    var xGrow := GrowAmount(t.Width(), p.contextExpandFactor, p.contextExpandPixels);
    HalfIsMonotonic(p.contextExpandPixels, yGrow);
    HalfIsMonotonic(p.contextExpandPixels, xGrow);
  }

  lemma HalfIsMonotonic(a: int, b: int)
    requires 0 <= a <= b
    ensures a / 2 <= b / 2
  {
  }

  /**
   * With snapping, each axis gets the least preferred size larger than its
   * tight extent (or the tight extent when there is none), both axes the
   * larger of the two when squaring, capped at the image dimension.
   */
  lemma ContextAreaSnapping(context: Mask, p: CropParams)
    requires Rectangular(context) && HasNonZero(context) && p.adjustToPreferredSizes
    ensures var t := TightBox(context).value;
      var cx := MinAbove(p.preferredSizes, t.Width()).GetOr(t.Width());
      var cy := MinAbove(p.preferredSizes, t.Height()).GetOr(t.Height());
      var b := ContextArea(context, p).value;
      && b.Width() == Min(if p.preferSquareSize then Max(cx, cy) else cx, Width(context))
      && b.Height() == Min(if p.preferSquareSize then Max(cx, cy) else cy, |context|)
  {
  }

  /**
   * Squaring without snapping gives both axes the larger TIGHT extent, capped
   * at the image dimension; the grow amounts play no part in the size.
   */
  lemma ContextAreaSquareOnly(context: Mask, p: CropParams)
    requires Rectangular(context) && HasNonZero(context)
    requires !p.adjustToPreferredSizes && p.preferSquareSize
    ensures var t := TightBox(context).value;
      var side := Max(t.Width(), t.Height());
      var b := ContextArea(context, p).value;
      b.Width() == Min(side, Width(context)) && b.Height() == Min(side, |context|)
  {
  }

  /**
   * Because the square path sizes the box from the tight extents but centres
   * it on the grown box, the crop can miss masked pixels: a 1 x 5 mask whose
   * first two pixels are set, grown by 6 pixels, is cropped to columns 1..2.
   */
  lemma SquareOnlyPathCanMissMaskedPixels(context: Mask)
    requires context == [[1.0, 1.0, 0.0, 0.0, 0.0]]
    ensures Rectangular(context)
    ensures ContextArea(context, CropParams(6, 1.0, false, [], true)) == Some(Box(0, 0, 1, 2))
    ensures NonZeroAt(context, 0, 0) && !Encloses(Box(0, 0, 1, 2), context)
  {
    assert Rectangular(context) && |context| == 1 && Width(context) == 5;
    TwoPixelTightBox(context);
    SquareOnlyAreaOfTwoPixels(context);
    FirstPixelOutsideColumnsOneToTwo(context);
  }

  lemma FirstPixelOutsideColumnsOneToTwo(context: Mask)
    requires context == [[1.0, 1.0, 0.0, 0.0, 0.0]]
    ensures NonZeroAt(context, 0, 0) && !Encloses(Box(0, 0, 1, 2), context)
  {
    assert NonZeroAt(context, 0, 0);
  }

  lemma TwoPixelTightBox(context: Mask)
    requires context == [[1.0, 1.0, 0.0, 0.0, 0.0]]
    ensures TightBox(context) == Some(Box(0, 0, 0, 1))
  {
    assert NonZeroAt(context, 0, 0) && NonZeroAt(context, 0, 1);
    var t := TightBox(context).value;
    assert t.xMax == 1 by {
      var i :| NonZeroAt(context, i, t.xMax);
    }
  }

  lemma SquareOnlyAreaOfTwoPixels(context: Mask)
    requires Rectangular(context) && |context| == 1 && Width(context) == 5
    requires TightBox(context) == Some(Box(0, 0, 0, 1))
    ensures ContextArea(context, CropParams(6, 1.0, false, [], true)) == Some(Box(0, 0, 1, 2))
  {
    SquareOnlyAreaAroundTwoPixels();
  }

  lemma SquareOnlyAreaAroundTwoPixels()
    ensures AreaAround(Box(0, 0, 0, 1), 1, 5, CropParams(6, 1.0, false, [], true)) == Box(0, 0, 1, 2)
  {
    GrowByPixelsOnly();
    ExpandTwoPixels();
    ResizeTwoPixels();
  }

  lemma ExpandTwoPixels()
    ensures ExpandBox(Box(0, 0, 0, 1), 1, 5, 6, 6) == Box(0, 0, 0, 4)
  {
  }

  lemma ResizeTwoPixels()
    ensures ResizeArea(Box(0, 0, 0, 1), Box(0, 0, 0, 4), 1, 5, CropParams(6, 1.0, false, [], true)) == Box(0, 0, 1, 2)
  {
    var t, p := Box(0, 0, 0, 1), CropParams(6, 1.0, false, [], true);
    assert !p.adjustToPreferredSizes && p.preferSquareSize;
    assert Max(t.Width(), t.Height()) == 2;
    RecentreTwoColumns();
  }

  lemma GrowByPixelsOnly()
    ensures GrowAmount(1, 1.0, 6) == 6 && GrowAmount(2, 1.0, 6) == 6
  {
    assert RealMax(1.0 * 0.0, 6.0) == 6.0;
    assert RealMax(2.0 * 0.0, 6.0) == 6.0;
  }

  lemma RecentreTwoColumns()
    ensures Recentre(Box(0, 0, 0, 4), 1, 5, 1, 2) == Box(0, 0, 1, 2)
  {
    assert AdjustToPreferredSize(0, 4, 5, 2) == (1, 2);
    assert AdjustToPreferredSize(0, 0, 1, 1) == (0, 0);
  }
}
