/**
 * The stitch node: the inpainted crop blended back into a copy of the
 * original image at the offset the crop node recorded, weighted by the
 * cropped mask.
 *
 * Images here are one batch element in height x width x channel order; the
 * destination tensor that the source overwrites in place is an `array3`.
 */
module Compositing {
  import opened Wrappers
  import opened Ints
  import opened Grids
  import opened Cropping

  /**
   * The rows top..bottom-1 and columns left..right-1 of the destination that
   * the source covers, and the visible height and width the source and its
   * mask are cut to.
   */
  datatype Region = Region(top: int, bottom: int, left: int, right: int, visibleHeight: int, visibleWidth: int) {

    predicate Covers(i: int, j: int)
    {
      top <= i < bottom && left <= j < right
    }
  }

  /**
   * One axis of the placement: the offset clamped to [-srcN * m, dstN * m],
   * floor-divided by the multiplier to give the first destination index, the
   * end of the covered range cut at the destination's edge, and the visible
   * length `dstN - start + min(0, offset)`. The source slice `[:visible]` has
   * exactly as many entries as the destination slice.
   */
  function Placement(offset: int, srcN: nat, dstN: nat, multiplier: int): (r: (int, int, int))
    requires offset >= 0 && multiplier >= 1
    ensures 0 <= r.0 <= r.1 <= dstN
    ensures r.0 == Min(offset / multiplier, dstN) && r.1 == Min(r.0 + srcN, dstN)
    ensures Min(srcN, r.2) == r.1 - r.0
  {
    var clamped := Max(-(srcN as int) * multiplier, Min(offset, dstN * multiplier));
    assert clamped == Min(offset, dstN * multiplier) by {
      NonNegativeProduct(srcN, multiplier);
      NonNegativeProduct(dstN, multiplier);
    }
    DivOfMin(offset, dstN, multiplier);
    var start := clamped / multiplier;
    (start, Min(start + srcN, dstN), dstN - start + Min(0, clamped))
  }

  /**
   * Where a srcH x srcW source lands on a dstH x dstW destination when its
   * corner is at (x, y) in units of 1/multiplier pixel. Only non-negative
   * offsets are modelled.
   */
  function VisibleRegion(dstH: nat, dstW: nat, srcH: nat, srcW: nat, x: int, y: int, multiplier: int): (r: Region)
    requires x >= 0 && y >= 0 && multiplier >= 1
    ensures 0 <= r.top <= r.bottom <= dstH && 0 <= r.left <= r.right <= dstW
    ensures r.top == Min(y / multiplier, dstH) && r.left == Min(x / multiplier, dstW)
    ensures r.bottom == Min(r.top + srcH, dstH) && r.right == Min(r.left + srcW, dstW)
    ensures Min(srcH, r.visibleHeight) == r.bottom - r.top && Min(srcW, r.visibleWidth) == r.right - r.left
  {
    var rows := Placement(y, srcH, dstH, multiplier);
    var columns := Placement(x, srcW, dstW, multiplier);
    Region(rows.0, rows.1, columns.0, columns.1, rows.2, columns.2)
  }

  /** Clamping an offset to the destination and then dividing equals dividing and then clamping. */
  lemma DivOfMin(v: int, n: nat, m: int)
    requires v >= 0 && m >= 1
    ensures Min(v, n * m) / m == Min(v / m, n)
  {
    MulDiv(n, m);
    if v <= n * m {
      DivIsMonotonic(v, n * m, m);
    } else {
      DivIsMonotonic(n * m, v, m);
    }
  }

  /** `mask * source + (1 - mask) * destination` on one value. */
  function Blend(w: real, s: real, d: real): (r: real)
    ensures w == 0.0 ==> r == d
    ensures w == 1.0 ==> r == s
    ensures s == d ==> r == d
    ensures 0.0 <= w <= 1.0 ==> Between(r, s, d)
  {
    BlendBetween(w, s, d);
    w * s + (1.0 - w) * d
  }

  /** `v` lies between `a` and `b`, in either order. */
  predicate Between(v: real, a: real, b: real)
  {
    a <= v <= b || b <= v <= a
  }

  /** For a weight in [0, 1] the blend lies between the two values. */
  lemma BlendBetween(w: real, s: real, d: real)
    ensures 0.0 <= w <= 1.0 ==> Between(w * s + (1.0 - w) * d, s, d)
  {
    assert w * s + (1.0 - w) * d == d + w * (s - d);
    if 0.0 <= w <= 1.0 {
      var x := s - d;
      ScaledBetween(w, x);
      if x >= 0.0 {
        assert d <= d + w * x <= s;
      } else {
        assert s <= d + w * x <= d;
      }
    }
  }

  /** Scaling by a weight in [0, 1] lands between 0 and the value. */
  lemma ScaledBetween(w: real, x: real)
    requires 0.0 <= w <= 1.0
    ensures x >= 0.0 ==> 0.0 <= w * x <= x
    ensures x <= 0.0 ==> x <= w * x <= 0.0
  {
    if x >= 0.0 {
      NonNegativeRealProduct(w, x);
      NonNegativeRealProduct(1.0 - w, x);
      assert (1.0 - w) * x == x - w * x;
    } else {
      NonNegativeRealProduct(w, -x);
      NonNegativeRealProduct(1.0 - w, -x);
      assert w * (-x) == -(w * x);
      assert (1.0 - w) * (-x) == w * x - x;
    }
  }

  lemma NonNegativeRealProduct(a: real, b: real)
    requires a >= 0.0 && b >= 0.0
    ensures a * b >= 0.0
  {
  }

  /** The blend of two pixels channel by channel, one weight for all channels. */
  function BlendPixel(w: real, s: Pixel, d: Pixel): (p: Pixel)
    requires |s| == |d|
    ensures |p| == |d|
  {
    seq(|d|, k requires 0 <= k < |d| => Blend(w, s[k], d[k]))
  }

  /** The weight of source pixel (i, j): the mask's value there, or 1 without a mask (`torch.ones_like`). */
  function MaskWeight(mask: Option<Mask>, i: int, j: int): (w: real)
    requires mask.Some? ==> 0 <= i < |mask.value| && 0 <= j < |mask.value[i]|
    ensures mask.None? ==> w == 1.0
    ensures mask.Some? && InUnitRange(mask.value) ==> 0.0 <= w <= 1.0
  {
    match mask
    case None => 1.0
    case Some(m) => m[i][j]
  }

  /** What the composite needs of its inputs: rectangular images with the same channels, a mask of the source's size. */
  predicate Compatible(dst: Image, src: Image, mask: Option<Mask>)
  {
    && Shaped(dst, |dst|, Width(dst), Depth(dst))
    && Shaped(src, |src|, Width(src), Depth(dst))
    && (mask.Some? ==> IsGrid(mask.value, |src|, Width(src)))
  }

  function RegionOf(dst: Image, src: Image, x: int, y: int, multiplier: int): Region
    requires x >= 0 && y >= 0 && multiplier >= 1
  {
    VisibleRegion(|dst|, Width(dst), |src|, Width(src), x, y, multiplier)
  }

  /**
   * The destination after `composite`: inside the visible region every pixel
   * is the blend of the source pixel above it and itself, weighted by the
   * mask; every other pixel is kept.
   */
  function Composited(dst: Image, src: Image, x: int, y: int, mask: Option<Mask>, multiplier: int): (r: Image)
    requires x >= 0 && y >= 0 && multiplier >= 1
    requires Compatible(dst, src, mask)
    ensures Shaped(r, |dst|, Width(dst), Depth(dst))
  {
    var g := RegionOf(dst, src, x, y, multiplier);
    seq(|dst|, i requires 0 <= i < |dst| =>
      seq(Width(dst), j requires 0 <= j < Width(dst) =>
        if g.Covers(i, j) then
          BlendPixel(MaskWeight(mask, i - g.top, j - g.left), src[i - g.top][j - g.left], dst[i][j])
        else
          dst[i][j]))
  }

  /** Two images of the same shape that agree on every value are equal. */
  lemma {:induction false} SameImage(a: Image, b: Image)
    requires Shaped(a, |b|, Width(b), Depth(b)) && Shaped(b, |b|, Width(b), Depth(b))
    requires forall i, j, k :: 0 <= i < |b| && 0 <= j < Width(b) && 0 <= k < Depth(b) ==> a[i][j][k] == b[i][j][k]
    ensures a == b
  {
    forall i | 0 <= i < |b|
      ensures a[i] == b[i]
    {
      forall j | 0 <= j < Width(b)
        ensures a[i][j] == b[i][j]
      {
      }
    }
  }

  /** Pixels outside the visible region are never changed. */
  lemma CompositedKeepsOutside(dst: Image, src: Image, x: int, y: int, mask: Option<Mask>, multiplier: int, i: int, j: int)
    requires x >= 0 && y >= 0 && multiplier >= 1
    requires Compatible(dst, src, mask)
    requires 0 <= i < |dst| && 0 <= j < Width(dst)
    requires !RegionOf(dst, src, x, y, multiplier).Covers(i, j)
    ensures Composited(dst, src, x, y, mask, multiplier)[i][j] == dst[i][j]
  {
  }

  /**
   * Every value in the visible region becomes the mask-weighted blend of the
   * source value at the offset position and the old destination value.
   */
  lemma CompositedBlendsInside(dst: Image, src: Image, x: int, y: int, mask: Option<Mask>, multiplier: int, i: int, j: int, k: int)
    requires x >= 0 && y >= 0 && multiplier >= 1
    requires Compatible(dst, src, mask)
    requires 0 <= i < |dst| && 0 <= j < Width(dst) && 0 <= k < Depth(dst)
    requires RegionOf(dst, src, x, y, multiplier).Covers(i, j)
    ensures var g := RegionOf(dst, src, x, y, multiplier);
      && 0 <= i - g.top < |src| && 0 <= j - g.left < Width(src)
      && Composited(dst, src, x, y, mask, multiplier)[i][j][k]
         == MaskWeight(mask, i - g.top, j - g.left) * src[i - g.top][j - g.left][k]
            + (1.0 - MaskWeight(mask, i - g.top, j - g.left)) * dst[i][j][k]
  {
  }

  /** Where the mask is 0 the destination pixel is kept. */
  lemma CompositedZeroWeightKeeps(dst: Image, src: Image, x: int, y: int, m: Mask, multiplier: int, i: int, j: int)
    requires x >= 0 && y >= 0 && multiplier >= 1
    requires Compatible(dst, src, Some(m))
    requires 0 <= i < |dst| && 0 <= j < Width(dst)
    requires var g := RegionOf(dst, src, x, y, multiplier);
      g.Covers(i, j) ==> m[i - g.top][j - g.left] == 0.0
    ensures Composited(dst, src, x, y, Some(m), multiplier)[i][j] == dst[i][j]
  {
    var r := Composited(dst, src, x, y, Some(m), multiplier);
    assert |r[i][j]| == |dst[i][j]|;
    forall k | 0 <= k < |dst[i][j]|
      ensures r[i][j][k] == dst[i][j][k]
    {
    }
  }

  /** A mask that is 0 everywhere leaves the whole destination as it was. */
  lemma {:induction false} CompositedZeroMaskIsIdentity(dst: Image, src: Image, x: int, y: int, m: Mask, multiplier: int)
    requires x >= 0 && y >= 0 && multiplier >= 1
    requires Compatible(dst, src, Some(m))
    requires forall i, j :: 0 <= i < |m| && 0 <= j < |m[i]| ==> m[i][j] == 0.0
    ensures Composited(dst, src, x, y, Some(m), multiplier) == dst
  {
    var r := Composited(dst, src, x, y, Some(m), multiplier);
    forall i | 0 <= i < |dst|
      ensures r[i] == dst[i]
    {
      forall j | 0 <= j < Width(dst)
        ensures r[i][j] == dst[i][j]
      {
        CompositedZeroWeightKeeps(dst, src, x, y, m, multiplier, i, j);
      }
    }
  }

  /** Without a mask the source pixel replaces the destination pixel throughout the visible region. */
  lemma CompositedWithoutMaskCopies(dst: Image, src: Image, x: int, y: int, multiplier: int, i: int, j: int)
    requires x >= 0 && y >= 0 && multiplier >= 1
    requires Compatible(dst, src, None)
    requires 0 <= i < |dst| && 0 <= j < Width(dst)
    requires RegionOf(dst, src, x, y, multiplier).Covers(i, j)
    ensures var g := RegionOf(dst, src, x, y, multiplier);
      0 <= i - g.top < |src| && 0 <= j - g.left < Width(src)
      && Composited(dst, src, x, y, None, multiplier)[i][j] == src[i - g.top][j - g.left]
  {
    var g := RegionOf(dst, src, x, y, multiplier);
    var r := Composited(dst, src, x, y, None, multiplier);
    var s := src[i - g.top][j - g.left];
    assert |r[i][j]| == |s|;
    forall k | 0 <= k < |s|
      ensures r[i][j][k] == s[k]
    {
    }
  }

  /**
   * Stitching a crop back, unmodified and at pixel offsets (multiplier 1),
   * where it was cut out gives the destination back, whatever the mask.
   */
  lemma {:induction false} StitchUnchangedCropIsIdentity(dst: Image, src: Image, x: int, y: int, mask: Option<Mask>)
    requires IsCropAt(src, dst, y, x)
    requires Compatible(dst, src, mask)
    ensures Composited(dst, src, x, y, mask, 1) == dst
  {
    var r := Composited(dst, src, x, y, mask, 1);
    var g := RegionOf(dst, src, x, y, 1);
    assert g.top == y && g.left == x && g.bottom == y + |src| && g.right == x + Width(src);
    forall i | 0 <= i < |dst|
      ensures r[i] == dst[i]
    {
      forall j | 0 <= j < Width(dst)
        ensures r[i][j] == dst[i][j]
      {
        if g.Covers(i, j) {
          assert src[i - y][j - x] == dst[i][j];
          assert |r[i][j]| == |dst[i][j]|;
          forall k | 0 <= k < |dst[i][j]|
            ensures r[i][j][k] == dst[i][j][k]
          {
          }
        }
      }
    }
  }

  // ---------------------------------------------------------------------------
  // The destination tensor, overwritten in place
  // ---------------------------------------------------------------------------

  /** The contents of a height x width x channel array as an image. */
  function ToImage(a: array3<real>): (img: Image)
    reads a
    ensures Shaped(img, a.Length0, a.Length1, a.Length2)
    ensures forall i, j, k :: 0 <= i < a.Length0 && 0 <= j < a.Length1 && 0 <= k < a.Length2 ==> img[i][j][k] == a[i, j, k]
  {
    seq(a.Length0, i requires 0 <= i < a.Length0 reads a =>
      seq(a.Length1, j requires 0 <= j < a.Length1 reads a =>
        seq(a.Length2, k requires 0 <= k < a.Length2 reads a => a[i, j, k])))
  }

  /** `clone()`: a fresh array holding the image. */
  method FromImage(img: Image) returns (a: array3<real>)
    requires Shaped(img, |img|, Width(img), Depth(img))
    ensures fresh(a)
    ensures a.Length0 == |img| && a.Length1 == Width(img) && a.Length2 == Depth(img)
    ensures ToImage(a) == img
  {
    var h, w, c := |img|, Width(img), Depth(img);
    a := new real[h, w, c]((i, j, k) requires 0 <= i < h && 0 <= j < w && 0 <= k < c => img[i][j][k]);
    SameImage(ToImage(a), img);
  }

  /**
   * An image whose every value is what Composited prescribes for it is the
   * Composited image.
   */
  lemma {:induction false} PrescribedIsComposited(dst: Image, src: Image, x: int, y: int, mask: Option<Mask>, multiplier: int, out: Image)
    requires x >= 0 && y >= 0 && multiplier >= 1
    requires Compatible(dst, src, mask)
    requires Shaped(out, |dst|, Width(dst), Depth(dst))
    requires var g := RegionOf(dst, src, x, y, multiplier);
      forall a, b, k :: 0 <= a < |dst| && 0 <= b < Width(dst) && 0 <= k < Depth(dst) ==>
        out[a][b][k] == if g.Covers(a, b) then
          Blend(MaskWeight(mask, a - g.top, b - g.left), src[a - g.top][b - g.left][k], dst[a][b][k])
        else dst[a][b][k]
    ensures out == Composited(dst, src, x, y, mask, multiplier)
  {
    var r := Composited(dst, src, x, y, mask, multiplier);
    var g := RegionOf(dst, src, x, y, multiplier);
    forall a, b, k | 0 <= a < |dst| && 0 <= b < Width(dst) && 0 <= k < Depth(dst)
      ensures out[a][b][k] == r[a][b][k]
    {
      if g.Covers(a, b) {
        CompositedBlendsInside(dst, src, x, y, mask, multiplier, a, b, k);
      } else {
        CompositedKeepsOutside(dst, src, x, y, mask, multiplier, a, b);
      }
    }
    SameImage(out, r);
  }

  /** One pixel of the destination blended in place with the source pixel `s`, all channels, weight `w`. */
  method BlendPixelInPlace(destination: array3<real>, i: int, j: int, w: real, s: Pixel)
    requires 0 <= i < destination.Length0 && 0 <= j < destination.Length1 && |s| == destination.Length2
    modifies destination
    ensures forall a, b, c :: 0 <= a < destination.Length0 && 0 <= b < destination.Length1 && 0 <= c < destination.Length2 ==>
      destination[a, b, c] == if a == i && b == j then Blend(w, s[c], old(destination[a, b, c])) else old(destination[a, b, c])
  {
    var k := 0;
    while k < destination.Length2
      invariant 0 <= k <= destination.Length2
      invariant forall a, b, c :: 0 <= a < destination.Length0 && 0 <= b < destination.Length1 && 0 <= c < destination.Length2 ==>
        destination[a, b, c] == if a == i && b == j && c < k then Blend(w, s[c], old(destination[a, b, c])) else old(destination[a, b, c])
    {
      destination[i, j, k] := Blend(w, s[k], destination[i, j, k]);
      k := k + 1;
    }
  }

  /**
   * Row `i` of the destination, columns left..right-1, blended in place with
   * row `i - top` of the source, weighted by the mask.
   */
  method BlendRowInPlace(destination: array3<real>, i: int, top: int, left: int, right: int, source: Image, mask: Option<Mask>)
    requires 0 <= top <= i < destination.Length0 && i - top < |source|
    requires 0 <= left <= right <= destination.Length1 && right - left <= Width(source)
    requires Shaped(source, |source|, Width(source), destination.Length2)
    requires mask.Some? ==> IsGrid(mask.value, |source|, Width(source))
    modifies destination
    ensures forall a, b, c :: 0 <= a < destination.Length0 && 0 <= b < destination.Length1 && 0 <= c < destination.Length2 ==>
      destination[a, b, c] == if a == i && left <= b < right then
        Blend(MaskWeight(mask, i - top, b - left), source[i - top][b - left][c], old(destination[a, b, c]))
      else old(destination[a, b, c])
  {
    var j := left;
    while j < right
      invariant left <= j <= right
      invariant forall a, b, c :: 0 <= a < destination.Length0 && 0 <= b < destination.Length1 && 0 <= c < destination.Length2 ==>
        destination[a, b, c] == if a == i && left <= b < j then
          Blend(MaskWeight(mask, i - top, b - left), source[i - top][b - left][c], old(destination[a, b, c]))
        else old(destination[a, b, c])
    {
      BlendPixelInPlace(destination, i, j, MaskWeight(mask, i - top, j - left), source[i - top][j - left]);
      j := j + 1;
    }
  }

  /**
   * `composite` on one batch element: every pixel of the destination array in
   * the visible region is blended with the source in place; the array ends up
   * holding Composited of what it held before.
   */
  method Composite(destination: array3<real>, source: Image, x: int, y: int, mask: Option<Mask>, multiplier: int)
    requires x >= 0 && y >= 0 && multiplier >= 1
    requires Compatible(ToImage(destination), source, mask)
    requires Shaped(source, |source|, Width(source), destination.Length2)
    modifies destination
    ensures ToImage(destination) == Composited(old(ToImage(destination)), source, x, y, mask, multiplier)
  {
    ghost var before := ToImage(destination);
    // an image without rows has width 0, whatever the array's second dimension
    var width := if destination.Length0 == 0 then 0 else destination.Length1;
    var g := VisibleRegion(destination.Length0, width, |source|, Width(source), x, y, multiplier);
    assert g == RegionOf(before, source, x, y, multiplier);
    var i := g.top;
    while i < g.bottom
      invariant g.top <= i <= g.bottom
      invariant forall a, b, c :: 0 <= a < destination.Length0 && 0 <= b < destination.Length1 && 0 <= c < destination.Length2 ==>
        destination[a, b, c] == if g.top <= a < i && g.left <= b < g.right then
          Blend(MaskWeight(mask, a - g.top, b - g.left), source[a - g.top][b - g.left][c], before[a][b][c])
        else before[a][b][c]
    {
      BlendRowInPlace(destination, i, g.top, g.left, g.right, source, mask);
      i := i + 1;
    }
    PrescribedIsComposited(before, source, x, y, mask, multiplier, ToImage(destination));
  }

  /**
   * `inpaint_stitch`: the inpainted crop composited, with the cropped mask and
   * multiplier 1, onto a fresh copy of the original image at the recorded
   * offset. The descriptor's image is a value and stays as it was.
   */
  method InpaintStitch(stitch: Stitch, inpaintedImage: Image) returns (output: array3<real>)
    requires stitch.x >= 0 && stitch.y >= 0
    requires Compatible(stitch.originalImage, inpaintedImage, Some(stitch.croppedMask))
    ensures fresh(output)
    ensures ToImage(output) == Composited(stitch.originalImage, inpaintedImage, stitch.x, stitch.y, Some(stitch.croppedMask), 1)
  {
    output := FromImage(stitch.originalImage);
    Composite(output, inpaintedImage, stitch.x, stitch.y, Some(stitch.croppedMask), 1);
  }
}

