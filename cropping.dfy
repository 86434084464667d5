/**
 * The crop node: from an image, its mask and an optional context mask, the
 * cropped image and mask and the stitch descriptor that records where the crop
 * came from. The mask handed in is the working mask after the optional
 * invert, grow, fill-holes and blur stages.
 */
module Cropping {
  import opened Wrappers
  import opened Grids
  import opened Geometry

  /**
   * What the stitch node needs later: the offset of the crop's top-left corner,
   * the whole original image, and the mask to blend with.
   */
  datatype Stitch = Stitch(x: int, y: int, originalImage: Image, croppedMask: Mask)

  datatype CropResult = CropResult(stitch: Stitch, croppedImage: Image, croppedMask: Mask)

  /** The mask the context area is computed from: the working mask, widened by the optional context mask. */
  function ContextMask(mask: Mask, optionalContextMask: Option<Mask>): (r: Mask)
    requires optionalContextMask.Some? ==> SameShape(optionalContextMask.value, mask)
    ensures SameShape(r, mask)
    ensures optionalContextMask.Some? ==> InUnitRange(r)
    ensures optionalContextMask.None? ==> r == mask
  {
    match optionalContextMask
    case None => mask
    case Some(context) => ContextUnion(context, mask)
  }

  /**
   * With masks in [0, 1], a pixel of the context mask is non-zero exactly
   * when the working mask or the optional context mask is non-zero there, so
   * the context area is driven by both.
   */
  lemma ContextMaskNonZero(mask: Mask, optionalContextMask: Option<Mask>, i: int, j: int)
    requires optionalContextMask.Some? ==> SameShape(optionalContextMask.value, mask)
    requires InUnitRange(mask) && (optionalContextMask.Some? ==> InUnitRange(optionalContextMask.value))
    ensures NonZeroAt(ContextMask(mask, optionalContextMask), i, j) <==>
      NonZeroAt(mask, i, j) || (optionalContextMask.Some? && NonZeroAt(optionalContextMask.value, i, j))
  {
  }

  /**
   * The crop node: the cropped image and mask, both parts of the inputs whose
   * top-left corner is the descriptor's offset, and the descriptor holding the
   * whole original image. Which part is cut is stated by
   * InpaintCropPassThrough and InpaintCropCutsContextArea.
   */
  function InpaintCrop(image: Image, mask: Mask, optionalContextMask: Option<Mask>, p: CropParams): (r: CropResult)
    requires Rectangular(mask) && IsGrid(image, |mask|, Width(mask))
    requires optionalContextMask.Some? ==> SameShape(optionalContextMask.value, mask)
    ensures r.stitch.originalImage == image && r.stitch.croppedMask == r.croppedMask
    ensures IsCropAt(r.croppedImage, image, r.stitch.y, r.stitch.x)
    ensures IsCropAt(r.croppedMask, mask, r.stitch.y, r.stitch.x)
    ensures |r.croppedMask| == |r.croppedImage| && Width(r.croppedMask) == Width(r.croppedImage)
  {
    match ContextArea(ContextMask(mask, optionalContextMask), p)
    case None =>
      assert IsCropAt(image, image, 0, 0);
      assert IsCropAt(mask, mask, 0, 0);
      CropResult(Stitch(0, 0, image, mask), image, mask)
    case Some(b) =>
      CropTo(image, mask, b)
  }

  /**
   * The inclusive box `b` turned into the exclusive-end slice
   * [yMin, yMax + 1) x [xMin, xMax + 1) of image and mask, with the descriptor
   * that records its corner.
   */
  function CropTo(image: Image, mask: Mask, b: Box): (r: CropResult)
    requires Rectangular(mask) && IsGrid(image, |mask|, Width(mask))
    requires b.Within(|mask|, Width(mask))
    ensures r.stitch.x == b.xMin && r.stitch.y == b.yMin
    ensures IsGrid(r.croppedImage, b.Height(), b.Width()) && IsGrid(r.croppedMask, b.Height(), b.Width())
    ensures forall i, j :: 0 <= i < b.Height() && 0 <= j < b.Width() ==>
      r.croppedImage[i][j] == image[b.yMin + i][b.xMin + j] && r.croppedMask[i][j] == mask[b.yMin + i][b.xMin + j]
    ensures r.stitch.originalImage == image && r.stitch.croppedMask == r.croppedMask
    ensures IsCropAt(r.croppedImage, image, r.stitch.y, r.stitch.x)
    ensures IsCropAt(r.croppedMask, mask, r.stitch.y, r.stitch.x)
  {
    var croppedImage := Slice(image, b.yMin, b.yMax + 1, b.xMin, b.xMax + 1);
    var croppedMask := Slice(mask, b.yMin, b.yMax + 1, b.xMin, b.xMax + 1);
    SliceIsCrop(image, b.yMin, b.yMax + 1, b.xMin, b.xMax + 1);
    SliceIsCrop(mask, b.yMin, b.yMax + 1, b.xMin, b.xMax + 1);
    CropResult(Stitch(b.xMin, b.yMin, image, croppedMask), croppedImage, croppedMask)
  }

  /**
   * Without any non-zero pixel in the context mask, the image and the whole
   * mask pass through at offset (0, 0).
   */
  lemma InpaintCropPassThrough(image: Image, mask: Mask, optionalContextMask: Option<Mask>, p: CropParams)
    requires Rectangular(mask) && IsGrid(image, |mask|, Width(mask))
    requires optionalContextMask.Some? ==> SameShape(optionalContextMask.value, mask)
    requires !HasNonZero(ContextMask(mask, optionalContextMask))
    ensures InpaintCrop(image, mask, optionalContextMask, p) == CropResult(Stitch(0, 0, image, mask), image, mask)
  {
  }

  /**
   * Otherwise image and mask are cut to the context area: the descriptor's
   * offset is the area's top-left corner and the crops have the area's height
   * and width (so, by InpaintCrop's IsCropAt guarantees, pixel (i, j) of a crop
   * is pixel (yMin + i, xMin + j) of its input).
   */
  lemma InpaintCropCutsContextArea(image: Image, mask: Mask, optionalContextMask: Option<Mask>, p: CropParams)
    requires Rectangular(mask) && IsGrid(image, |mask|, Width(mask))
    requires optionalContextMask.Some? ==> SameShape(optionalContextMask.value, mask)
    requires HasNonZero(ContextMask(mask, optionalContextMask))
    ensures var b := ContextArea(ContextMask(mask, optionalContextMask), p).value;
      var r := InpaintCrop(image, mask, optionalContextMask, p);
      && r.stitch == Stitch(b.xMin, b.yMin, image, r.croppedMask)
      && IsGrid(r.croppedImage, b.Height(), b.Width()) && IsGrid(r.croppedMask, b.Height(), b.Width())
  {
    var b := ContextArea(ContextMask(mask, optionalContextMask), p).value;
    InpaintCropIsCropTo(image, mask, optionalContextMask, p, b);
  }

  lemma InpaintCropIsCropTo(image: Image, mask: Mask, optionalContextMask: Option<Mask>, p: CropParams, b: Box)
    requires Rectangular(mask) && IsGrid(image, |mask|, Width(mask))
    requires optionalContextMask.Some? ==> SameShape(optionalContextMask.value, mask)
    requires ContextArea(ContextMask(mask, optionalContextMask), p) == Some(b)
    ensures b.Within(|mask|, Width(mask))
    ensures InpaintCrop(image, mask, optionalContextMask, p) == CropTo(image, mask, b)
  {
  }
}
