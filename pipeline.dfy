/**
 * The two nodes together: what the crop node hands over is a valid input of
 * the stitch node, and an inpainting step that changes nothing makes the
 * whole pipeline the identity.
 */
module CropAndStitch {
  import opened Wrappers
  import opened Grids
  import opened Geometry
  import opened Cropping
  import opened Compositing

  /** A crop of an image whose pixels all have `c` channels has pixels of `c` channels too. */
  lemma CropIsShaped(crop: Image, image: Image, top: int, left: int, c: nat)
    requires IsCropAt(crop, image, top, left)
    requires Shaped(image, |image|, Width(image), c)
    ensures Shaped(crop, |crop|, Width(crop), c)
  {
    forall i, j | 0 <= i < |crop| && 0 <= j < Width(crop)
      ensures |crop[i][j]| == c
    {
      assert crop[i][j] == image[top + i][left + j];
    }
  }

  lemma {:induction false} CropThenStitchIsIdentity(image: Image, mask: Mask, optionalContextMask: Option<Mask>, p: CropParams)
    requires Rectangular(mask) && Shaped(image, |mask|, Width(mask), Depth(image))
    requires optionalContextMask.Some? ==> SameShape(optionalContextMask.value, mask)
    ensures var r := InpaintCrop(image, mask, optionalContextMask, p);
      && r.stitch.x >= 0 && r.stitch.y >= 0
      && Compatible(r.stitch.originalImage, r.croppedImage, Some(r.stitch.croppedMask))
      && Composited(r.stitch.originalImage, r.croppedImage, r.stitch.x, r.stitch.y, Some(r.stitch.croppedMask), 1) == image
  {
    var r := InpaintCrop(image, mask, optionalContextMask, p);
    assert Width(image) == Width(mask);
    CropIsShaped(r.croppedImage, image, r.stitch.y, r.stitch.x, Depth(image));
    StitchUnchangedCropIsIdentity(image, r.croppedImage, r.stitch.x, r.stitch.y, Some(r.stitch.croppedMask));
  }
}
