# Inpaint crop and stitch, modelled in Dafny

This project models the two nodes of the inpainting helper
`inpaint_cropandstitch.py`. The crop node cuts a "context area" out of an
image around the masked pixels. The stitch node blends an inpainted version
of that crop back into the original image, at the recorded offset, weighted
by the cropped mask.

The crop node works in these steps:
1. It widens the working mask with the optional context mask, adding and
   clamping to [0, 1] pixel by pixel.
2. It takes the tight bounding box of the non-zero pixels.
3. It grows the box by `round(max(size * (factor - 1), pixels))` per axis,
   moving each side out by half of that, rounded down, clipped to the image.
4. If requested, it resizes the box, either by snapping each axis to the
   least preferred size larger than the tight extent, or by squaring it.
   When snapping, both axes can also be made square. The sizes are capped at
   the image dimension, and the box is recentred with
   `adjust_to_preferred_size`. When neither is requested, the grown box is
   final.
5. It slices image and mask, and records
   `{x: x_min, y: y_min, original_image, cropped_mask}`.

With no non-zero pixel, the image and the whole mask pass through at offset
(0, 0).

The stitch node clones the original image. It then runs `composite` with
multiplier 1:
- the offset is clamped and floor-divided by the multiplier;
- the region of the destination covered by the source is cut at the
  destination's edges;
- each covered pixel becomes `mask * source + (1 - mask) * destination`,
  written into the destination tensor in place.

Module layout:
- `basics.dfy`: `Wrappers` (Option) and `Ints` (min, max, clamp, and floor
  division facts).
- `grids.dfy`: `Grids`, with images and masks as nested sequences, slicing,
  mask inversion and the context-mask union.
- `sizes.dfy`: `Sizes`, the sorted preferred-size search.
- `geometry.dfy`: `Geometry`, with the recentring helper, the tight box,
  growing and the context area.
- `cropping.dfy`: `Cropping`, the crop node and its stitch descriptor.
- `compositing.dfy`: `Compositing`. It has the value-level specification
  `Composited` and the in-place `Composite` over an `array3`. It also holds
  the stitch node.
- `pipeline.dfy`: `CropAndStitch`, crop followed by stitch.

Python's `//` floors. Dafny's `/` is Euclidean, and the two agree for the
positive divisors used here. Python's one-argument `round` is modelled over
exact reals, with ties going to the even integer. The product it rounds is
exact here, not a 64-bit float (see "## Left out").

Both resize paths size the box from the tight extents `x_size` / `y_size`
of lines 127-128, not from the grown box:
- When no preferred size is larger, an axis keeps its tight extent
  (lines 142-145).
- The square-only path takes `max(x_size, y_size)` (line 157).

Both resize paths then recentre that size on the grown box (lines 153-155 and
162-163). The result can miss masked pixels on either path.
`Geometry.SquareOnlyPathCanMissMaskedPixels` shows an input where this
happens on the square-only path. On the snapping path, a 1 x 100 mask with
columns 0 and 1 set, expand pixels 6 and preferred sizes [3] grows to columns
0..4 and is recentred to columns 1..3.

## Model

| member | source | states |
|---|---|---|
| Grids.Slice | inpaint_cropandstitch.py:166-167 | the exclusive-end slice `g[top:bottom, left:right]` has `bottom-top` rows of `right-left` entries, and entry (i, j) is entry (top+i, left+j) of the input |
| Grids.SliceIsCrop | inpaint_cropandstitch.py:166-167 | a slice inside a rectangular grid is a crop of it at the slice's corner |
| Grids.Clamp01 | inpaint_cropandstitch.py:110 | `torch.clamp(v, 0, 1)` lies in [0, 1], is the identity on [0, 1], sends non-positive values to 0, and values of at least 1 to 1 |
| Grids.Invert | inpaint_cropandstitch.py:63-64 | `1.0 - mask` has the mask's shape, keeps [0, 1], and each value adds up with the original to 1 |
| Grids.InvertInvolutive | inpaint_cropandstitch.py:63-64 | inverting twice gives the mask back |
| Grids.ContextUnion | inpaint_cropandstitch.py:108-110 | the clamped sum has the mask's shape and lies in [0, 1]; for masks in [0, 1], a pixel is 0 exactly when it is 0 in both masks |
| Sizes.Insert | inpaint_cropandstitch.py:139 | inserting into an ascending list keeps it ascending and adds exactly that element |
| Sizes.SortAscending | inpaint_cropandstitch.py:139 | `list.sort()` gives an ascending permutation of its input |
| Sizes.FirstAbove | inpaint_cropandstitch.py:140-141 | `next(size for size in s if size > n)` is None exactly when no element exceeds n; otherwise it is an element above n, and the least one when s is ascending |
| Sizes.MinAbove | inpaint_cropandstitch.py:140-145 | reference definition: None exactly when no element exceeds n, else the least element above n |
| Sizes.SortedSearchIsLeastAbove | inpaint_cropandstitch.py:139-141 | sorting and then taking the first larger size equals the order-independent least larger size |
| Sizes.PreferredSize | inpaint_cropandstitch.py:139-145 | the size chosen per axis is at least the tight extent, and is the least larger preferred size, or the tight extent when there is none |
| Sizes.PreferredSizeExamples | inpaint_cropandstitch.py:139-145 | 300 snaps to 512 in [512, 128, 256]; 600 finds no larger size in [128, 256, 512] and stays 600 |
| Geometry.AdjustToPreferredSize | inpaint_cropandstitch.py:44-58 | for `1 <= preferred_size <= max_dimension` the window has exactly `preferred_size` positions and lies in [0, max_dimension) |
| Geometry.AdjustIsClampedCentre | inpaint_cropandstitch.py:44-58 | the window starts at the centred start `(min+max)//2 - size//2`, clamped to [0, max_dimension - size] |
| Geometry.AdjustKeepsCentreIffItFits | inpaint_cropandstitch.py:46-56 | the centred window is returned unchanged if and only if it already fits inside [0, max_dimension) |
| Geometry.AdjustExamples | inpaint_cropandstitch.py:44-58 | 100..200 with size 50 gives 125..174 in a dimension of 1000, and is pushed back to 90..139 in one of 140 |
| Geometry.Recentre | inpaint_cropandstitch.py:153-155 | recentring both axes gives a box of exactly the requested sizes inside the image, each axis starting at its clamped centred start |
| Geometry.FirstSet | inpaint_cropandstitch.py:119 | `torch.min` of the set indices: None exactly when no flag is set, else a set index with no set index before it |
| Geometry.LastSet | inpaint_cropandstitch.py:120 | `torch.max` of the set indices: None exactly when no flag is set, else a set index with no set index after it |
| Geometry.TightBox | inpaint_cropandstitch.py:112-122 | None exactly when the mask has no non-zero pixel; otherwise the box lies inside the mask, encloses every non-zero pixel, and each of its four sides passes through one |
| Geometry.BoundsOfFlags | inpaint_cropandstitch.py:119-122 | the first and last set row and column flags bound a box inside the mask that encloses every non-zero pixel and touches one on each side |
| Geometry.RoundHalfEven | inpaint_cropandstitch.py:129-130 | Python's `round`: within 0.5 of its argument, and even on a tie |
| Geometry.GrowAmount | inpaint_cropandstitch.py:129-130 | the grow amount is at least `context_expand_pixels` and within 0.5 of `max(size*(factor-1), pixels)` |
| Geometry.ExpandBox | inpaint_cropandstitch.py:131-134 | the grown box lies inside the image and contains the tight box; each side moves out by exactly half the grow amount unless the image edge stops it |
| Geometry.ContextArea | inpaint_cropandstitch.py:112-163 | the context area is None exactly when the context mask has no non-zero pixel, and otherwise lies inside the image |
| Geometry.AreaAround | inpaint_cropandstitch.py:127-163 | the area computed around a tight box, grown and then resized, always lies inside the image |
| Geometry.ResizeArea | inpaint_cropandstitch.py:136-163 | the snapping, square or unchanged grown box always lies inside the image |
| Geometry.ContextAreaPlainPath | inpaint_cropandstitch.py:127-134 | without snapping or squaring, the area contains the tight box and every masked pixel, and reaches at least `pixels // 2` beyond each side unless that side is at the edge |
| Geometry.ContextAreaSnapping | inpaint_cropandstitch.py:137-155 | with snapping, each extent is the least larger preferred size (or the tight extent), both the larger one when squaring, capped at the image dimension |
| Geometry.ContextAreaSquareOnly | inpaint_cropandstitch.py:156-163 | squaring alone gives both extents `max(x_size, y_size)` of the tight box, capped at the image dimension |
| Geometry.SquareOnlyPathCanMissMaskedPixels | inpaint_cropandstitch.py:156-163 | for the 1 x 5 mask `[1, 1, 0, 0, 0]`, expand pixels 6 and squaring, the context area is columns 1..2, leaving the masked pixel 0 outside |
| Cropping.ContextMask | inpaint_cropandstitch.py:105-110 | the context mask has the mask's shape; it is the mask itself without a context mask, and lies in [0, 1] with one |
| Cropping.ContextMaskNonZero | inpaint_cropandstitch.py:105-110 | for masks in [0, 1], a context-mask pixel is non-zero exactly when the mask or the optional context mask is non-zero there |
| Cropping.InpaintCrop | inpaint_cropandstitch.py:105-171 | both outputs are crops of their inputs at the descriptor's offset, of equal size; the descriptor holds the original image and the cropped mask |
| Cropping.CropTo | inpaint_cropandstitch.py:165-171 | the inclusive box becomes the slice `[y_min:y_max+1, x_min:x_max+1]` of image and mask, with offset (x_min, y_min) in the descriptor |
| Cropping.InpaintCropPassThrough | inpaint_cropandstitch.py:112-116 | with no non-zero context pixel the result is offset (0, 0), the original image and the whole mask |
| Cropping.InpaintCropCutsContextArea | inpaint_cropandstitch.py:165-171 | otherwise the descriptor's offset is the context area's top-left corner, and both crops have the area's height and width |
| Cropping.InpaintCropIsCropTo | inpaint_cropandstitch.py:165-171 | when there is a context area, the crop node cuts exactly that box |
| Compositing.Placement | inpaint_cropandstitch.py:204-208 | along one axis the covered range starts at `min(offset // m, dst)` and ends at `min(start + src, dst)`; the visible length cuts the source to exactly the destination range's length |
| Compositing.VisibleRegion | inpaint_cropandstitch.py:204-222 | the covered region lies inside the destination, starts at the floor-divided offset, and is cut at the destination's edge; the source and mask slices `[:visible_height, :visible_width]` have the region's size |
| Compositing.DivOfMin | inpaint_cropandstitch.py:204-207 | clamping the offset at `dst * m` and then dividing by m gives the same start as dividing first and clamping at dst |
| Compositing.Blend | inpaint_cropandstitch.py:223-228 | `w * s + (1 - w) * d` is d for weight 0 and s for weight 1, keeps a value that source and destination share, and lies between s and d for a weight in [0, 1] |
| Compositing.MaskWeight | inpaint_cropandstitch.py:210-211 | without a mask the weight is 1 (`torch.ones_like`); with a mask in [0, 1] it lies in [0, 1] |
| Compositing.BlendPixel | inpaint_cropandstitch.py:223-228 | the blended pixel has the destination pixel's channels |
| Compositing.Composited | inpaint_cropandstitch.py:204-228 | the composited image has the destination's shape |
| Compositing.CompositedKeepsOutside | inpaint_cropandstitch.py:226-228 | destination pixels outside the covered region are not changed |
| Compositing.CompositedBlendsInside | inpaint_cropandstitch.py:222-228 | each covered value becomes `m * src[r - top][c - left] + (1 - m) * dst[r][c]` |
| Compositing.CompositedZeroWeightKeeps | inpaint_cropandstitch.py:222-228 | a pixel where the mask is 0 is left unchanged |
| Compositing.CompositedZeroMaskIsIdentity | inpaint_cropandstitch.py:222-228 | a mask that is 0 everywhere leaves the whole destination as it was |
| Compositing.CompositedWithoutMaskCopies | inpaint_cropandstitch.py:210-211 | without a mask (ones), every covered pixel becomes the source pixel |
| Compositing.StitchUnchangedCropIsIdentity | inpaint_cropandstitch.py:204-228 | stitching a crop, unmodified, back at its offset with multiplier 1 gives the destination back, whatever the mask |
| Compositing.PrescribedIsComposited | inpaint_cropandstitch.py:222-228 | an image whose every value is the one `composite` prescribes is the composited image |
| Compositing.ToImage | inpaint_cropandstitch.py:228 | the destination array read as an image has the array's shape and values |
| Compositing.FromImage | inpaint_cropandstitch.py:236 | `clone()` gives a fresh array that holds the image |
| Compositing.BlendPixelInPlace | inpaint_cropandstitch.py:228 | one destination pixel is blended in place, all channels; nothing else changes |
| Compositing.BlendRowInPlace | inpaint_cropandstitch.py:228 | one row of the covered region is blended in place; nothing else changes |
| Compositing.Composite | inpaint_cropandstitch.py:197-229 | afterwards the destination array holds Composited of its old contents |
| Compositing.InpaintStitch | inpaint_cropandstitch.py:231-238 | the output is a fresh array holding the inpainted image composited with the cropped mask and multiplier 1 onto the original, at the recorded offset |
| CropAndStitch.CropIsShaped | inpaint_cropandstitch.py:166 | a crop of an image with c-channel pixels has c-channel pixels |
| CropAndStitch.CropThenStitchIsIdentity | inpaint_cropandstitch.py:105-171 | the crop node's output is a valid stitch input, and stitching the unchanged crop back reproduces the original image |

## Left out

- Mask growing, hole filling and blurring (`grey_dilation`, `binary_closing`, `binary_fill_holes`, `gaussian_filter`, lines 66-103) are foreign floating-point library calls. The crop node takes the mask after those stages.
- Bilinear resizing (`interpolate`, lines 200 and 214) is foreign floating-point code. The source is never resized, and the mask is taken to have the source's spatial size already.
- Batches and tensor plumbing are not modelled: devices, `movedim`, `reshape`, `repeat_to_batch_size` and the `[0]` batch selection. Images, masks and the destination are one batch element each.
- Node registration metadata (`INPUT_TYPES`, `RETURN_TYPES`, `CATEGORY`, `FUNCTION`) is user-interface code.
- Parsing the comma-separated `preferred_sizes` string with `int()` is not modelled. The sizes arrive as a list of integers.
- Sizes.SortAscending: the in-place `list.sort()` is modelled on values, as an ascending permutation.
- Compositing.VisibleRegion: negative offsets are not modelled. Python's negative-index slicing would then apply, and the stitch node never passes them. The model requires `x, y >= 0` and `multiplier >= 1`.
- Compositing.Composite: requires the source to have the destination's channel count. Torch also accepts a one-channel source and broadcasts it over the destination's channels; the model excludes that case. The mask is one weight per pixel, applied to every channel.
- Aliasing of tensors is not modelled. `cropped_image` and `cropped_mask` (lines 166-167) are views that share storage with `image` and `mask`, and in the pass-through case (lines 115-116) they are the same tensors. The model treats them as separate values.
- Geometry.GrowAmount: the product `size * (factor - 1)` is exact over reals, while the source computes it in 64-bit floating point. Near half-integer ties the two can round differently: for factor 1.1, extent 5 and pixels 0 the exact product is 0.5 and the model grows by 0, while in floating point it is slightly above 0.5 and the source grows by 1.
- Image and mask values are exact reals, not 32-bit floats. Rounding in products and sums is not modelled.
- The dict that stores the original image is a value. That it stays untouched is shown by `FromImage` returning a fresh array, not by aliasing reasoning.
