/**
 * Images and masks of one batch element.
 *
 * An image is a height x width grid of pixels, each pixel holding one value per
 * channel; a mask is a height x width grid of weights, 1 meaning "to be inpainted"
 * and 0 "untouched". Values are exact reals.
 */
module Grids {

  type Grid<T> = seq<seq<T>>

  /** The values of one pixel, one per channel. */
  type Pixel = seq<real>

  type Image = Grid<Pixel>

  type Mask = Grid<real>

  /** The number of columns of a grid, read from its first row. */
  function Width<T>(g: Grid<T>): nat
  {
    if |g| == 0 then 0 else |g[0]|
  }

  /** The number of channels of an image, read from its first pixel. */
  function Depth(img: Image): nat
  {
    if |img| == 0 || |img[0]| == 0 then 0 else |img[0][0]|
  }

  /** `g` has `h` rows of `w` entries each. */
  predicate IsGrid<T>(g: Grid<T>, h: nat, w: nat)
  {
    |g| == h && forall i :: 0 <= i < h ==> |g[i]| == w
  }

  /** All rows of `g` have the same length. */
  predicate Rectangular<T>(g: Grid<T>)
  {
    IsGrid(g, |g|, Width(g))
  }

  /** `img` is an h x w image whose pixels all have `c` channels. */
  predicate Shaped(img: Image, h: nat, w: nat, c: nat)
  {
    IsGrid(img, h, w) && forall i, j :: 0 <= i < h && 0 <= j < w ==> |img[i][j]| == c
  }

  /** `a` and `b` have the same number of rows, and row by row the same length. */
  predicate SameShape<T, U>(a: Grid<T>, b: Grid<U>)
  {
    |a| == |b| && forall i :: 0 <= i < |a| ==> |a[i]| == |b[i]|
  }

  /** `crop` is the part of `g` whose top-left corner is at row `top`, column `left`. */
  predicate IsCropAt<T(==)>(crop: Grid<T>, g: Grid<T>, top: int, left: int)
  {
    && Rectangular(g) && Rectangular(crop)
    && 0 <= top && top + |crop| <= |g|
    && 0 <= left && left + Width(crop) <= Width(g)
    && forall i, j :: 0 <= i < |crop| && 0 <= j < Width(crop) ==> crop[i][j] == g[top + i][left + j]
  }

  /**
   * Rows top..bottom-1 and columns left..right-1 of `g`: the exclusive-end slice
   * `g[top:bottom, left:right]` of a tensor whose bounds lie inside it.
   */
  function Slice<T>(g: Grid<T>, top: int, bottom: int, left: int, right: int): (r: Grid<T>)
    requires 0 <= top <= bottom <= |g| && 0 <= left <= right
    requires forall i :: top <= i < bottom ==> right <= |g[i]|
    ensures IsGrid(r, bottom - top, right - left)
    ensures forall i, j :: 0 <= i < bottom - top && 0 <= j < right - left ==> r[i][j] == g[top + i][left + j]
  {
    seq(bottom - top, i requires 0 <= i < bottom - top => g[top + i][left..right])
  }

  /** A slice of a rectangular grid taken inside its bounds is a crop of it at that corner. */
  lemma SliceIsCrop<T>(g: Grid<T>, top: int, bottom: int, left: int, right: int)
    requires Rectangular(g)
    requires 0 <= top < bottom <= |g| && 0 <= left <= right <= Width(g)
    ensures IsCropAt(Slice(g, top, bottom, left, right), g, top, left)
  {
    var r := Slice(g, top, bottom, left, right);
    assert Width(r) == right - left;
  }

  /** Every mask value lies in [0, 1]. */
  predicate InUnitRange(m: Mask)
  {
    forall i, j :: 0 <= i < |m| && 0 <= j < |m[i]| ==> 0.0 <= m[i][j] <= 1.0
  }

  /** `torch.clamp(v, 0.0, 1.0)` on one value. */
  function Clamp01(v: real): (r: real)
    ensures 0.0 <= r <= 1.0
    ensures 0.0 <= v <= 1.0 ==> r == v
    ensures v <= 0.0 ==> r == 0.0
    ensures v >= 1.0 ==> r == 1.0
  {
    if v < 0.0 then 0.0 else if v > 1.0 then 1.0 else v
  }

  /** `1.0 - mask`: the mask with the role of selected and untouched exchanged. */
  function Invert(m: Mask): (r: Mask)
    ensures SameShape(r, m)
    ensures InUnitRange(m) ==> InUnitRange(r)
    ensures forall i, j :: 0 <= i < |m| && 0 <= j < |m[i]| ==> r[i][j] + m[i][j] == 1.0
  {
    seq(|m|, i requires 0 <= i < |m| => seq(|m[i]|, j requires 0 <= j < |m[i]| => 1.0 - m[i][j]))
  }

  /** Inverting twice gives the mask back. */
  lemma InvertInvolutive(m: Mask)
    ensures Invert(Invert(m)) == m
  {
    var r := Invert(Invert(m));
    assert |r| == |m|;
    forall i | 0 <= i < |m|
      ensures r[i] == m[i]
    {
      assert |r[i]| == |m[i]|;
    }
  }

  /**
   * `torch.clamp(context + mask, 0.0, 1.0)`: the context mask widened by the
   * working mask, both of the same shape.
   */
  function ContextUnion(context: Mask, mask: Mask): (r: Mask)
    requires SameShape(context, mask)
    ensures SameShape(r, mask) && InUnitRange(r)
    ensures InUnitRange(context) && InUnitRange(mask) ==>
      forall i, j :: 0 <= i < |mask| && 0 <= j < |mask[i]| ==>
        (r[i][j] == 0.0 <==> context[i][j] == 0.0 && mask[i][j] == 0.0)
  {
    seq(|mask|, i requires 0 <= i < |mask| =>
      seq(|mask[i]|, j requires 0 <= j < |mask[i]| => Clamp01(context[i][j] + mask[i][j])))
  }
}
