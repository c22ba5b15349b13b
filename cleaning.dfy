/** The masks that blank artefacts in the final images: the binarised model mask and
    the bright-star mask of `MrfTask.run` (step 12), the stitched mask of `_stitch`, and
    the final `image * ~mask` of both the single-frame and the tile-mode pipelines.

    The Gaussian and box convolutions and `bright_star_mask` are foreign: their
    outputs are inputs here. */
module Cleaning {
  import opened Pixels

  predicate SameShape<A, B>(g: Grid<A>, h: Grid<B>) {
    |g| == |h| && forall i :: 0 <= i < |g| ==> |g[i]| == |h[i]|
  }

  // ---------------------------------------------------------------------------
  // The smoothed model mask

  /** `model_mask[model_mask < threshold] = 0` followed by `model_mask[model_mask != 0] = 1` */
  function BinariseModelMask(m: Grid<Px>, threshold: real): (r: Grid<Px>)
    ensures SameShape(r, m)
  {
    var cut := Apply(m, (p: Px) => if Less(p, threshold) then Finite(0.0) else p);
    Apply(cut, (p: Px) => if NonZero(p) then Finite(1.0) else p)
  }

  /** The binarised mask is 1 exactly where the smoothed mask is not below the threshold
      and not zero (a NaN pixel compares as neither, so it becomes 1), and 0 elsewhere */
  lemma BinariseModelMaskSpec(m: Grid<Px>, threshold: real)
    ensures var r := BinariseModelMask(m, threshold);
      forall i, j :: 0 <= i < |m| && 0 <= j < |m[i]| ==>
        r[i][j] == FromBool(!Less(m[i][j], threshold) && NonZero(m[i][j]))
  {
  }

  /** With a threshold of at most 1, binarising a binarised mask changes nothing */
  lemma BinariseModelMaskIdempotent(m: Grid<Px>, threshold: real)
    requires threshold <= 1.0
    ensures BinariseModelMask(BinariseModelMask(m, threshold), threshold) == BinariseModelMask(m, threshold)
  {
    var once := BinariseModelMask(m, threshold);
    var twice := BinariseModelMask(once, threshold);
    BinariseModelMaskSpec(m, threshold);
    BinariseModelMaskSpec(once, threshold);
    forall i | 0 <= i < |m| ensures twice[i] == once[i] {
      assert forall j :: 0 <= j < |m[i]| ==> twice[i][j] == once[i][j];
    }
  }

  // ---------------------------------------------------------------------------
  // The smoothed bright-star mask

  /** `totmask[totmask > 0] = 1` */
  function ThresholdPositive(t: Grid<Px>): (r: Grid<Px>)
    ensures SameShape(r, t)
  {
    Apply(t, (p: Px) => if Greater(p, 0.0) then Finite(1.0) else p)
  }

  /** Positive pixels (and +inf) become 1; every other pixel, NaN and negatives
      included, is kept; and no pixel changes its truth value */
  lemma ThresholdPositiveSpec(t: Grid<Px>)
    ensures var r := ThresholdPositive(t);
      forall i, j :: 0 <= i < |t| && 0 <= j < |t[i]| ==>
        && r[i][j] == (if Greater(t[i][j], 0.0) then Finite(1.0) else t[i][j])
        && (Truthy(r[i][j]) <==> Truthy(t[i][j]))
  {
  }

  lemma ThresholdPositiveIdempotent(t: Grid<Px>)
    ensures ThresholdPositive(ThresholdPositive(t)) == ThresholdPositive(t)
  {
    var once := ThresholdPositive(t);
    var twice := ThresholdPositive(once);
    forall i | 0 <= i < |t| ensures twice[i] == once[i] {
      assert forall j :: 0 <= j < |t[i]| ==> twice[i][j] == once[i][j];
    }
  }

  // ---------------------------------------------------------------------------
  // Blanking

  /** `img * (~mask.astype(bool))`: the image times the negated truth value of the mask */
  function BlankMasked(img: Grid<Px>, mask: Grid<Px>): (r: Grid<Px>)
    requires SameShape(img, mask)
    ensures SameShape(r, img)
  {
    Combine(img, mask, (p: Px, m: Px) => Mul(p, FromBool(!Truthy(m))))
  }

  /** Where the mask is unset the image is kept; where it is set a finite pixel becomes
      0, and NaN or an infinity becomes NaN (0 times either is NaN) */
  lemma BlankMaskedSpec(img: Grid<Px>, mask: Grid<Px>)
    requires SameShape(img, mask)
    ensures var r := BlankMasked(img, mask);
      forall i, j :: 0 <= i < |img| && 0 <= j < |img[i]| ==>
        r[i][j] == (if !Truthy(mask[i][j]) then img[i][j]
                    else if img[i][j].Finite? then Finite(0.0) else NaN)
  {
    var r := BlankMasked(img, mask);
    forall i, j | 0 <= i < |img| && 0 <= j < |img[i]|
      ensures r[i][j] == (if !Truthy(mask[i][j]) then img[i][j]
                          else if img[i][j].Finite? then Finite(0.0) else NaN)
    {
      MulByBool(!Truthy(mask[i][j]), img[i][j]);
      assert Mul(img[i][j], FromBool(!Truthy(mask[i][j]))) == Mul(FromBool(!Truthy(mask[i][j])), img[i][j]);
    }
  }

  /** Blanking twice with one mask is blanking once */
  lemma BlankMaskedIdempotent(img: Grid<Px>, mask: Grid<Px>)
    requires SameShape(img, mask)
    ensures BlankMasked(BlankMasked(img, mask), mask) == BlankMasked(img, mask)
  {
    var once := BlankMasked(img, mask);
    var twice := BlankMasked(once, mask);
    BlankMaskedSpec(img, mask);
    BlankMaskedSpec(once, mask);
    forall i | 0 <= i < |img| ensures twice[i] == once[i] {
      assert forall j :: 0 <= j < |img[i]| ==> twice[i][j] == once[i][j];
    }
  }

  /** Setting the positive pixels of the bright-star mask to 1 has no effect on the
      blanked image: only the mask's truth values matter */
  lemma ThresholdDoesNotChangeBlanking(img: Grid<Px>, t: Grid<Px>)
    requires SameShape(img, t)
    ensures BlankMasked(img, ThresholdPositive(t)) == BlankMasked(img, t)
  {
    var a := BlankMasked(img, ThresholdPositive(t));
    var b := BlankMasked(img, t);
    ThresholdPositiveSpec(t);
    BlankMaskedSpec(img, ThresholdPositive(t));
    BlankMaskedSpec(img, t);
    forall i | 0 <= i < |img| ensures a[i] == b[i] {
      assert forall j :: 0 <= j < |img[i]| ==> a[i][j] == b[i][j];
    }
  }

  // ---------------------------------------------------------------------------
  // The stitched mask

  /** `(data > 0).astype(float)` on the co-added mask */
  function StitchedMask(d: Grid<Px>): (r: Grid<Px>)
    ensures SameShape(r, d)
  {
    Apply(d, (p: Px) => FromBool(Greater(p, 0.0)))
  }

  /** The stitched mask is 1 exactly where some tile's mask contributed a positive sum,
      0 elsewhere (NaN included), and thresholding it again changes nothing */
  lemma StitchedMaskSpec(d: Grid<Px>)
    ensures var r := StitchedMask(d);
      && (forall i, j :: 0 <= i < |d| && 0 <= j < |d[i]| ==>
            (r[i][j] == Finite(1.0) <==> Greater(d[i][j], 0.0)) && (r[i][j] == Finite(0.0) <==> !Greater(d[i][j], 0.0)))
      && StitchedMask(r) == r
  {
    var r := StitchedMask(d);
    var rr := StitchedMask(r);
    forall i | 0 <= i < |d| ensures rr[i] == r[i] {
      assert forall j :: 0 <= j < |d[i]| ==> rr[i][j] == r[i][j];
    }
  }

  /** The tile-mode result `img * ~msk` with `msk` the stitched mask as booleans: a
      pixel survives exactly where the co-added mask was not positive */
  lemma FinalImageOfStitch(img: Grid<Px>, d: Grid<Px>)
    requires SameShape(img, d)
    ensures var r := BlankMasked(img, StitchedMask(d));
      forall i, j :: 0 <= i < |img| && 0 <= j < |img[i]| ==>
        r[i][j] == (if !Greater(d[i][j], 0.0) then img[i][j]
                    else if img[i][j].Finite? then Finite(0.0) else NaN)
  {
    BlankMaskedSpec(img, StitchedMask(d));
  }
}
