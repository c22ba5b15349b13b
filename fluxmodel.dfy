/** The colour correction and masking that turn the two high-resolution bands into
    the flux model (`MrfTask.run`, steps 4 and 7).

    The extraction service's per-band flux images, the median colour, the
    colour-term power and the Gaussian-smoothed mask are inputs: they come from
    foreign code or floating-point statistics. */
module FluxModel {
  import opened Common
  import opened Pixels

  /** Step 4: the pixel-wise colour ratio `b / r`, with NaN and infinities replaced by 0 */
  function ColourRatio(b: Grid<Px>, r: Grid<Px>): (c: Grid<Px>)
    requires |b| == |r| && forall i :: 0 <= i < |b| ==> |b[i]| == |r[i]|
    ensures |c| == |b| && forall i :: 0 <= i < |b| ==> |c[i]| == |b[i]|
  {
    var raw := Combine(b, r, Div);
    Apply(raw, (p: Px) => if IsNaN(p) || IsInf(p) then Finite(0.0) else p)
  }

  /** The colour ratio holds only finite values; a finite quotient of finite fluxes
      is kept exactly, and every other pixel becomes 0 */
  lemma ColourRatioSanitised(b: Grid<Px>, r: Grid<Px>)
    requires |b| == |r| && forall i :: 0 <= i < |b| ==> |b[i]| == |r[i]|
    ensures AllFinite(ColourRatio(b, r))
    ensures forall i, j :: 0 <= i < |b| && 0 <= j < |b[i]| ==>
      ColourRatio(b, r)[i][j] ==
        (if b[i][j].Finite? && r[i][j].Finite? && r[i][j].v != 0.0 then Finite(b[i][j].v / r[i][j].v)
         else Finite(0.0))
  {
  }

  /** Step 4: the colour ratio over its median, with values outside [0.1, 10] forced to 1 */
  function FluxRatio(col: Grid<Px>, median: Px): (f: Grid<Px>)
    ensures |f| == |col| && forall i :: 0 <= i < |col| ==> |f[i]| == |col[i]|
  {
    var q := Apply(col, (p: Px) => Div(p, median));
    Apply(q, (p: Px) => if Less(p, 0.1) || Greater(p, 10.0) then Finite(1.0) else p)
  }

  /** With a finite nonzero median and a sanitised colour ratio, every flux ratio lies
      in [0.1, 10]; a pixel whose colour ratio was zeroed gets exactly 1; a quotient
      inside the window is kept */
  lemma FluxRatioBounded(col: Grid<Px>, median: real)
    requires median != 0.0
    requires AllFinite(col)
    ensures var f := FluxRatio(col, Finite(median));
      forall i, j :: 0 <= i < |col| && 0 <= j < |col[i]| ==>
        && f[i][j].Finite? && 0.1 <= f[i][j].v <= 10.0
        && (col[i][j].v == 0.0 ==> f[i][j] == Finite(1.0))
        && (0.1 <= col[i][j].v / median <= 10.0 ==> f[i][j] == Finite(col[i][j].v / median))
  {
  }

  /** When the median is NaN (no nonzero colour pixel), every flux ratio is NaN:
      the clamp compares NaN as false and leaves it in place */
  lemma FluxRatioOfNaNMedian(col: Grid<Px>)
    ensures var f := FluxRatio(col, NaN);
      forall i, j :: 0 <= i < |col| && 0 <= j < |col[i]| ==> f[i][j].NaN?
  {
  }

  datatype BandError = BandNotGOrR

  /** Step 4: apply the colour correction to the band the low-resolution image was taken in;
      any band other than "g" or "r" raises `ValueError` */
  function CorrectedImage(band: string, hiresB: Grid<Px>, hiresR: Grid<Px>, correction: Grid<Px>)
    : (r: Result<Grid<Px>, BandError>)
    requires |hiresB| == |hiresR| == |correction|
    requires forall i :: 0 <= i < |correction| ==> |hiresB[i]| == |hiresR[i]| == |correction[i]|
    ensures r.Ok? <==> band == "g" || band == "r"
    ensures r.Ok? ==> |r.value| == |correction| && forall i :: 0 <= i < |correction| ==> |r.value[i]| == |correction[i]|
    ensures band == "r" ==> r.Ok? && forall i, j :: 0 <= i < |hiresR| && 0 <= j < |hiresR[i]| ==>
      r.value[i][j] == Mul(hiresR[i][j], correction[i][j])
    ensures band == "g" ==> r.Ok? && forall i, j :: 0 <= i < |hiresB| && 0 <= j < |hiresB[i]| ==>
      r.value[i][j] == Mul(hiresB[i][j], correction[i][j])
  {
    if band == "r" then Ok(Combine(hiresR, correction, Mul))
    else if band == "g" then Ok(Combine(hiresB, correction, Mul))
    else Err(BandNotGOrR)
  }

  /** Step 7: `seg * (col_ratio != 0)`, then every nonzero entry set to 1 */
  function BinaryMask(seg: Grid<int>, col: Grid<Px>): (m: Grid<int>)
    requires |seg| == |col| && forall i :: 0 <= i < |seg| ==> |seg[i]| == |col[i]|
    ensures |m| == |seg| && forall i :: 0 <= i < |seg| ==> |m[i]| == |seg[i]|
  {
    var product := Combine(seg, col, (s: int, c: Px) => s * (if NonZero(c) then 1 else 0));
    Apply(product, (x: int) => if x != 0 then 1 else x)
  }

  /** The mask is binary, and it is 1 exactly where the segmentation map is nonzero
      and the colour ratio is nonzero */
  lemma BinaryMaskSpec(seg: Grid<int>, col: Grid<Px>)
    requires |seg| == |col| && forall i :: 0 <= i < |seg| ==> |seg[i]| == |col[i]|
    ensures forall i, j :: 0 <= i < |seg| && 0 <= j < |seg[i]| ==>
      (BinaryMask(seg, col)[i][j] == 0 || BinaryMask(seg, col)[i][j] == 1) &&
      (BinaryMask(seg, col)[i][j] == 1 <==> seg[i][j] != 0 && NonZero(col[i][j]))
  {
  }

  /** Step 7: the flux model is the corrected image multiplied by the grown mask
      (`mask_conv >= gaussian_threshold`), with NaN then replaced by 0 */
  function MaskedFluxModel(hires: Grid<Px>, maskConv: Grid<real>, threshold: real): (f: Grid<Px>)
    requires |hires| == |maskConv| && forall i :: 0 <= i < |hires| ==> |hires[i]| == |maskConv[i]|
    ensures |f| == |hires| && forall i :: 0 <= i < |hires| ==> |f[i]| == |hires[i]|
  {
    var segMask := Apply(maskConv, (x: real) => x >= threshold);
    var product := Combine(segMask, hires, (g: bool, p: Px) => Mul(FromBool(g), p));
    Apply(product, (p: Px) => if IsNaN(p) then Finite(0.0) else p)
  }

  /** The flux model has no NaN; it is 0 outside the grown mask; inside, it keeps every
      finite pixel of the corrected image, and an infinite one survives */
  lemma MaskedFluxModelSpec(hires: Grid<Px>, maskConv: Grid<real>, threshold: real)
    requires |hires| == |maskConv| && forall i :: 0 <= i < |hires| ==> |hires[i]| == |maskConv[i]|
    ensures NoNaN(MaskedFluxModel(hires, maskConv, threshold))
    ensures forall i, j :: 0 <= i < |hires| && 0 <= j < |hires[i]| ==>
      var f := MaskedFluxModel(hires, maskConv, threshold)[i][j];
      && (maskConv[i][j] < threshold ==> f == Finite(0.0))
      && (maskConv[i][j] >= threshold && hires[i][j].Finite? ==> f == hires[i][j])
      && (maskConv[i][j] >= threshold && hires[i][j].NaN? ==> f == Finite(0.0))
      && (maskConv[i][j] >= threshold && hires[i][j].Inf? ==> f == hires[i][j])
  {
    forall i, j | 0 <= i < |hires| && 0 <= j < |hires[i]| {
      MulByBool(maskConv[i][j] >= threshold, hires[i][j]);
    }
  }

  /** Without infinities in the corrected image, the flux model is entirely finite */
  lemma MaskedFluxModelFinite(hires: Grid<Px>, maskConv: Grid<real>, threshold: real)
    requires |hires| == |maskConv| && forall i :: 0 <= i < |hires| ==> |hires[i]| == |maskConv[i]|
    requires NoInf(hires)
    ensures AllFinite(MaskedFluxModel(hires, maskConv, threshold))
  {
    MaskedFluxModelSpec(hires, maskConv, threshold);
  }
}
