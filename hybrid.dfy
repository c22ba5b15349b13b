/** The hybrid wide-angle PSF of `_subtract_widePSF`: the stacked PSF inside the hybrid
    radius, spliced into a 501-pixel model PSF, then normalised twice.

    The model PSF image (`drawImage` of the aureole), the aperture mask of
    `CircularAperture` and the annulus fluxes of `compute_Rnorm` are foreign results
    and so inputs. The NaN that marks the pixels outside the aperture is tracked by
    position: a pixel of the embedded window whose aperture mask is 0. */
module Hybrid {
  import opened Common
  import opened Pixels
  import opened Grids

  /** `psf_size` */
  const PsfSize: nat := 501

  /** `outer_cen = int(psf_size / 2)` */
  const OuterCentre: nat := PsfSize / 2

  /** Why the splice gives no usable PSF: assigning the stacked PSF to a window of another
      shape raises `ValueError`; a zero sum or a zero outer annulus flux makes numpy divide
      by zero, which the model does not follow further */
  datatype SpliceError = WindowShapeMismatch | Degenerate

  /** First row (or column) of the embedded window: `outer_cen - inner_cen` */
  function WinStart(n: nat): int { OuterCentre - n / 2 }

  /** The slice `[outer_cen - inner_cen : outer_cen + inner_cen + 1]` has the stacked
      PSF's extent `n` */
  predicate AxisFits(n: nat) {
    SliceLength(WinStart(n), OuterCentre + n / 2 + 1, PsfSize) == n
  }

  /** The window fits exactly when the stacked PSF's side is odd and at most 501 */
  lemma AxisFitsIff(n: nat)
    ensures AxisFits(n) <==> n % 2 == 1 && n <= PsfSize
    ensures AxisFits(n) ==> 0 <= WinStart(n) && WinStart(n) + n <= PsfSize
  {
    if n % 2 == 1 && n <= PsfSize {
      assert WinStart(n) + n == OuterCentre + n / 2 + 1;
    }
  }

  predicate InWindow(i: int, j: int, ny: nat, nx: nat) {
    WinStart(ny) <= i < WinStart(ny) + ny && WinStart(nx) <= j < WinStart(nx) + nx
  }

  /** What the splice is built from: the stacked PSF (`median_psf`, `ny x nx`), the pixels
      of it outside the hybrid radius (`aper.to_image(inner_size) == 0`), the model PSF
      image and the annulus fluxes `flux_inn` and `flux_out` */
  datatype Parts = Parts(median: Grid<real>, outside: Grid<bool>, outer: Grid<real>,
                         fluxInn: real, fluxOut: real, ny: nat, nx: nat)

  /** The shapes the source produces: the stacked PSF and its aperture mask agree, and
      the model PSF is 501 x 501 */
  predicate WellShaped(p: Parts) {
    Shaped(p.median, p.ny, p.nx) && Shaped(p.outside, p.ny, p.nx) && Shaped(p.outer, PsfSize, PsfSize)
  }

  /** The window fits and no division by zero occurs before the splice is complete */
  predicate Usable(p: Parts) {
    WellShaped(p) && AxisFits(p.ny) && AxisFits(p.nx)
    && GridSum(p.median) != 0.0 && GridSum(p.outer) != 0.0 && p.fluxOut != 0.0
  }

  lemma UsableWindow(p: Parts)
    requires Usable(p)
    ensures 0 <= WinStart(p.ny) && WinStart(p.ny) + p.ny <= PsfSize
    ensures 0 <= WinStart(p.nx) && WinStart(p.nx) + p.nx <= PsfSize
  {
    AxisFitsIff(p.ny);
    AxisFitsIff(p.nx);
  }

  /** Pixel (i, j) of the new PSF lies in the embedded window, inside the hybrid radius */
  predicate Core(p: Parts, i: int, j: int)
    requires Usable(p)
  {
    UsableWindow(p);
    InWindow(i, j, p.ny, p.nx) && !p.outside[i - WinStart(p.ny)][j - WinStart(p.nx)]
  }

  /** Pixel (i, j) lies in the embedded window, outside the hybrid radius (set to NaN) */
  predicate Hole(p: Parts, i: int, j: int)
    requires Usable(p)
  {
    UsableWindow(p);
    InWindow(i, j, p.ny, p.nx) && p.outside[i - WinStart(p.ny)][j - WinStart(p.nx)]
  }

  /** `inner_psf` at pixel (i, j) of the new PSF: the stacked PSF normalised to sum 1 */
  function InnerAt(p: Parts, i: int, j: int): real
    requires Usable(p) && InWindow(i, j, p.ny, p.nx)
  {
    UsableWindow(p);
    p.median[i - WinStart(p.ny)][j - WinStart(p.nx)] * (1.0 / GridSum(p.median))
  }

  /** `temp / scale_factor` at pixel (i, j): the model PSF normalised to sum 1, divided by
      `flux_out / flux_inn` (a zero `flux_inn` makes the factor infinite, and the
      quotient 0, as written here) */
  function OuterAt(p: Parts, i: int, j: int): real
    requires Usable(p) && 0 <= i < PsfSize && 0 <= j < PsfSize
  {
    p.outer[i][j] * (1.0 / GridSum(p.outer)) * (p.fluxInn / p.fluxOut)
  }

  /** The spliced PSF at pixel (i, j), before either normalisation */
  function SplicedAt(p: Parts, i: int, j: int): real
    requires Usable(p) && 0 <= i < PsfSize && 0 <= j < PsfSize
  {
    if Core(p, i, j) then InnerAt(p, i, j) else OuterAt(p, i, j)
  }

  /** The spliced PSF before either normalisation: inside the embedded window and inside
      the hybrid radius, the stacked PSF normalised to sum 1; everywhere else, the model
      PSF normalised to sum 1 and divided by the scale factor */
  function Spliced(p: Parts): (g: Grid<real>)
    requires Usable(p)
    ensures Shaped(g, PsfSize, PsfSize)
    ensures forall i, j :: 0 <= i < PsfSize && 0 <= j < PsfSize ==> g[i][j] == SplicedAt(p, i, j)
  {
    seq(PsfSize, i requires 0 <= i < PsfSize => seq(PsfSize, j requires 0 <= j < PsfSize => SplicedAt(p, i, j)))
  }

  /** `new_psf /= np.sum(new_psf)`, then `new_psf *= target / np.sum(new_psf[window])` */
  function Renormalise(s: Grid<real>, target: real, top: nat, left: nat, ny: nat, nx: nat)
    : (r: Result<Grid<real>, SpliceError>)
    requires top + ny <= |s| && forall i :: top <= i < top + ny ==> left + nx <= |s[i]|
    ensures r.Ok? ==> |r.value| == |s| && forall i :: 0 <= i < |s| ==> |r.value[i]| == |s[i]|
  {
    var total := GridSum(s);
    if total == 0.0 then Err(Degenerate)
    else
      var normalised := Scaled(s, 1.0 / total);
      var core := WindowSum(normalised, top, left, ny, nx);
      if core == 0.0 then Err(Degenerate)
      else Ok(Scaled(normalised, target / core))
  }

  /** After renormalisation the window carries exactly the target flux */
  lemma RenormaliseWindowSum(s: Grid<real>, target: real, top: nat, left: nat, ny: nat, nx: nat)
    requires top + ny <= |s| && forall i :: top <= i < top + ny ==> left + nx <= |s[i]|
    requires Renormalise(s, target, top, left, ny, nx).Ok?
    ensures WindowSum(Renormalise(s, target, top, left, ny, nx).value, top, left, ny, nx) == target
  {
    var normalised := Scaled(s, 1.0 / GridSum(s));
    var w := WindowSum(normalised, top, left, ny, nx);
    var factor := target / w;
    DivCancels(target, w, factor);
    WindowSumScaled(normalised, factor, top, left, ny, nx);
  }

  lemma DivCancels(t: real, w: real, f: real)
    requires w != 0.0 && f == t / w
    ensures f * w == t
  {
  }

  lemma QuotientNonZero(t: real, d: real)
    requires t != 0.0 && d != 0.0
    ensures t / d != 0.0
  {
  }

  lemma ProductNonZero(a: real, b: real)
    requires a != 0.0 && b != 0.0
    ensures a * b != 0.0
  {
  }

  /** The single factor the two renormalisation steps amount to */
  function OverallFactor(s: Grid<real>, target: real, top: nat, left: nat, ny: nat, nx: nat): real
    requires top + ny <= |s| && forall i :: top <= i < top + ny ==> left + nx <= |s[i]|
    requires GridSum(s) != 0.0 && WindowSum(Scaled(s, 1.0 / GridSum(s)), top, left, ny, nx) != 0.0
  {
    var a := 1.0 / GridSum(s);
    a * (target / WindowSum(Scaled(s, a), top, left, ny, nx))
  }

  /** Renormalisation is one uniform scaling, by a nonzero factor when the target is
      nonzero: the relative profile survives both steps */
  lemma RenormaliseIsScaling(s: Grid<real>, target: real, top: nat, left: nat, ny: nat, nx: nat)
    requires top + ny <= |s| && forall i :: top <= i < top + ny ==> left + nx <= |s[i]|
    requires Renormalise(s, target, top, left, ny, nx).Ok?
    ensures Renormalise(s, target, top, left, ny, nx).value == Scaled(s, OverallFactor(s, target, top, left, ny, nx))
    ensures target != 0.0 ==> OverallFactor(s, target, top, left, ny, nx) != 0.0
  {
    var a := 1.0 / GridSum(s);
    var core := WindowSum(Scaled(s, a), top, left, ny, nx);
    var b := target / core;
    assert Renormalise(s, target, top, left, ny, nx).value == Scaled(Scaled(s, a), b);
    ScaledScaled(s, a, b);
    assert OverallFactor(s, target, top, left, ny, nx) == a * b;
    if target != 0.0 {
      QuotientNonZero(1.0, GridSum(s));
      QuotientNonZero(target, core);
      ProductNonZero(a, b);
    }
  }

  /** The hybrid PSF: the spliced PSF divided by its sum, then multiplied so that the
      embedded window carries the stacked PSF's total */
  function HybridPsf(p: Parts): (r: Result<Grid<real>, SpliceError>)
    requires WellShaped(p)
    ensures r.Ok? ==> Shaped(r.value, PsfSize, PsfSize)
    ensures r == Err(WindowShapeMismatch) <==> !(p.ny % 2 == 1 && p.ny <= PsfSize && p.nx % 2 == 1 && p.nx <= PsfSize)
  {
    AxisFitsIff(p.ny);
    AxisFitsIff(p.nx);
    if !AxisFits(p.ny) || !AxisFits(p.nx) then Err(WindowShapeMismatch)
    else if GridSum(p.median) == 0.0 || GridSum(p.outer) == 0.0 || p.fluxOut == 0.0 then Err(Degenerate)
    else Renormalise(Spliced(p), GridSum(p.median), WinStart(p.ny), WinStart(p.nx), p.ny, p.nx)
  }

  // ---------------------------------------------------------------------------
  // The splice as the source performs it, in place on the new PSF

  /** The array's contents as an image */
  function Contents(a: array2<real>): (g: Grid<real>)
    reads a
    ensures Shaped(g, a.Length0, a.Length1)
    ensures forall i, j :: 0 <= i < a.Length0 && 0 <= j < a.Length1 ==> g[i][j] == a[i, j]
  {
    seq(a.Length0, i requires 0 <= i < a.Length0 reads a =>
      seq(a.Length1, j requires 0 <= j < a.Length1 reads a => a[i, j]))
  }

  /** One element-wise in-place update of the array (`a[mask] = ...`, `a += ...`, `a /= s`) */
  method UpdateInPlace(a: array2<real>, f: (int, int, real) -> real)
    modifies a
    ensures forall i, j :: 0 <= i < a.Length0 && 0 <= j < a.Length1 ==> a[i, j] == f(i, j, old(a[i, j]))
  {
    var i := 0;
    while i < a.Length0
      invariant 0 <= i <= a.Length0
      invariant forall r, c :: 0 <= r < a.Length0 && 0 <= c < a.Length1 ==>
        a[r, c] == if r < i then f(r, c, old(a[r, c])) else old(a[r, c])
    {
      var j := 0;
      while j < a.Length1
        invariant 0 <= j <= a.Length1
        invariant forall r, c :: 0 <= r < a.Length0 && 0 <= c < a.Length1 ==>
          a[r, c] == if r < i || (r == i && c < j) then f(r, c, old(a[r, c])) else old(a[r, c])
      {
        a[i, j] := f(i, j, a[i, j]);
        j := j + 1;
      }
      i := i + 1;
    }
  }

  /** Lines building `new_psf`: embed the normalised stacked PSF (NaN outside the hybrid
      radius), fill the NaN from the scaled model PSF, then add the scaled model PSF with
      its window zeroed */
  method Splice(p: Parts) returns (psf: array2<real>)
    requires Usable(p)
    ensures fresh(psf) && psf.Length0 == PsfSize && psf.Length1 == PsfSize
    ensures Contents(psf) == Spliced(p)
  {
    // new_psf[window] = inner_psf, whose pixels outside the aperture are NaN
    psf := new real[PsfSize, PsfSize]((i, j) =>
      if 0 <= i < PsfSize && 0 <= j < PsfSize && Core(p, i, j) then InnerAt(p, i, j) else 0.0);
    // new_psf[isnan(new_psf)] = temp[isnan(new_psf)] / scale_factor
    UpdateInPlace(psf, (i, j, x) =>
      if 0 <= i < PsfSize && 0 <= j < PsfSize && Hole(p, i, j) then OuterAt(p, i, j) else x);
    // temp[window] = 0; new_psf += temp / scale_factor
    UpdateInPlace(psf, (i, j, x) =>
      if 0 <= i < PsfSize && 0 <= j < PsfSize && !InWindow(i, j, p.ny, p.nx) then x + OuterAt(p, i, j) else x + 0.0);
    SameContents(psf, Spliced(p));
  }

  /** `new_psf /= np.sum(new_psf)` and `new_psf *= target / np.sum(new_psf[window])`, in place */
  method RenormaliseInPlace(psf: array2<real>, target: real, top: nat, left: nat, ny: nat, nx: nat)
    returns (r: Result<Grid<real>, SpliceError>)
    requires top + ny <= psf.Length0 && left + nx <= psf.Length1
    modifies psf
    ensures r == Renormalise(old(Contents(psf)), target, top, left, ny, nx)
    ensures r.Ok? ==> Contents(psf) == r.value
  {
    ghost var before := Contents(psf);
    var total := GridSum(Contents(psf));
    if total == 0.0 {
      return Err(Degenerate);
    }
    ScaleInPlace(psf, 1.0 / total);
    ghost var normalised := Contents(psf);
    var core := WindowSum(Contents(psf), top, left, ny, nx);
    if core == 0.0 {
      return Err(Degenerate);
    }
    var factor := target / core;
    ScaleInPlace(psf, factor);
    r := Ok(Contents(psf));
  }

  /** `a *= k` on the whole array */
  method ScaleInPlace(a: array2<real>, k: real)
    modifies a
    ensures Contents(a) == Scaled(old(Contents(a)), k)
  {
    ghost var before := Contents(a);
    UpdateInPlace(a, (i, j, x) => x * k);
    SameContents(a, Scaled(before, k));
  }

  /** Contents equal to an image of the same shape, pixel by pixel, are that image */
  lemma SameContents(a: array2<real>, g: Grid<real>)
    requires Shaped(g, a.Length0, a.Length1)
    requires forall i, j :: 0 <= i < a.Length0 && 0 <= j < a.Length1 ==> a[i, j] == g[i][j]
    ensures Contents(a) == g
  {
    var c := Contents(a);
    forall i | 0 <= i < a.Length0 ensures c[i] == g[i] {
      assert forall j :: 0 <= j < a.Length1 ==> c[i][j] == g[i][j];
    }
  }

  /** The whole of the hybrid PSF construction, with the source's failure cases */
  method BuildHybridPsf(p: Parts) returns (r: Result<Grid<real>, SpliceError>)
    requires WellShaped(p)
    ensures r == HybridPsf(p)
  {
    AxisFitsIff(p.ny);
    AxisFitsIff(p.nx);
    if !AxisFits(p.ny) || !AxisFits(p.nx) {
      return Err(WindowShapeMismatch);
    }
    if GridSum(p.median) == 0.0 || GridSum(p.outer) == 0.0 || p.fluxOut == 0.0 {
      return Err(Degenerate);
    }
    var psf := Splice(p);
    r := RenormaliseInPlace(psf, GridSum(p.median), WinStart(p.ny), WinStart(p.nx), p.ny, p.nx);
  }

  // ---------------------------------------------------------------------------
  // What the hybrid PSF satisfies

  /** After the first normalisation the spliced PSF sums to 1 */
  lemma NormalisedSumsToOne(g: Grid<real>)
    requires GridSum(g) != 0.0
    ensures GridSum(Scaled(g, 1.0 / GridSum(g))) == 1.0
  {
    GridSumScaled(g, 1.0 / GridSum(g));
  }

  /** The final hybrid PSF carries, over the embedded window, exactly the stacked PSF's
      total flux */
  lemma HybridWindowCarriesStackedFlux(p: Parts)
    requires WellShaped(p) && HybridPsf(p).Ok?
    ensures Usable(p) && 0 <= WinStart(p.ny) && 0 <= WinStart(p.nx)
    ensures WindowSum(HybridPsf(p).value, WinStart(p.ny), WinStart(p.nx), p.ny, p.nx) == GridSum(p.median)
  {
    AxisFitsIff(p.ny);
    AxisFitsIff(p.nx);
    RenormaliseWindowSum(Spliced(p), GridSum(p.median), WinStart(p.ny), WinStart(p.nx), p.ny, p.nx);
  }

  /** The final hybrid PSF is the spliced PSF times one nonzero constant: inside the
      hybrid radius it follows the stacked PSF, elsewhere the model PSF, in the
      proportion the annulus fluxes fix */
  lemma HybridIsScaledSplice(p: Parts)
    requires WellShaped(p) && HybridPsf(p).Ok?
    ensures Usable(p) && 0 <= WinStart(p.ny) && 0 <= WinStart(p.nx)
    ensures var f := OverallFactor(Spliced(p), GridSum(p.median), WinStart(p.ny), WinStart(p.nx), p.ny, p.nx);
      f != 0.0 && HybridPsf(p).value == Scaled(Spliced(p), f)
  {
    AxisFitsIff(p.ny);
    AxisFitsIff(p.nx);
    RenormaliseIsScaling(Spliced(p), GridSum(p.median), WinStart(p.ny), WinStart(p.nx), p.ny, p.nx);
  }
}
