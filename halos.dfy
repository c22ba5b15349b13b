/** Drawing star halos onto a padded canvas and subtracting them (`_subtract_stackedPSF`
    and the drawing half of `_subtract_widePSF`).

    Each star contributes a square stamp of side `2h + 1` (the PSF shifted by the
    star's sub-pixel offset, which is foreign interpolation and so an input), scaled by
    the star's normalisation and added onto a canvas larger than the frame. The canvas
    slice follows Python's slicing rules, so a window that does not have the stamp's
    shape raises a broadcasting error. */
module Halos {
  import opened Common
  import opened Pixels
  import opened Grids
  import Hybrid

  /** `astype(int)` on a float: truncation toward zero */
  function Trunc(x: real): (n: int)
    ensures 0.0 <= x ==> n as real <= x < n as real + 1.0
    ensures x < 0.0 ==> n as real - 1.0 < x <= n as real
  {
    if x >= 0.0 then x.Floor else -((-x).Floor)
  }

  /** A star's stamp: the shifted PSF image, the star's position and its normalisation */
  datatype Stamp = Stamp(image: Grid<real>, x: real, y: real, weight: real)

  /** The canvas: `rows` by `cols`, and stamps of side `2 * half + 1` */
  datatype Canvas = Canvas(rows: nat, cols: nat, half: nat)

  function Side(cv: Canvas): nat { 2 * cv.half + 1 }

  /** Canvas row and column where the stamp's window starts (after slice normalisation).
      The source adds `half` to the truncated position and then slices from
      `pos - half`, so the window starts at the truncated position itself. */
  function Top(s: Stamp, cv: Canvas): nat { SliceBound(Trunc(s.y), cv.rows) }
  function Left(s: Stamp, cv: Canvas): nat { SliceBound(Trunc(s.x), cv.cols) }

  /** The stamp has the window's shape and the window slice has the same shape */
  predicate Fits(s: Stamp, cv: Canvas) {
    && Shaped(s.image, Side(cv), Side(cv))
    && SliceLength(Trunc(s.y), Trunc(s.y) + Side(cv), cv.rows) == Side(cv)
    && SliceLength(Trunc(s.x), Trunc(s.x) + Side(cv), cv.cols) == Side(cv)
  }

  lemma FitsInCanvas(s: Stamp, cv: Canvas)
    requires Fits(s, cv)
    ensures Top(s, cv) + Side(cv) <= cv.rows && Left(s, cv) + Side(cv) <= cv.cols
  {
  }

  /** Canvas pixel (r, c) lies in the stamp's window */
  predicate InWindow(s: Stamp, cv: Canvas, r: int, c: int) {
    Top(s, cv) <= r < Top(s, cv) + Side(cv) && Left(s, cv) <= c < Left(s, cv) + Side(cv)
  }

  /** What the stamp adds at canvas pixel (r, c) */
  function Contribution(s: Stamp, cv: Canvas, r: int, c: int): real
    requires Fits(s, cv)
  {
    if InWindow(s, cv, r, c) then s.image[r - Top(s, cv)][c - Left(s, cv)] * s.weight
    else 0.0
  }

  /** Sum of the contributions of the first `k` stamps at canvas pixel (r, c) */
  function HaloSum(stamps: seq<Stamp>, cv: Canvas, k: nat, r: int, c: int): real
    requires k <= |stamps|
    requires forall m :: 0 <= m < k ==> Fits(stamps[m], cv)
  {
    if k == 0 then 0.0 else HaloSum(stamps, cv, k - 1, r, c) + Contribution(stamps[k - 1], cv, r, c)
  }

  /** The first stamp whose window does not fit: numpy raises on the shape mismatch */
  datatype HaloError = WindowMismatch(star: nat)

  predicate AllFit(stamps: seq<Stamp>, cv: Canvas) {
    forall m :: 0 <= m < |stamps| ==> Fits(stamps[m], cv)
  }

  /** `im_halos_padded[win] += spsf.image * norm` for one star */
  method AddStamp(canvas: array2<real>, s: Stamp, cv: Canvas)
    requires Fits(s, cv)
    requires canvas.Length0 == cv.rows && canvas.Length1 == cv.cols
    modifies canvas
    ensures forall r, c :: 0 <= r < cv.rows && 0 <= c < cv.cols ==>
      canvas[r, c] == old(canvas[r, c]) + Contribution(s, cv, r, c)
  {
    FitsInCanvas(s, cv);
    var top := Top(s, cv);
    var left := Left(s, cv);
    var w := Side(cv);
    var di := 0;
    while di < w
      invariant 0 <= di <= w
      invariant forall r, c :: 0 <= r < cv.rows && 0 <= c < cv.cols ==>
        canvas[r, c] == old(canvas[r, c]) + (if r < top + di then Contribution(s, cv, r, c) else 0.0)
    {
      var dj := 0;
      while dj < w
        invariant 0 <= dj <= w
        invariant forall r, c :: 0 <= r < cv.rows && 0 <= c < cv.cols ==>
          canvas[r, c] == old(canvas[r, c]) +
            (if r < top + di || (r == top + di && c < left + dj) then Contribution(s, cv, r, c) else 0.0)
      {
        canvas[top + di, left + dj] := canvas[top + di, left + dj] + s.image[di][dj] * s.weight;
        dj := dj + 1;
      }
      di := di + 1;
    }
  }

  /** The cropped halo image `im_halos`: pixel (i, j) of the frame is canvas pixel
      (i + half, j + half) */
  function HaloImage(stamps: seq<Stamp>, cv: Canvas, ny: nat, nx: nat): (g: Grid<real>)
    requires AllFit(stamps, cv)
    ensures Shaped(g, ny, nx)
  {
    seq(ny, i requires 0 <= i < ny => seq(nx, j requires 0 <= j < nx =>
      HaloSum(stamps, cv, |stamps|, i + cv.half, j + cv.half)))
  }

  /** Accumulate every star's stamp on a zero canvas of `(ny + pad) x (nx + pad)` and crop
      the frame back out at offset `half`. Fails at the first star whose window slice
      does not have the stamp's shape. */
  method RenderHalos(stamps: seq<Stamp>, ny: nat, nx: nat, half: nat, pad: nat) returns (r: Result<Grid<real>, HaloError>)
    requires half <= pad
    ensures var cv := Canvas(ny + pad, nx + pad, half);
      && (r.Ok? <==> AllFit(stamps, cv))
      && (r.Ok? ==> r.value == HaloImage(stamps, cv, ny, nx))
      && (r.Err? ==> r.error.star < |stamps| && !Fits(stamps[r.error.star], cv)
                     && forall m :: 0 <= m < r.error.star ==> Fits(stamps[m], cv))
  {
    var cv := Canvas(ny + pad, nx + pad, half);
    var canvas := new real[cv.rows, cv.cols]((i, j) => 0.0);
    var k := 0;
    while k < |stamps|
      invariant 0 <= k <= |stamps|
      invariant forall m :: 0 <= m < k ==> Fits(stamps[m], cv)
      invariant forall a, b :: 0 <= a < cv.rows && 0 <= b < cv.cols ==> canvas[a, b] == HaloSum(stamps, cv, k, a, b)
    {
      if !Fits(stamps[k], cv) {
        return Err(WindowMismatch(k));
      }
      AddStamp(canvas, stamps[k], cv);
      assert forall a, b :: 0 <= a < cv.rows && 0 <= b < cv.cols ==>
        canvas[a, b] == HaloSum(stamps, cv, k + 1, a, b);
      k := k + 1;
    }
    assert AllFit(stamps, cv);
    var crop := Crop(canvas, ny, nx, half);
    CropIsHaloImage(canvas, crop, stamps, cv, ny, nx);
    return Ok(crop);
  }

  /** The frame cropped out of the finished canvas is the halo image */
  lemma CropIsHaloImage(canvas: array2<real>, crop: Grid<real>, stamps: seq<Stamp>, cv: Canvas, ny: nat, nx: nat)
    requires AllFit(stamps, cv)
    requires canvas.Length0 == cv.rows && canvas.Length1 == cv.cols
    requires cv.half + ny <= cv.rows && cv.half + nx <= cv.cols
    requires forall a, b :: 0 <= a < cv.rows && 0 <= b < cv.cols ==> canvas[a, b] == HaloSum(stamps, cv, |stamps|, a, b)
    requires Shaped(crop, ny, nx)
    requires forall i, j :: 0 <= i < ny && 0 <= j < nx ==> crop[i][j] == canvas[i + cv.half, j + cv.half]
    ensures crop == HaloImage(stamps, cv, ny, nx)
  {
    var image := HaloImage(stamps, cv, ny, nx);
    forall i | 0 <= i < ny ensures crop[i] == image[i] {
      forall j | 0 <= j < nx ensures crop[i][j] == image[i][j] {
        HaloImagePixel(stamps, cv, ny, nx, i, j);
      }
    }
  }

  lemma HaloImagePixel(stamps: seq<Stamp>, cv: Canvas, ny: nat, nx: nat, i: nat, j: nat)
    requires AllFit(stamps, cv) && i < ny && j < nx
    ensures HaloImage(stamps, cv, ny, nx)[i][j] == HaloSum(stamps, cv, |stamps|, i + cv.half, j + cv.half)
  {
  }

  /** `canvas[off : ny + off, off : nx + off]` */
  method Crop(canvas: array2<real>, ny: nat, nx: nat, off: nat) returns (g: Grid<real>)
    requires off + ny <= canvas.Length0 && off + nx <= canvas.Length1
    ensures Shaped(g, ny, nx)
    ensures forall i, j :: 0 <= i < ny && 0 <= j < nx ==> g[i][j] == canvas[i + off, j + off]
  {
    g := [];
    var i := 0;
    while i < ny
      invariant 0 <= i <= ny
      invariant |g| == i
      invariant forall a :: 0 <= a < i ==> |g[a]| == nx
      invariant forall a, b :: 0 <= a < i && 0 <= b < nx ==> g[a][b] == canvas[a + off, b + off]
    {
      var row: seq<real> := [];
      var j := 0;
      while j < nx
        invariant 0 <= j <= nx
        invariant |row| == j
        invariant forall b :: 0 <= b < j ==> row[b] == canvas[i + off, b + off]
      {
        row := row + [canvas[i + off, j + off]];
        j := j + 1;
      }
      g := g + [row];
      i := i + 1;
    }
  }

  // ---------------------------------------------------------------------------
  // Properties of the halo image

  /** A pixel outside every star's window receives nothing */
  lemma {:induction false} HaloSumFar(stamps: seq<Stamp>, cv: Canvas, k: nat, r: int, c: int)
    requires k <= |stamps|
    requires forall m :: 0 <= m < k ==> Fits(stamps[m], cv)
    requires forall m :: 0 <= m < k ==> !InWindow(stamps[m], cv, r, c)
    ensures HaloSum(stamps, cv, k, r, c) == 0.0
  {
    if k > 0 {
      HaloSumFar(stamps, cv, k - 1, r, c);
    }
  }

  /** A pixel inside exactly one star's window receives that star's stamp pixel and
      nothing else */
  lemma {:induction false} HaloSumOnlyOne(stamps: seq<Stamp>, cv: Canvas, k: nat, r: int, c: int, m: nat)
    requires k <= |stamps| && m < |stamps|
    requires AllFit(stamps, cv)
    requires forall n :: 0 <= n < k && n != m ==> !InWindow(stamps[n], cv, r, c)
    ensures HaloSum(stamps, cv, k, r, c) == if m < k then Contribution(stamps[m], cv, r, c) else 0.0
  {
    if k > 0 {
      HaloSumOnlyOne(stamps, cv, k - 1, r, c, m);
    }
  }

  /** The halo image is additive over stars: drawing two lists of stars is drawing each
      list and adding the images */
  lemma AllFitAppend(s: seq<Stamp>, t: seq<Stamp>, cv: Canvas)
    requires AllFit(s, cv) && AllFit(t, cv)
    ensures AllFit(s + t, cv)
  {
    forall m | 0 <= m < |s + t| ensures Fits((s + t)[m], cv) {
      if m >= |s| {
        assert (s + t)[m] == t[m - |s|];
      }
    }
  }

  lemma {:induction false} HaloSumAppend(s: seq<Stamp>, t: seq<Stamp>, cv: Canvas, k: nat, r: int, c: int)
    requires AllFit(s, cv) && AllFit(t, cv)
    requires k <= |t|
    ensures AllFit(s + t, cv)
    ensures HaloSum(s + t, cv, |s| + k, r, c) == HaloSum(s, cv, |s|, r, c) + HaloSum(t, cv, k, r, c)
  {
    AllFitAppend(s, t, cv);
    var st := s + t;
    if k == 0 {
      assert st[..|s|] == s;
      HaloSumPrefix(st, s, cv, |s|, r, c);
    } else {
      HaloSumAppend(s, t, cv, k - 1, r, c);
      assert st[|s| + k - 1] == t[k - 1];
      assert HaloSum(st, cv, |s| + k, r, c) == HaloSum(st, cv, |s| + k - 1, r, c) + Contribution(t[k - 1], cv, r, c);
    }
  }

  /** The sum over a prefix depends only on the stamps in that prefix */
  lemma {:induction false} HaloSumPrefix(s: seq<Stamp>, p: seq<Stamp>, cv: Canvas, k: nat, r: int, c: int)
    requires k <= |p| <= |s| && p == s[..|p|]
    requires AllFit(s, cv)
    ensures AllFit(p, cv)
    ensures HaloSum(s, cv, k, r, c) == HaloSum(p, cv, k, r, c)
  {
    assert forall m :: 0 <= m < |p| ==> p[m] == s[m];
    if k > 0 {
      HaloSumPrefix(s, p, cv, k - 1, r, c);
    }
  }

  /** A star whose truncated position lies inside an `ny x nx` frame always fits a canvas
      padded by at least `2 * half`, and its window starts at the truncated position */
  lemma InFrameStarFits(s: Stamp, ny: nat, nx: nat, half: nat, pad: nat)
    requires 2 * half <= pad
    requires Shaped(s.image, 2 * half + 1, 2 * half + 1)
    requires 0 <= Trunc(s.y) < ny && 0 <= Trunc(s.x) < nx
    ensures var cv := Canvas(ny + pad, nx + pad, half);
      Fits(s, cv) && Top(s, cv) == Trunc(s.y) && Left(s, cv) == Trunc(s.x)
  {
    var cv := Canvas(ny + pad, nx + pad, half);
    SliceFitsIff(Trunc(s.y), Side(cv), cv.rows);
    SliceFitsIff(Trunc(s.x), Side(cv), cv.cols);
  }

  /** A lone in-frame star's stamp is centred on its truncated position: the frame pixel
      `(Trunc(y) + dy, Trunc(x) + dx)` with `|dy|, |dx| <= half` receives the stamp's
      pixel `(half + dy, half + dx)` times the star's normalisation */
  lemma StampCentredOnStar(s: Stamp, ny: nat, nx: nat, half: nat, pad: nat, dy: int, dx: int)
    requires 2 * half <= pad
    requires Shaped(s.image, 2 * half + 1, 2 * half + 1)
    requires 0 <= Trunc(s.y) < ny && 0 <= Trunc(s.x) < nx
    requires -(half as int) <= dy <= half && -(half as int) <= dx <= half
    ensures var cv := Canvas(ny + pad, nx + pad, half);
      Fits(s, cv) &&
      Contribution(s, cv, Trunc(s.y) + dy + half, Trunc(s.x) + dx + half) == s.image[half + dy][half + dx] * s.weight
  {
    InFrameStarFits(s, ny, nx, half, pad);
  }

  // ---------------------------------------------------------------------------
  // The two variants

  /** A catalogue star as the drawing loop reads it */
  datatype Star = Star(x: real, y: real, flux: real, fluxAnn: real, mag: real, ps1Mag: Option<real>)

  /** Stacked variant: the star is scaled by its annulus flux when `norm == 'flux_ann'`,
      and by its total flux otherwise */
  function StackedWeight(st: Star, byAnn: bool): (w: real)
    ensures byAnn ==> w == st.fluxAnn
    ensures !byAnn ==> w == st.flux
  {
    if byAnn then st.fluxAnn else st.flux
  }

  /** Wide variant: a star brighter than magnitude 15.5 with a truthy PS1 magnitude is
      scaled by the flux the fitted magnitude relation gives (`10 ** (-poly(m) / 2.5)`,
      an input here); every other star by its own flux. A masked PS1 magnitude, or one
      equal to 0, is falsy. */
  function WideWeight(st: Star, fluxFromMag: real -> real): (w: real)
    ensures (st.mag < 15.5 && st.ps1Mag.Some? && st.ps1Mag.value != 0.0) ==> w == fluxFromMag(st.ps1Mag.value)
    ensures !(st.mag < 15.5 && st.ps1Mag.Some? && st.ps1Mag.value != 0.0) ==> w == st.flux
  {
    if st.mag < 15.5 then
      match st.ps1Mag
      case Some(m) => if m != 0.0 then fluxFromMag(m) else st.flux
      case None => st.flux
    else st.flux
  }

  /** The stacked and the wide weighting as functions of the star */
  function StackedWeigher(byAnn: bool): Star -> real {
    st => StackedWeight(st, byAnn)
  }

  function WideWeigher(fluxFromMag: real -> real): Star -> real {
    st => WideWeight(st, fluxFromMag)
  }

  /** One stamp per star: its shifted PSF image at its position, scaled by `weight` */
  function Stamps(stars: seq<Star>, shifted: seq<Grid<real>>, weight: Star -> real): (s: seq<Stamp>)
    requires |shifted| == |stars|
    ensures |s| == |stars|
  {
    seq(|stars|, k requires 0 <= k < |stars| => Stamp(shifted[k], stars[k].x, stars[k].y, weight(stars[k])))
  }

  /** A star whose wide-PSF weight comes from its PS1 magnitude */
  predicate RescaledByPs1(st: Star) {
    st.mag < 15.5 && st.ps1Mag.Some? && st.ps1Mag.value != 0.0
  }

  /** Without bright stars that have a truthy PS1 magnitude, the wide drawing weights every
      star as the stacked drawing does with `norm != 'flux_ann'`: on any canvas the two
      halo images agree */
  lemma WideWeightsAsStacked(stars: seq<Star>, shifted: seq<Grid<real>>, fluxFromMag: real -> real, cv: Canvas, ny: nat, nx: nat)
    requires |shifted| == |stars|
    requires forall k :: 0 <= k < |stars| ==> !RescaledByPs1(stars[k])
    requires AllFit(Stamps(stars, shifted, StackedWeigher(false)), cv)
    ensures AllFit(Stamps(stars, shifted, WideWeigher(fluxFromMag)), cv)
    ensures HaloImage(Stamps(stars, shifted, WideWeigher(fluxFromMag)), cv, ny, nx)
         == HaloImage(Stamps(stars, shifted, StackedWeigher(false)), cv, ny, nx)
  {
    var wide := Stamps(stars, shifted, WideWeigher(fluxFromMag));
    var stacked := Stamps(stars, shifted, StackedWeigher(false));
    forall k | 0 <= k < |stars| ensures wide[k] == stacked[k] {
      assert !RescaledByPs1(stars[k]);
    }
    assert wide == stacked;
  }

  /** The wide PSF is the hybrid PSF; `int(psf_size / 2)` is the half-width of its stamp */
  const PsfSize: nat := Hybrid.PsfSize
  const WideHalf: nat := Hybrid.OuterCentre

  /** Stacked variant: the stars' stamps on a canvas padded by `2 * halosize` */
  method StackedHalos(stars: seq<Star>, shifted: seq<Grid<real>>, ny: nat, nx: nat, halosize: nat, byAnn: bool)
    returns (r: Result<Grid<real>, HaloError>)
    requires |shifted| == |stars|
    ensures var stamps := Stamps(stars, shifted, StackedWeigher(byAnn));
      var cv := Canvas(ny + 2 * halosize, nx + 2 * halosize, halosize);
      && (r.Ok? <==> AllFit(stamps, cv))
      && (r.Ok? ==> r.value == HaloImage(stamps, cv, ny, nx))
  {
    var stamps := Stamps(stars, shifted, StackedWeigher(byAnn));
    r := RenderHalos(stamps, ny, nx, halosize, 2 * halosize);
  }

  /** Wide variant: the stars' stamps of the 501-pixel hybrid PSF on a canvas padded by 501 */
  method WideHalos(stars: seq<Star>, shifted: seq<Grid<real>>, ny: nat, nx: nat, fluxFromMag: real -> real)
    returns (r: Result<Grid<real>, HaloError>)
    requires |shifted| == |stars|
    ensures var stamps := Stamps(stars, shifted, WideWeigher(fluxFromMag));
      var cv := Canvas(ny + PsfSize, nx + PsfSize, WideHalf);
      && (r.Ok? <==> AllFit(stamps, cv))
      && (r.Ok? ==> r.value == HaloImage(stamps, cv, ny, nx))
  {
    var stamps := Stamps(stars, shifted, WideWeigher(fluxFromMag));
    r := RenderHalos(stamps, ny, nx, WideHalf, PsfSize);
  }

  // ---------------------------------------------------------------------------
  // Subtraction

  /** `img_sub = res - im_halos` */
  function Subtract(res: Grid<real>, halos: Grid<real>): (g: Grid<real>)
    requires |res| == |halos| && forall i :: 0 <= i < |res| ==> |res[i]| == |halos[i]|
    ensures |g| == |res| && forall i :: 0 <= i < |res| ==> |g[i]| == |res[i]|
  {
    Combine(res, halos, (a: real, b: real) => a - b)
  }

  /** `lowres_model.image += im_halos` */
  function AddToModel(model: Grid<real>, halos: Grid<real>): (g: Grid<real>)
    requires |model| == |halos| && forall i :: 0 <= i < |model| ==> |model[i]| == |halos[i]|
    ensures |g| == |model| && forall i :: 0 <= i < |model| ==> |g[i]| == |model[i]|
  {
    Combine(model, halos, (a: real, b: real) => a + b)
  }

  /** The halo image at a frame pixel inside exactly one star's window */
  lemma LoneStarPixel(stamps: seq<Stamp>, cv: Canvas, ny: nat, nx: nat, i: nat, j: nat, m: nat)
    requires AllFit(stamps, cv) && m < |stamps|
    requires i < ny && j < nx
    requires InWindow(stamps[m], cv, i + cv.half, j + cv.half)
    requires forall n :: 0 <= n < |stamps| && n != m ==> !InWindow(stamps[n], cv, i + cv.half, j + cv.half)
    ensures HaloImage(stamps, cv, ny, nx)[i][j] == Contribution(stamps[m], cv, i + cv.half, j + cv.half)
  {
    var r, c := i + cv.half, j + cv.half;
    HaloImagePixel(stamps, cv, ny, nx, i, j);
    HaloSumOnlyOne(stamps, cv, |stamps|, r, c, m);
    calc {
      HaloImage(stamps, cv, ny, nx)[i][j];
      HaloSum(stamps, cv, |stamps|, r, c);
      Contribution(stamps[m], cv, r, c);
    }
  }

  /** A frame pixel inside exactly one star's window loses that star's stamp pixel times
      its normalisation from the residual, and the model gains the same amount */
  lemma LoneStarSubtraction(stamps: seq<Stamp>, cv: Canvas, res: Grid<real>, model: Grid<real>, i: nat, j: nat, m: nat)
    requires AllFit(stamps, cv) && m < |stamps|
    requires |res| > 0 && Shaped(res, |res|, |res[0]|) && Shaped(model, |res|, |res[0]|)
    requires i < |res| && j < |res[0]|
    requires InWindow(stamps[m], cv, i + cv.half, j + cv.half)
    requires forall n :: 0 <= n < |stamps| && n != m ==> !InWindow(stamps[n], cv, i + cv.half, j + cv.half)
    ensures var s := stamps[m];
      var h := HaloImage(stamps, cv, |res|, |res[0]|);
      var v := s.image[i + cv.half - Top(s, cv)][j + cv.half - Left(s, cv)] * s.weight;
      Subtract(res, h)[i][j] == res[i][j] - v && AddToModel(model, h)[i][j] == model[i][j] + v
  {
    var s, r, c := stamps[m], i + cv.half, j + cv.half;
    var h := HaloImage(stamps, cv, |res|, |res[0]|);
    var v := s.image[r - Top(s, cv)][c - Left(s, cv)] * s.weight;
    LoneStarPixel(stamps, cv, |res|, |res[0]|, i, j, m);
    ContributionInWindow(s, cv, r, c);
    assert h[i][j] == v;
    SubtractPixel(res, model, h, i, j);
  }

  lemma SubtractPixel(res: Grid<real>, model: Grid<real>, h: Grid<real>, i: nat, j: nat)
    requires |res| > 0 && Shaped(res, |res|, |res[0]|) && Shaped(model, |res|, |res[0]|) && Shaped(h, |res|, |res[0]|)
    requires i < |res| && j < |res[0]|
    ensures Subtract(res, h)[i][j] == res[i][j] - h[i][j]
    ensures AddToModel(model, h)[i][j] == model[i][j] + h[i][j]
  {
  }

  lemma ContributionInWindow(s: Stamp, cv: Canvas, r: int, c: int)
    requires Fits(s, cv) && InWindow(s, cv, r, c)
    ensures Contribution(s, cv, r, c) == s.image[r - Top(s, cv)][c - Left(s, cv)] * s.weight
  {
  }

  /** A frame pixel outside every star's window keeps its value after subtraction */
  lemma FarPixelsKeepResidual(stamps: seq<Stamp>, cv: Canvas, res: Grid<real>, i: nat, j: nat)
    requires AllFit(stamps, cv)
    requires |res| > 0 && Shaped(res, |res|, |res[0]|)
    requires i < |res| && j < |res[0]|
    requires forall m :: 0 <= m < |stamps| ==> !InWindow(stamps[m], cv, i + cv.half, j + cv.half)
    ensures Subtract(res, HaloImage(stamps, cv, |res|, |res[0]|))[i][j] == res[i][j]
  {
    HaloSumFar(stamps, cv, |stamps|, i + cv.half, j + cv.half);
  }
}
