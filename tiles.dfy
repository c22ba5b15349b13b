/** Tile mode (`MrfTileMode.run`): the decision to tile, the choice of the master band,
    the tile grid and its boxes, the loop that cuts the tiles, the per-tile MRF runs,
    the trimming loop and the final stitch.

    Everything that touches FITS files, WCS conversions and `Cutout2D` is abstract:
    whether a cutout raises `NoOverlapError` is a predicate given by the caller, and
    the existence of the trimmed files is a function of the tile index. */
module Tiles {
  import opened Common
  import opened Pixels
  import Cleaning

  // ---------------------------------------------------------------------------
  // The decision to tile and the master band

  /** `NAXIS1` and `NAXIS2` of a high-resolution image */
  datatype Dims = Dims(x: nat, y: nat)

  datatype Band = G | R

  function Area(d: Dims): nat { d.x * d.y }

  /** Tiling pays off when either side of the g-band image is at least 1.5 times `max_size` */
  predicate TileMode(g: Dims, maxSize: real) {
    g.x as real >= 1.5 * maxSize || g.y as real >= 1.5 * maxSize
  }

  /** The six-way comparison of the g- and r-band sizes */
  function MasterBand(g: Dims, r: Dims): Band {
    if r.x == g.x && r.y == g.y then G
    else if r.x < g.x && r.y < g.y then R
    else if r.x > g.x && r.y > g.y then G
    else if r.x * r.y < g.x * g.y then R
    else if r.x * r.y > g.x * g.y then G
    else G
  }

  lemma ProductStrictlyBelow(a: nat, b: nat, c: nat, d: nat)
    requires a < c && b < d
    ensures a * b < c * d
  {
    assert a * b <= a * d;
    assert a * d < c * d;
  }

  /** Whatever the case analysis, r is the master exactly when its area is strictly
      smaller than the g band's: "smaller in both sides" implies "smaller in area" */
  lemma MasterBandIsSmallerArea(g: Dims, r: Dims)
    ensures MasterBand(g, r) == R <==> Area(r) < Area(g)
  {
    if r.x < g.x && r.y < g.y {
      ProductStrictlyBelow(r.x, r.y, g.x, g.y);
    }
    if r.x > g.x && r.y > g.y {
      ProductStrictlyBelow(g.x, g.y, r.x, r.y);
    }
  }

  datatype TilePlan = TilePlan(master: Band, dims: Dims)

  /** `assert tilemode` right after `tilemode = False` always fails, so a small image
      ends the run with an `AssertionError` and the `return` after it is never reached */
  datatype TileError = NotTileMode

  function Decide(g: Dims, r: Dims, maxSize: real): Result<TilePlan, TileError> {
    if TileMode(g, maxSize) then
      var band := MasterBand(g, r);
      Ok(TilePlan(band, if band == R then r else g))
    else
      Err(NotTileMode)
  }

  /** Tile mode is entered exactly when the g-band image is large enough; the tiles are
      then laid out on the master band's sides, which have the smaller area of the two */
  lemma DecideSpec(g: Dims, r: Dims, maxSize: real)
    ensures var d := Decide(g, r, maxSize);
      && (d.Ok? <==> g.x as real >= 1.5 * maxSize || g.y as real >= 1.5 * maxSize)
      && (d.Ok? ==> d.value.dims == (if d.value.master == R then r else g))
      && (d.Ok? ==> Area(d.value.dims) <= Area(g) && Area(d.value.dims) <= Area(r))
  {
    MasterBandIsSmallerArea(g, r);
  }

  // ---------------------------------------------------------------------------
  // The tile grid

  /** numpy's `ceil` on exact reals */
  function Ceil(v: real): (c: int)
    ensures v <= c as real < v + 1.0
  {
    if v.Floor as real == v then v.Floor else v.Floor + 1
  }

  /** `N = ceil((1 + 2 * overlap) * side / max_size)` */
  function TileCount(side: nat, maxSize: real, overlap: real): int
    requires maxSize > 0.0
  {
    Ceil((1.0 + 2.0 * overlap) * side as real / maxSize)
  }

  /** `len = ceil(side / N)` */
  function TileLength(side: nat, n: int): int
    requires n > 0
  {
    Ceil(side as real / n as real)
  }

  lemma CeilOfPositive(v: real)
    requires v > 0.0
    ensures Ceil(v) >= 1
  {
  }

  lemma QuotientTimesDivisor(a: real, b: real, c: real)
    requires b > 0.0 && c >= a / b
    ensures c * b >= a
  {
    assert c * b >= (a / b) * b;
  }

  /** Every side gets at least one tile of at least one pixel, and the tiles of one
      row or column together reach the end of the image */
  lemma GridCovers(side: nat, maxSize: real, overlap: real)
    requires side > 0 && maxSize > 0.0 && overlap >= 0.0
    ensures var n := TileCount(side, maxSize, overlap);
      n >= 1 && TileLength(side, n) >= 1 && n * TileLength(side, n) >= side
  {
    var k := 1.0 + 2.0 * overlap;
    assert k * side as real > 0.0;
    CeilOfPositive(k * side as real / maxSize);
    var n := TileCount(side, maxSize, overlap);
    CeilOfPositive(side as real / n as real);
    var len := TileLength(side, n);
    QuotientTimesDivisor(side as real, n as real, len as real);
    assert (len * n) as real == len as real * n as real;
  }

  /** The grid of one tiled image: its sides, the tile counts and lengths along each
      axis, and the margins `int(overlap * len)` added on each side of a tile */
  datatype Layout = Layout(w: nat, h: nat, nx: int, ny: int, lenx: int, leny: int, mx: int, my: int)

  ghost predicate Covering(l: Layout) {
    && l.w > 0 && l.h > 0
    && l.nx >= 1 && l.ny >= 1 && l.lenx >= 1 && l.leny >= 1
    && l.nx * l.lenx >= l.w && l.ny * l.leny >= l.h
    && l.mx >= 0 && l.my >= 0
  }

  /** `int()` truncates toward zero, which is the floor for a non-negative product */
  function Margin(overlap: real, len: int): int
    requires overlap >= 0.0 && len >= 0
  {
    (overlap * len as real).Floor
  }

  function MakeLayout(d: Dims, maxSize: real, overlap: real): (l: Layout)
    requires d.x > 0 && d.y > 0 && maxSize > 0.0 && overlap >= 0.0
    ensures Covering(l) && l.w == d.x && l.h == d.y
  {
    GridCovers(d.x, maxSize, overlap);
    GridCovers(d.y, maxSize, overlap);
    var nx := TileCount(d.x, maxSize, overlap);
    var ny := TileCount(d.y, maxSize, overlap);
    var lenx := TileLength(d.x, nx);
    var leny := TileLength(d.y, ny);
    assert overlap * lenx as real >= 0.0 && overlap * leny as real >= 0.0;
    Layout(d.x, d.y, nx, ny, lenx, leny, Margin(overlap, lenx), Margin(overlap, leny))
  }

  /** Tile `i` sits in column `i % N_x` and row `i / N_x` */
  function Cell(i: nat, nx: int): (nat, nat)
    requires nx >= 1
  {
    (i % nx, i / nx)
  }

  /** Every tile index below `N_x * N_y` lands in a cell of the grid */
  lemma CellInGrid(i: nat, nx: int, ny: int)
    requires nx >= 1 && ny >= 1 && i < nx * ny
    ensures Cell(i, nx).0 < nx && Cell(i, nx).1 < ny
  {
    if i / nx >= ny {
      assert false;
    }
  }

  /** Every cell of the grid is the cell of the index `row * N_x + column` */
  lemma CellOfIndex(a: nat, b: nat, nx: int, ny: int)
    requires nx >= 1 && a < nx && b < ny
    ensures b * nx + a < nx * ny && Cell(b * nx + a, nx) == (a, b)
  {
    MulDifference(b + 1, b, nx);
    MulMonotone(b + 1, ny, nx);
    DivModUnique(b * nx + a, nx, b, a);
  }

  /** Euclidean division has a unique quotient and remainder */
  lemma DivModUnique(i: int, d: int, q: int, r: int)
    requires d >= 1 && i == q * d + r && 0 <= r < d
    ensures i / d == q && i % d == r
  {
    var q' := i / d;
    MulDifference(q', q, d);
    if q' > q {
      MulAtLeast(q' - q, d);
    } else if q' < q {
      MulAtLeast(q - q', d);
    }
  }

  lemma MulDifference(a: int, b: int, d: int)
    ensures (a - b) * d == a * d - b * d
  {
  }

  lemma MulMonotone(x: int, y: int, d: int)
    requires x <= y && d >= 0
    ensures x * d <= y * d
  {
  }

  lemma MulAtLeast(x: int, d: int)
    requires x >= 1 && d >= 1
    ensures x * d >= d
  {
  }

  /** No two tile indices share a cell */
  lemma CellInjective(i: nat, k: nat, nx: int)
    requires nx >= 1 && Cell(i, nx) == Cell(k, nx)
    ensures i == k
  {
    assert i == (i / nx) * nx + i % nx;
    assert k == (k / nx) * nx + k % nx;
  }

  // ---------------------------------------------------------------------------
  // Tile boxes

  /** An inclusive pixel range along one axis */
  datatype Span = Span(lo: int, hi: int)

  function Min(a: int, b: int): int { if a <= b then a else b }
  function Max(a: int, b: int): int { if a >= b then a else b }

  /** Column `k` before the overlap: `[k * len, min(side - 1, k * len + len)]` */
  function PreSpan(k: nat, len: int, side: nat): Span {
    Span(k * len, Min(side - 1, k * len + len))
  }

  /** The box grown by the margin on both sides and clipped to the image again */
  function Grow(s: Span, m: int, side: nat): Span {
    Span(Max(0, s.lo - m), Min(side - 1, s.hi + m))
  }

  /** Adjacent columns share their boundary pixel unless the first is clipped */
  lemma PreSpansAbut(k: nat, len: int, side: nat)
    requires (k + 1) * len <= side - 1
    ensures PreSpan(k, len, side).hi == PreSpan(k + 1, len, side).lo
  {
  }

  /** A column is non-empty exactly when it starts inside the image */
  lemma PreSpanNonEmptyIff(k: nat, len: int, side: nat)
    requires len >= 0
    ensures PreSpan(k, len, side).lo <= PreSpan(k, len, side).hi <==> k * len <= side - 1
  {
  }

  /** The last column ends on the image's last pixel */
  lemma LastColumnReachesEdge(l: Layout)
    requires Covering(l)
    ensures PreSpan(l.nx - 1, l.lenx, l.w).hi == l.w - 1
    ensures PreSpan(l.ny - 1, l.leny, l.h).hi == l.h - 1
  {
    assert (l.nx - 1) * l.lenx + l.lenx == l.nx * l.lenx;
    assert (l.ny - 1) * l.leny + l.leny == l.ny * l.leny;
  }

  /** Every pixel of the image lies in some column of the grid */
  lemma ColumnsCover(n: int, len: int, side: nat, p: int)
    requires n >= 1 && len >= 1 && n * len >= side && 0 <= p < side
    ensures var k := p / len; k < n && PreSpan(k, len, side).lo <= p <= PreSpan(k, len, side).hi
  {
    var k := p / len;
    assert k * len <= p < k * len + len;
  }

  /** Growing a box keeps it inside the image and containing the box it grew from */
  lemma GrowContains(k: nat, len: int, m: int, side: nat)
    requires len >= 0 && m >= 0
    ensures var s := PreSpan(k, len, side); var g := Grow(s, m, side);
      && 0 <= g.lo <= s.lo && s.hi <= g.hi <= side - 1
  {
  }

  /** A tile as the tile lists store it: the centre of the grown box in high-resolution
      pixels and its sides times the pixel scale */
  datatype Tile = Tile(xcen: real, ycen: real, xsize: real, ysize: real)

  function Centre(s: Span): real { (s.lo + s.hi) as real / 2.0 }

  function TileAt(l: Layout, scale: real, i: nat): (t: Tile)
    requires l.nx >= 1
  {
    var (cx, cy) := Cell(i, l.nx);
    var sx := Grow(PreSpan(cx, l.lenx, l.w), l.mx, l.w);
    var sy := Grow(PreSpan(cy, l.leny, l.h), l.my, l.h);
    Tile(Centre(sx), Centre(sy), (sx.hi - sx.lo) as real * scale, (sy.hi - sy.lo) as real * scale)
  }

  /** The stored centre and size describe the grown box, not the box before the overlap
      (the centre and size computed first are overwritten): the stored extent covers the
      column's own pixels and stays inside the image */
  lemma TileIsGrownBox(l: Layout, i: nat)
    requires Covering(l)
    ensures var (cx, cy) := Cell(i, l.nx);
      var s := PreSpan(cx, l.lenx, l.w);
      var t := TileAt(l, 1.0, i);
      && t.xcen - t.xsize / 2.0 <= s.lo as real
      && s.hi as real <= t.xcen + t.xsize / 2.0
      && 0.0 <= t.xcen - t.xsize / 2.0
      && t.xcen + t.xsize / 2.0 <= (l.w - 1) as real
  {
    var (cx, cy) := Cell(i, l.nx);
    GrowContains(cx, l.lenx, l.mx, l.w);
  }

  // ---------------------------------------------------------------------------
  // Cutting the tiles

  /** The tiles that survive the first `n` iterations of the cutting loop: a tile is
      dropped only when cutting is on and its low-resolution cutout has no overlap */
  function KeptTiles(l: Layout, scale: real, skipCut: bool, outside: Tile -> bool, n: nat): seq<Tile>
    requires l.nx >= 1
  {
    if n == 0 then []
    else
      var t := TileAt(l, scale, n - 1);
      KeptTiles(l, scale, skipCut, outside, n - 1) + (if skipCut || !outside(t) then [t] else [])
  }

  /** A tile is kept exactly when it is the tile of some index and survives the cut */
  lemma {:induction false} KeptTilesMembers(l: Layout, scale: real, skipCut: bool, outside: Tile -> bool, n: nat)
    requires l.nx >= 1
    ensures forall t :: t in KeptTiles(l, scale, skipCut, outside, n) <==>
      (skipCut || !outside(t)) && exists i: nat :: i < n && t == TileAt(l, scale, i)
  {
    if n > 0 {
      KeptTilesMembers(l, scale, skipCut, outside, n - 1);
    }
  }

  /** Without cutting every tile is kept, in index order */
  lemma {:induction false} KeptTilesWithoutCut(l: Layout, scale: real, outside: Tile -> bool, n: nat)
    requires l.nx >= 1
    ensures |KeptTiles(l, scale, true, outside, n)| == n
    ensures forall k :: 0 <= k < n ==> KeptTiles(l, scale, true, outside, n)[k] == TileAt(l, scale, k)
  {
    if n > 0 {
      KeptTilesWithoutCut(l, scale, outside, n - 1);
    }
  }

  /** The cutting loop: tiles whose low-resolution cutout raises `NoOverlapError` are
      counted in `skipped` and not stored; the others are stored under the compacted
      index `j` */
  method PlanTiles(l: Layout, scale: real, skipCut: bool, outside: Tile -> bool)
    returns (tiles: seq<Tile>, j: nat, skipped: nat)
    requires l.nx >= 1 && l.ny >= 1
    ensures tiles == KeptTiles(l, scale, skipCut, outside, l.nx * l.ny)
    ensures j == |tiles| && j + skipped == l.nx * l.ny
  {
    var n := l.nx * l.ny;
    tiles := [];
    j := 0;
    skipped := 0;
    var i := 0;
    while i < n
      invariant 0 <= i <= n
      invariant tiles == KeptTiles(l, scale, skipCut, outside, i)
      invariant j == |tiles| && j + skipped == i
    {
      var t := TileAt(l, scale, i);
      if !skipCut && outside(t) {
        skipped := skipped + 1;
      } else {
        tiles := tiles + [t];
        j := j + 1;
      }
      i := i + 1;
    }
  }

  // ---------------------------------------------------------------------------
  // Running MRF on every tile

  /** How `MrfTask.run` ended on one tile */
  datatype Outcome = Finished | EmptyFluxModel | OutOfStars | CatalogTimeout | Crashed

  /** `GalSimValueError`, `AttributeError` and `HTTPError` are caught and the tile is
      recorded as bad; any other exception ends tile mode */
  predicate Caught(o: Outcome) {
    o.EmptyFluxModel? || o.OutOfStars? || o.CatalogTimeout?
  }

  function Range(n: nat): (r: seq<nat>)
    ensures |r| == n && forall k :: 0 <= k < n ==> r[k] == k
  {
    seq(n, k => k)
  }

  /** The tiles among the first `n` whose exception is caught, in index order */
  function BadTiles(outcomes: seq<Outcome>, n: nat): seq<nat>
    requires n <= |outcomes|
  {
    if n == 0 then [] else BadTiles(outcomes, n - 1) + (if Caught(outcomes[n - 1]) then [n - 1] else [])
  }

  /** The bad-tile list holds exactly the tiles whose exception is caught, in increasing order */
  lemma {:induction false} BadTilesSpec(outcomes: seq<Outcome>, n: nat)
    requires n <= |outcomes|
    ensures forall k :: k in BadTiles(outcomes, n) <==> 0 <= k < n && Caught(outcomes[k])
    ensures forall p, q :: 0 <= p < q < |BadTiles(outcomes, n)| ==> BadTiles(outcomes, n)[p] < BadTiles(outcomes, n)[q]
  {
    if n > 0 {
      BadTilesSpec(outcomes, n - 1);
      var prev := BadTiles(outcomes, n - 1);
      var last: seq<nat> := if Caught(outcomes[n - 1]) then [n - 1] else [];
      assert BadTiles(outcomes, n) == prev + last;
      forall p, q | 0 <= p < q < |prev + last| ensures (prev + last)[p] < (prev + last)[q] {
        if q >= |prev| {
          assert prev[p] in prev;
        }
      }
    }
  }

  /** The MRF loop over the `N_tiles - skipped` cut tiles: the result is the list of bad
      tiles, or the index of the first tile whose exception is not caught */
  method RunTiles(outcomes: seq<Outcome>) returns (r: Result<seq<nat>, nat>)
    ensures r.Ok? <==> forall k :: 0 <= k < |outcomes| ==> !outcomes[k].Crashed?
    ensures r.Ok? ==> r.value == BadTiles(outcomes, |outcomes|)
    ensures r.Err? ==>
      && r.error < |outcomes| && outcomes[r.error].Crashed?
      && forall k :: 0 <= k < r.error ==> !outcomes[k].Crashed?
  {
    var bad: seq<nat> := [];
    var i := 0;
    while i < |outcomes|
      invariant 0 <= i <= |outcomes|
      invariant forall k :: 0 <= k < i ==> !outcomes[k].Crashed?
      invariant bad == BadTiles(outcomes, i)
    {
      if outcomes[i].Crashed? {
        return Err(i);
      }
      if Caught(outcomes[i]) {
        bad := bad + [i];
      }
      i := i + 1;
    }
    return Ok(bad);
  }

  // ---------------------------------------------------------------------------
  // Trimming the processed tiles

  /** What happened to one file of a processed tile: it does not exist, its cutout
      raises `NoOverlapError`, or the cutout is written */
  datatype Cut = Missing | Outside | Written

  datatype TileFiles = TileFiles(image: Cut, mask: Cut)

  datatype TrimError = IndexError(index: nat) | FileNotFound(index: nat)

  /** The indices of the written image and mask tiles */
  datatype Trimmed = Trimmed(images: seq<nat>, masks: seq<nat>)

  /** One iteration of the trimming loop for tile `i`, with `kept` entries in the tile
      lists: the lists are read first, then the image is cut, and the mask only when
      the image's cutout did not raise */
  function TrimStep(acc: Trimmed, i: nat, kept: nat, f: TileFiles): Result<Trimmed, TrimError> {
    if i >= kept then Err(IndexError(i))
    else match f.image
      case Missing => Err(FileNotFound(i))
      case Outside => Ok(acc)
      case Written =>
        match f.mask
        case Missing => Err(FileNotFound(i))
        case Outside => Ok(Trimmed(acc.images + [i], acc.masks))
        case Written => Ok(Trimmed(acc.images + [i], acc.masks + [i]))
  }

  /** The first `n` iterations of the trimming loop */
  function Trim(n: nat, kept: nat, files: nat -> TileFiles): Result<Trimmed, TrimError> {
    if n == 0 then Ok(Trimmed([], []))
    else match Trim(n - 1, kept, files)
      case Err(e) => Err(e)
      case Ok(acc) => TrimStep(acc, n - 1, kept, files(n - 1))
  }

  /** The trimming loop as written: it runs over all `N_tiles` indices of the grid */
  method TrimTiles(nTiles: nat, kept: nat, files: nat -> TileFiles, skipTrim: bool)
    returns (r: Result<Trimmed, TrimError>)
    ensures r == if skipTrim then Ok(Trimmed([], [])) else Trim(nTiles, kept, files)
  {
    r := Ok(Trimmed([], []));
    if skipTrim {
      return;
    }
    var i := 0;
    while i < nTiles
      invariant 0 <= i <= nTiles
      invariant Trim(i, kept, files) == r
    {
      if r.Err? {
        break;
      }
      r := TrimStep(r.value, i, kept, files(i));
      i := i + 1;
    }
    TrimStaysFailed(i, nTiles, kept, files);
  }

  lemma {:induction false} TrimStaysFailed(i: nat, n: nat, kept: nat, files: nat -> TileFiles)
    requires i <= n && (i < n ==> Trim(i, kept, files).Err?)
    ensures Trim(n, kept, files) == Trim(i, kept, files)
    decreases n - i
  {
    if i < n {
      TrimStaysFailed(i, n - 1, kept, files);
    }
  }

  /** Both files of tile `i` can be read as far as the loop gets to them */
  predicate Readable(f: TileFiles) {
    f.image != Missing && (f.image == Written ==> f.mask != Missing)
  }

  /** The tiles among the first `n` whose image overlaps, in index order */
  function OverlappingImages(files: nat -> TileFiles, n: nat): seq<nat> {
    if n == 0 then []
    else OverlappingImages(files, n - 1) + (if files(n - 1).image == Written then [n - 1] else [])
  }

  /** The tiles among the first `n` whose image and mask both overlap, in index order */
  function OverlappingMasks(files: nat -> TileFiles, n: nat): seq<nat> {
    if n == 0 then []
    else OverlappingMasks(files, n - 1) + (if files(n - 1).image == Written && files(n - 1).mask == Written then [n - 1] else [])
  }

  lemma {:induction false} OverlappingSpec(files: nat -> TileFiles, n: nat)
    ensures forall k :: k in OverlappingImages(files, n) <==> 0 <= k < n && files(k).image == Written
    ensures forall k :: k in OverlappingMasks(files, n) <==>
      0 <= k < n && files(k).image == Written && files(k).mask == Written
  {
    if n > 0 {
      OverlappingSpec(files, n - 1);
    }
  }

  /** One successful iteration over a stored tile appends its index to the written
      images and masks */
  lemma TrimStepWrites(acc: Trimmed, i: nat, kept: nat, f: TileFiles)
    requires i < kept && TrimStep(acc, i, kept, f).Ok?
    ensures TrimStep(acc, i, kept, f).value == Trimmed(
      acc.images + (if f.image == Written then [i] else []),
      acc.masks + (if f.image == Written && f.mask == Written then [i] else []))
  {
  }

  /** A successful loop succeeded at every earlier iteration too */
  lemma TrimUnfold(n: nat, kept: nat, files: nat -> TileFiles)
    requires n > 0 && Trim(n, kept, files).Ok?
    ensures Trim(n - 1, kept, files).Ok?
    ensures Trim(n, kept, files) == TrimStep(Trim(n - 1, kept, files).value, n - 1, kept, files(n - 1))
  {
  }

  /** Within the stored tiles, the loop succeeds exactly when every file it opens exists */
  lemma {:induction false} TrimKeptOk(n: nat, kept: nat, files: nat -> TileFiles)
    requires n <= kept
    ensures Trim(n, kept, files).Ok? <==> forall i: nat :: i < n ==> Readable(files(i))
  {
    if n > 0 {
      TrimKeptOk(n - 1, kept, files);
    }
  }

  /** With every stored tile readable, the first `kept` iterations write the image of
      every tile whose image overlaps and the mask of every tile whose two files overlap */
  lemma {:induction false} TrimKeptWrites(n: nat, kept: nat, files: nat -> TileFiles)
    requires n <= kept && Trim(n, kept, files).Ok?
    ensures Trim(n, kept, files).value == Trimmed(OverlappingImages(files, n), OverlappingMasks(files, n))
  {
    if n > 0 {
      TrimUnfold(n, kept, files);
      var prev := Trim(n - 1, kept, files);
      TrimKeptWrites(n - 1, kept, files);
      TrimStepWrites(prev.value, n - 1, kept, files(n - 1));
    }
  }

  /** As written, the loop fails whenever a tile was skipped while cutting: the lists
      hold `N_tiles - skipped` entries, so index `N_tiles - skipped` is out of range */
  lemma TrimAsWrittenFailsAfterSkip(nTiles: nat, kept: nat, files: nat -> TileFiles)
    requires kept < nTiles
    requires forall i: nat :: i < kept ==> Readable(files(i))
    ensures Trim(nTiles, kept, files) == Err(IndexError(kept))
  {
    TrimKeptOk(kept, kept, files);
    assert Trim(kept + 1, kept, files) == Err(IndexError(kept));
    TrimStaysFailed(kept + 1, nTiles, kept, files);
  }

  /** The loop bound that matches the tile lists: one iteration per stored tile */
  method TrimStoredTiles(tiles: seq<Tile>, files: nat -> TileFiles, skipTrim: bool)
    returns (r: Result<Trimmed, TrimError>)
    ensures !skipTrim ==> (r.Ok? <==> forall i: nat :: i < |tiles| ==> Readable(files(i)))
    ensures r.Ok? && !skipTrim ==>
      r.value == Trimmed(OverlappingImages(files, |tiles|), OverlappingMasks(files, |tiles|))
  {
    r := TrimTiles(|tiles|, |tiles|, files, skipTrim);
    TrimKeptOk(|tiles|, |tiles|, files);
    if r.Ok? && !skipTrim {
      TrimKeptWrites(|tiles|, |tiles|, files);
    }
  }

  /** The outcome of one `task.run`, given how far it gets through the halo subtraction.
      `final_image` and `totmask` are bound only under `clean.clean_img`, and step 13 reads
      both, so without `clean_img` a run that gets past the subtraction raises
      `UnboundLocalError`, which the tile loop does not catch */
  function RunOutcome(throughSubtraction: Outcome, cleanImg: bool): (o: Outcome)
    ensures o.Finished? ==> cleanImg
    ensures cleanImg ==> o == throughSubtraction
    ensures Caught(o) <==> Caught(throughSubtraction)
    ensures o.Crashed? <==> throughSubtraction.Crashed? || (throughSubtraction.Finished? && !cleanImg)
  {
    if throughSubtraction.Finished? && !cleanImg then Crashed else throughSubtraction
  }

  /** The files a tile's MRF run leaves behind. A run whose exception is caught stops
      before `_halosub.fits` is written; a finished run has also written `_mask.fits`,
      since it ran with `clean_img`. A crashed run ends tile mode, so its files are never
      trimmed. Whether each cutout overlaps the low-resolution frame is an input. */
  function FilesAfterRun(o: Outcome, imageOverlaps: bool, maskOverlaps: bool): TileFiles {
    if o.Finished? then
      TileFiles(if imageOverlaps then Written else Outside, if maskOverlaps then Written else Outside)
    else TileFiles(Missing, Missing)
  }

  /** The file table after the MRF loop over the stored tiles */
  function RunFiles(outcomes: seq<Outcome>, imageOverlaps: nat -> bool, maskOverlaps: nat -> bool): nat -> TileFiles {
    (i: nat) => if i < |outcomes| then FilesAfterRun(outcomes[i], imageOverlaps(i), maskOverlaps(i))
                else TileFiles(Missing, Missing)
  }

  /** The outcomes with which the trimming step is reached: no run crashed (`RunTiles`
      succeeded), and every run that finished had `clean_img` (`RunOutcome`) */
  predicate TrimReached(outcomes: seq<Outcome>, cleanImg: bool) {
    forall k :: 0 <= k < |outcomes| ==> !outcomes[k].Crashed? && (outcomes[k].Finished? ==> cleanImg)
  }

  /** Within the stored tiles, every error the loop raises is a missing file */
  lemma {:induction false} TrimKeptErrors(n: nat, kept: nat, files: nat -> TileFiles)
    requires n <= kept
    ensures Trim(n, kept, files).Err? ==> Trim(n, kept, files).error.FileNotFound? && Trim(n, kept, files).error.index < n
  {
    if n > 0 {
      TrimKeptErrors(n - 1, kept, files);
    }
  }

  /** A stored tile with a file the loop cannot open stops the loop at that tile or before */
  lemma {:induction false} TrimFailsAtUnreadable(n: nat, kept: nat, files: nat -> TileFiles, b: nat)
    requires b < n <= kept && !Readable(files(b))
    ensures Trim(n, kept, files).Err? && Trim(n, kept, files).error.FileNotFound?
    ensures Trim(n, kept, files).error.index <= b
  {
    if n - 1 > b {
      TrimFailsAtUnreadable(n - 1, kept, files, b);
    } else {
      TrimKeptErrors(n - 1, kept, files);
    }
  }

  /** Even over the stored tiles, trimming after the MRF loop succeeds exactly when no
      tile was recorded as bad and `clean_img` is set (or no tile was stored) */
  lemma TrimAfterRuns(outcomes: seq<Outcome>, cleanImg: bool, imageOverlaps: nat -> bool, maskOverlaps: nat -> bool)
    requires TrimReached(outcomes, cleanImg)
    ensures var files := RunFiles(outcomes, imageOverlaps, maskOverlaps);
      Trim(|outcomes|, |outcomes|, files).Ok? <==>
        BadTiles(outcomes, |outcomes|) == [] && (cleanImg || |outcomes| == 0)
  {
    var files := RunFiles(outcomes, imageOverlaps, maskOverlaps);
    var n := |outcomes|;
    TrimKeptOk(n, n, files);
    NoBadTilesIff(outcomes);
    RunFilesReadable(outcomes, imageOverlaps, maskOverlaps);
    if n > 0 && !Caught(outcomes[0]) {
      assert outcomes[0].Finished?;
    }
  }

  lemma NoBadTilesIff(outcomes: seq<Outcome>)
    ensures BadTiles(outcomes, |outcomes|) == [] <==> forall k :: 0 <= k < |outcomes| ==> !Caught(outcomes[k])
  {
    BadTilesSpec(outcomes, |outcomes|);
    if BadTiles(outcomes, |outcomes|) != [] {
      assert BadTiles(outcomes, |outcomes|)[0] in BadTiles(outcomes, |outcomes|);
    }
  }

  lemma RunFilesReadable(outcomes: seq<Outcome>, imageOverlaps: nat -> bool, maskOverlaps: nat -> bool)
    ensures var files := RunFiles(outcomes, imageOverlaps, maskOverlaps);
      (forall i: nat :: i < |outcomes| ==> Readable(files(i))) <==> forall k :: 0 <= k < |outcomes| ==> outcomes[k].Finished?
  {
    var files := RunFiles(outcomes, imageOverlaps, maskOverlaps);
    forall i: nat | i < |outcomes|
      ensures Readable(files(i)) <==> outcomes[i].Finished?
    {
      assert files(i) == FilesAfterRun(outcomes[i], imageOverlaps(i), maskOverlaps(i));
    }
  }

  /** Without `clean_img` the trimming step is reached only when every stored tile was
      recorded as bad */
  lemma NoCleanImgEveryTileBad(outcomes: seq<Outcome>)
    requires TrimReached(outcomes, false)
    ensures BadTiles(outcomes, |outcomes|) == Range(|outcomes|)
  {
    AllCaughtBadTiles(outcomes, |outcomes|);
  }

  lemma {:induction false} AllCaughtBadTiles(outcomes: seq<Outcome>, n: nat)
    requires n <= |outcomes|
    requires forall k :: 0 <= k < n ==> Caught(outcomes[k])
    ensures BadTiles(outcomes, n) == Range(n)
  {
    if n > 0 {
      AllCaughtBadTiles(outcomes, n - 1);
      assert Range(n) == Range(n - 1) + [n - 1];
    }
  }

  /** A bad tile makes trimming fail with a missing file, at the first bad tile or before */
  lemma CaughtTileBreaksTrim(outcomes: seq<Outcome>, imageOverlaps: nat -> bool, maskOverlaps: nat -> bool)
    requires BadTiles(outcomes, |outcomes|) != []
    ensures var r := Trim(|outcomes|, |outcomes|, RunFiles(outcomes, imageOverlaps, maskOverlaps));
      r.Err? && r.error.FileNotFound? && r.error.index <= BadTiles(outcomes, |outcomes|)[0]
  {
    var files := RunFiles(outcomes, imageOverlaps, maskOverlaps);
    var b := BadTiles(outcomes, |outcomes|)[0];
    BadTilesSpec(outcomes, |outcomes|);
    assert b in BadTiles(outcomes, |outcomes|);
    assert !Readable(files(b));
    TrimFailsAtUnreadable(|outcomes|, |outcomes|, files, b);
  }

  // ---------------------------------------------------------------------------
  // Stitching

  datatype StitchMethod = Swarp | Reproject

  datatype StitchError = BadStitchMethod

  /** `stitch_method` must be exactly "swarp" or "reproject" */
  function ParseStitchMethod(m: string): (r: Result<StitchMethod, StitchError>)
    ensures r.Ok? <==> m == "swarp" || m == "reproject"
    ensures r == Ok(Swarp) <==> m == "swarp"
  {
    if m == "swarp" then Ok(Swarp)
    else if m == "reproject" then Ok(Reproject)
    else Err(BadStitchMethod)
  }

  /** The file lists handed to the stitcher name tiles 0 to 15 whatever the grid */
  function StitchList(nTiles: nat): (r: seq<nat>) {
    Range(16)
  }

  /** A grid of more than 16 tiles loses every tile from 16 on, and a smaller one names
      files that were never written */
  lemma StitchListIgnoresGrid(nTiles: nat)
    ensures |StitchList(nTiles)| == 16
    ensures nTiles > 16 ==> nTiles - 1 !in StitchList(nTiles)
    ensures nTiles < 16 ==> exists k :: k in StitchList(nTiles) && k >= nTiles
  {
    assert StitchList(nTiles)[15] == 15;
    assert 15 in StitchList(nTiles);
    assert forall k :: k in StitchList(nTiles) ==> k < 16;
  }

  /** The co-added mask as the final combine reads it: SWarp's sum is thresholded at 0,
      the reprojected sum is used as it is */
  function StitchedMaskOf(how: StitchMethod, coadded: Grid<Px>): (r: Grid<Px>)
    ensures Cleaning.SameShape(r, coadded)
  {
    if how == Swarp then Cleaning.StitchedMask(coadded) else coadded
  }

  /** The final tile-mode image `img * ~msk`: with SWarp a pixel is blanked where the
      summed mask is positive, with reproject wherever the sum is not zero */
  lemma FinalImageBlanking(how: StitchMethod, img: Grid<Px>, coadded: Grid<Px>)
    requires Cleaning.SameShape(img, coadded)
    ensures var r := Cleaning.BlankMasked(img, StitchedMaskOf(how, coadded));
      forall i, j :: 0 <= i < |img| && 0 <= j < |img[i]| ==>
        var blanked := if how == Swarp then Greater(coadded[i][j], 0.0) else NonZero(coadded[i][j]);
        r[i][j] == (if !blanked then img[i][j] else if img[i][j].Finite? then Finite(0.0) else NaN)
  {
    Cleaning.BlankMaskedSpec(img, StitchedMaskOf(how, coadded));
    Cleaning.StitchedMaskSpec(coadded);
  }
}
