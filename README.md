# MRF task core in Dafny

This project models the discrete logic inside `mrf/task.py` of the MRF package. MRF
(Multi-Resolution Filtering) removes compact sources from low-resolution images (for
example Dragonfly data) by building a flux model from a high-resolution image of the
same field. It then subtracts the halos of bright stars, using a stacked or a hybrid
wide-angle PSF (point spread function). The model covers these parts:

- **Configuration defaulting** (`common.dfy`, `config.dfy`): `Config.complete_config`.
  Each of six sections gets its missing default keys. `wide_psf` is created when it is
  absent. Any other missing section raises `AttributeError` after the sections before it
  have already been filled. The configuration object is a class whose method fills the
  sections in place.
- **Flux model** (`pixels.dfy`, `fluxmodel.dfy`): the colour ratio and its artefact
  removal, the flux ratio clipped to [0.1, 10], the choice of band, the binary mask and
  the masked flux model. Pixels are `Finite(v) | NaN | Inf(sign)`, and comparisons and
  products follow IEEE rules.
- **Bright-star bookkeeping** (`stars.dfy`): removal of stars near protected galaxies,
  the PSF-star filters, the sort by flux, the reversal and the `n_stack` truncation.
  Also the row-by-row filling of `stack_set` with 1e9 sentinel rows and their deletion,
  and the PS1 cross-match that puts matched stars first.
- **Halo rendering** (`grids.dfy`, `halos.dfy`): stamps are added into a zero canvas
  padded by `2 * halosize` (stacked PSF) or by 501 (wide PSF), at positions truncated
  with `astype(int)`. The canvas is then cropped and, for the stacked PSF, subtracted
  as it is. The wide-PSF drawing first shifts the cropped image by `-1/magnify_factor`
  (`mrf/task.py:901`); that shift is not modelled, so `Halos.Subtract` and
  `Halos.LoneStarSubtraction` describe the stacked subtraction only. The canvas is a
  two-dimensional array updated in place.
- **Hybrid PSF** (`hybrid.dfy`): the stacked PSF is embedded in the 501-pixel model PSF.
  NaNs are filled with the scaled model, the window is zeroed in `temp`, and the result
  is renormalised twice. The array is updated in place.
- **Mask application** (`cleaning.dfy`): binarising the model mask and the bright-star
  mask, `image * ~mask`, and the threshold on the stitched mask.
- **Tile mode** (`tiles.dfy`): the tiling decision and the master band, the grid counts
  and boxes, and the cutting loop with its `j`/`skipped` counters. Also the per-tile MRF
  loop with its caught exceptions, the trimming loop, the stitch-method check and the
  hard-coded stitch list.
- **Wide-PSF dataset check** (`guards.dfy`): the assertion at the start of
  `MrfTask.run`.

External computations are inputs to the model or uninterpreted functions. These are the
convolutions, the medians, `np.power`, `shift_image`, `compute_Rnorm`, the aperture mask,
`match_coordinates_sky`, the `Cutout2D` overlap test and the magnitude-to-flux fit.

Where the comments in the source and the code disagree, the model follows the code.
The comment before the tile lists are appended says they hold each tile's size and
centre "before overlap". The code overwrites both with the grown box first, so the
lists hold the overlapped extents (`Tiles.TileIsGrownBox`).

## Model

| member | source | states |
|---|---|---|
| Settings.Merged | mrf/task.py:51-53 | a filled section holds exactly the section's keys plus the default keys |
| Settings.TaskConfig.FillSection | mrf/task.py:111-113 | the per-key `setattr` loop leaves the section equal to the merge of the section and its default table |
| Settings.TaskConfig.CompleteConfig | mrf/task.py:30-127 | after the in-place completion the configuration and the missing section (if any) are those of the functional completion of the old configuration |
| SettingsFacts.MergedSpec | mrf/task.py:64-66 | a value already present is never overwritten; every added key is a default key with its default value; every default key is present |
| SettingsFacts.MergedIdempotent | mrf/task.py:76-78 | filling a section twice equals filling it once |
| SettingsFacts.RunFrame | mrf/task.py:30-127 | completion never removes an entry, never touches a leaf or a section outside the visited ones, and keeps every set value |
| SettingsFacts.RunFills | mrf/task.py:30-127 | after a successful run every visited section exists and holds all its default keys |
| SettingsFacts.RunSucceedsIff | mrf/task.py:30-127 | completion succeeds exactly when every visited section is present or may be created |
| SettingsFacts.RunFailsAtFirstAbsent | mrf/task.py:30-127 | a failure names a visited section that is absent and may not be created |
| SettingsFacts.RunIdempotent | mrf/task.py:30-127 | running the completion again over its own output changes nothing and succeeds |
| SettingsFacts.CompleteSucceedsIff | mrf/task.py:51-127 | `complete_config` succeeds exactly when sex, fluxmodel, kernel, starhalo and clean are sections and `wide_psf` is absent or a section |
| SettingsFacts.CompleteFillsDefaults | mrf/task.py:109-113 | after success every section, `wide_psf` included, holds every default key |
| SettingsFacts.CompleteKeepsValues | mrf/task.py:51-127 | no pre-set value is overwritten, no entry removed, no top-level leaf touched |
| SettingsFacts.CompleteIdempotent | mrf/task.py:30-127 | a second `complete_config` changes nothing |
| FluxModel.ColourRatioSanitised | mrf/task.py:339-340 | the colour ratio is finite everywhere; it is the quotient where that is finite and 0 where it is NaN or infinite |
| FluxModel.FluxRatioBounded | mrf/task.py:346-349 | with a finite nonzero median every flux ratio is in [0.1, 10], and a zeroed colour pixel becomes exactly 1 |
| FluxModel.FluxRatioOfNaNMedian | mrf/task.py:346-349 | with a NaN median every flux ratio is NaN, because NaN fails both comparisons |
| FluxModel.CorrectedImage | mrf/task.py:352-357 | `ValueError` exactly when the band is neither "g" nor "r"; otherwise the chosen band's image times the correction, pixel by pixel |
| FluxModel.BinaryMaskSpec | mrf/task.py:401-402 | the mask is 0/1 and is 1 exactly where the segmentation map is nonzero and the colour ratio is nonzero |
| FluxModel.MaskedFluxModelSpec | mrf/task.py:407-411 | the flux model has no NaN, is 0 where the smoothed mask is below the threshold and keeps every non-NaN pixel where it is not |
| FluxModel.MaskedFluxModelFinite | mrf/task.py:407-411 | without infinities in the corrected image the flux model is entirely finite |
| Stars.GalaxyMatchesToRemove | mrf/task.py:524-527 | a bright-star index is listed exactly when some protected galaxy has it as nearest match within 10 arcsec |
| Stars.ListedIffProtected | mrf/task.py:524-529 | a star is listed for removal exactly when it is protected |
| Stars.RemoveProtectedSpec | mrf/task.py:528-529 | every unprotected star survives and every survivor is an unprotected catalogue star |
| Stars.CandidatesAreEligible | mrf/task.py:538-546 | the successive filters keep exactly the stars with fwhm below the limit, 12 < mag < bright_lim and padsize < x < nx - padsize, padsize < y < ny - padsize, in catalogue order |
| Stars.SortByFlux | mrf/task.py:547 | the sorted table is ascending in flux and a permutation of its input |
| Stars.SliceTo | mrf/task.py:549 | `s[:n]` is a prefix of length min(n, len) for n >= 0 and max(len + n, 0) for negative n |
| Stars.PsfStarsSplit | mrf/task.py:538-549 | the selection is a prefix of the candidates in non-increasing flux, and the selection plus the left-overs are the candidates |
| Stars.PsfStarsCountAndOrder | mrf/task.py:547-549 | the selected stars number min(n_stack, candidates) (counted from the end when negative) and are in non-increasing flux order |
| Stars.PsfStarsAreEligible | mrf/task.py:538-549 | every selected star is eligible and selected no more often than it occurs |
| Stars.PsfStarsAreBrightest | mrf/task.py:547-549 | no eligible star left out is brighter than a selected one |
| Stars.BuildStack | mrf/task.py:555-581 | row i of `stack_set` is star i's normalised patch, or the 1e9 sentinel for a failed star; `bad_indices` lists the failed stars in order |
| Stars.FailedBelow | mrf/task.py:579-581 | an index is in `bad_indices` exactly when that star failed |
| Stars.StackAfterDelete | mrf/task.py:586 | after `np.delete` the stack holds exactly the successful stars' patches in catalogue order |
| Stars.DeleteRowsSpec | mrf/task.py:586 | deletion drops exactly the listed rows and keeps every other row |
| Stars.PickSplit | mrf/task.py:845 | the matched and the unmatched rows together are the catalogue, as a multiset |
| Stars.PickZip | mrf/task.py:844-846 | filtering two columns by one flag keeps them aligned row for row |
| Stars.JoinPs1KeepsStars | mrf/task.py:843-846 | the joined table has one row per star and loses or repeats none |
| Stars.JoinPs1PairsMatches | mrf/task.py:843-846 | the stars matched within 5 arcsec come first, each beside its own nearest PS1 row |
| Stars.JoinPs1MasksUnmatched | mrf/task.py:843-846 | the unmatched stars follow, with masked PS1 columns |
| Grids.WindowSumScaled | mrf/task.py:795-797 | the sum over a window of a scaled image is the scale times the window's sum |
| Grids.GridSumScaled | mrf/task.py:794 | the sum of a scaled image is the scale times the image's sum |
| Grids.WholeWindowIsGridSum | mrf/task.py:794-796 | the window covering the whole image sums to the image's sum |
| Halos.Trunc | mrf/task.py:692-693 | `astype(int)` rounds toward zero for both signs |
| Halos.AddStamp | mrf/task.py:699-703 | the window pixels gain the stamp times its weight and every other canvas pixel is unchanged |
| Halos.Crop | mrf/task.py:705 | the crop is `ny x nx` and pixel (i, j) is canvas pixel (i + off, j + off) |
| Halos.RenderHalos | mrf/task.py:683-705 | succeeds exactly when every star's window slice has the stamp's shape, with the sum of all stamps at each pixel; otherwise names the first star whose slice does not |
| Halos.HaloSumFar | mrf/task.py:688-703 | a canvas pixel outside every star's window receives nothing |
| Halos.HaloSumAppend | mrf/task.py:688-703 | the halo image is additive over lists of stars |
| Halos.InFrameStarFits | mrf/task.py:683-700 | a star whose truncated position is inside the frame always fits the padded canvas |
| Halos.StampCentredOnStar | mrf/task.py:697-705 | a lone in-frame star's stamp centre lands on the star's truncated pixel of the cropped image |
| Halos.StackedHalos | mrf/task.py:682-705 | the stacked halo image is the stamp sum on a canvas padded by `2 * halosize` with window side `2 * halosize + 1` |
| Halos.WideHalos | mrf/task.py:868-897 | the wide halo image is the stamp sum on a canvas padded by 501 with window side 501 |
| Halos.WideWeightsAsStacked | mrf/task.py:886-892 | when no star brighter than 15.5 mag has a truthy PS1 magnitude, the wide drawing weights every star by its flux, as the stacked drawing with `norm` other than `flux_ann` does (698-703), so the two halo images on a canvas agree |
| Halos.HaloSumOnlyOne | mrf/task.py:699-703 | when no other star's window covers a canvas pixel, the accumulated canvas there is that one star's contribution if it has been added, and 0 otherwise |
| Halos.LoneStarPixel | mrf/task.py:699-705 | a frame pixel inside exactly one star's window holds exactly that star's contribution |
| Halos.LoneStarSubtraction | mrf/task.py:707-709 | at such a pixel `img_sub` is the residual minus that star's stamp pixel times its normalisation, and the model gains the same amount |
| Halos.FarPixelsKeepResidual | mrf/task.py:705-707 | a frame pixel outside every window keeps `img_sub == res` |
| Hybrid.AxisFitsIff | mrf/task.py:775-778 | the embedded window fits exactly when the stacked PSF's side is odd and at most 501 |
| Hybrid.Spliced | mrf/task.py:770-793 | inside the aperture in the window the new PSF is the normalised stacked PSF, elsewhere the normalised model PSF over `scale_factor` |
| Hybrid.Splice | mrf/task.py:776-793 | the in-place construction of `new_psf` produces the spliced PSF |
| Hybrid.RenormaliseWindowSum | mrf/task.py:794-797 | after renormalisation the window carries exactly the target flux |
| Hybrid.RenormaliseIsScaling | mrf/task.py:794-797 | the two renormalisations amount to one uniform scaling, nonzero when the target is |
| Hybrid.RenormaliseInPlace | mrf/task.py:794-797 | the in-place `/=` and `*=` leave the array equal to the functional renormalisation |
| Hybrid.HybridPsf | mrf/task.py:763-797 | fails on a window shape mismatch exactly when a side of the stacked PSF is even or above 501; otherwise a 501 x 501 image |
| Hybrid.BuildHybridPsf | mrf/task.py:763-797 | the imperative construction returns the functional hybrid PSF, failures included |
| Hybrid.NormalisedSumsToOne | mrf/task.py:794 | dividing by the sum gives an image summing to 1 |
| Hybrid.HybridWindowCarriesStackedFlux | mrf/task.py:795-797 | the final PSF's embedded window sums to `sum(median_psf)` |
| Hybrid.HybridIsScaledSplice | mrf/task.py:790-797 | the final PSF is the spliced PSF times one nonzero constant |
| Cleaning.BinariseModelMaskSpec | mrf/task.py:616-617 | the model mask is 1 exactly where it is not below the threshold and not zero (NaN included), 0 elsewhere |
| Cleaning.BinariseModelMaskIdempotent | mrf/task.py:616-617 | with a threshold of at most 1, binarising again changes nothing |
| Cleaning.ThresholdPositiveSpec | mrf/task.py:623 | positive pixels become 1, every other pixel is kept, and no pixel's truth value changes |
| Cleaning.ThresholdPositiveIdempotent | mrf/task.py:623 | thresholding twice is thresholding once |
| Cleaning.BlankMaskedSpec | mrf/task.py:630 | where the mask is unset the image is kept; where set a finite pixel becomes 0 and NaN/inf becomes NaN |
| Cleaning.BlankMaskedIdempotent | mrf/task.py:630 | blanking twice with one mask is blanking once |
| Cleaning.ThresholdDoesNotChangeBlanking | mrf/task.py:623-630 | setting the positive mask pixels to 1 does not change the blanked image |
| Cleaning.StitchedMaskSpec | mrf/task.py:1584 | the stitched mask is 1 exactly where the co-added mask is positive, 0 elsewhere, and is a fixed point of the threshold |
| Cleaning.FinalImageOfStitch | mrf/task.py:1494-1499 | the final tile-mode image keeps a pixel exactly where the co-added mask is not positive |
| Tiles.MasterBandIsSmallerArea | mrf/task.py:1150-1179 | the six-way comparison picks r exactly when r's area is strictly smaller than g's |
| Tiles.DecideSpec | mrf/task.py:1133-1179 | tile mode is entered exactly when a g-band side is at least 1.5 max_size (else `AssertionError`); the tiling sides are the master band's, of the smaller area |
| Tiles.Ceil | mrf/task.py:1189-1196 | `ceil(v)` is the least integer not below v |
| Tiles.GridCovers | mrf/task.py:1189-1196 | each axis has at least one tile of at least one pixel and N times len covers the side |
| Tiles.MakeLayout | mrf/task.py:1187-1196 | the layout computed from the master band's sides covers both axes with non-negative margins |
| Tiles.CellInGrid | mrf/task.py:1222-1224 | every tile index below N_x N_y lands in a cell of the grid |
| Tiles.CellOfIndex | mrf/task.py:1222-1224 | every cell is reached from index `row * N_x + column` |
| Tiles.CellInjective | mrf/task.py:1222-1224 | no two tile indices share a cell |
| Tiles.PreSpansAbut | mrf/task.py:1226-1232 | adjacent columns share their boundary pixel unless the first is clipped |
| Tiles.PreSpanNonEmptyIff | mrf/task.py:1226-1232 | a column is non-empty exactly when it starts inside the image |
| Tiles.LastColumnReachesEdge | mrf/task.py:1226-1232 | the last column and the last row end on the image's last pixel |
| Tiles.ColumnsCover | mrf/task.py:1226-1232 | every pixel lies in column `p / len`, which is a column of the grid |
| Tiles.GrowContains | mrf/task.py:1240-1244 | the grown box contains the column's box and stays inside the image |
| Tiles.TileIsGrownBox | mrf/task.py:1246-1251 | the stored centre and size describe the grown box, which covers the column and stays in the image |
| Tiles.PlanTiles | mrf/task.py:1219-1329 | the stored tiles are the kept tiles in index order, `j` is their number and `j + skipped == N_tiles` |
| Tiles.KeptTilesMembers | mrf/task.py:1267-1327 | a tile is stored exactly when it is the tile of some index and cutting is off or its cutout overlaps |
| Tiles.KeptTilesWithoutCut | mrf/task.py:1267-1327 | with `skip_cut_tile` every tile is stored, in index order |
| Tiles.RunTiles | mrf/task.py:1370-1399 | succeeds exactly when no tile raises an uncaught exception, returning the caught bad tiles; otherwise names the first tile that did |
| Tiles.BadTilesSpec | mrf/task.py:1385-1399 | the bad-tile list holds exactly the tiles whose exception is caught, in increasing order |
| Tiles.TrimTiles | mrf/task.py:1406-1471 | the trimming loop's result is the trimming of the first `N_tiles` indices, or nothing with `skip_trim` |
| Tiles.TrimKeptOk | mrf/task.py:1406-1471 | within the stored tiles the loop succeeds exactly when every file it opens exists |
| Tiles.TrimKeptWrites | mrf/task.py:1429-1469 | on success the written images are the tiles whose image overlaps and the written masks those whose image and mask overlap |
| Tiles.TrimAsWrittenFailsAfterSkip | mrf/task.py:1408-1424 | with a skipped tile the loop as written raises `IndexError` at the first missing list entry |
| Tiles.TrimStoredTiles | mrf/task.py:1406-1471 | looping over the stored tiles succeeds exactly when their files exist and writes the overlapping tiles |
| Tiles.TrimKeptErrors | mrf/task.py:1408-1472 | within the stored tiles, every error the trimming loop raises is a missing file at an index already visited |
| Tiles.TrimFailsAtUnreadable | mrf/task.py:1432-1453 | a stored tile whose halo-subtracted image, or (when its image overlaps) its mask, is missing stops the loop with `FileNotFoundError` at that tile or before |
| Tiles.RunOutcome | mrf/task.py:609-645 | a run finishes only with `clean_img`: without it, a run that gets past the halo subtraction reads the unbound `final_image` and `totmask` and crashes with `UnboundLocalError`; caught exceptions are unchanged, and with `clean_img` the outcome is as it was |
| Tiles.TrimAfterRuns | mrf/task.py:1370-1453 | when trimming is reached (no run crashed, every finished run had `clean_img`), trimming the stored tiles succeeds exactly when no tile was bad and `clean_img` is set or no tile was stored |
| Tiles.NoCleanImgEveryTileBad | mrf/task.py:612-645 | without `clean_img`, trimming is reached only when every stored tile is in `bad_tiles` |
| Tiles.CaughtTileBreaksTrim | mrf/task.py:1385-1432 | a recorded bad tile makes trimming raise `FileNotFoundError` at the first bad tile or before |
| Tiles.ParseStitchMethod | mrf/task.py:1477-1478 | `ValueError` unless the stitch method is exactly "swarp" or "reproject" |
| Tiles.StitchListIgnoresGrid | mrf/task.py:1483-1488 | the stitch lists name tiles 0 to 15 whatever the grid, dropping tiles from 16 on and naming absent ones for small grids |
| Tiles.FinalImageBlanking | mrf/task.py:1494-1499 | with SWarp a pixel is blanked where the summed mask is positive, with reproject wherever it is nonzero |
| Guards.WidePsfCheckNeverFails | mrf/task.py:231-233 | the wide-PSF assertion as written holds for every dataset and flag |
| Guards.WidePsfAllowedSpec | mrf/task.py:231-233 | the intended check rejects exactly `wide_psf` on non-Dragonfly data and only rejects what the written one accepted |
| Guards.WidePsfAllowsDragonfly | mrf/task.py:231-233 | the intended check accepts "DF" and "dragonfly" |
| Guards.WidePsfRejectsHsc | mrf/task.py:231-233 | the intended check rejects "hsc" with `wide_psf`, which the written one accepts |

## Left out

- FITS input and output, logging, plotting, `os.system` and the SWarp script text are not modelled. They are I/O.
- These foreign computations are inputs: the convolutions, the resize, `extract_obj`, `Autokernel`, SEP, `Cutout2D`, WCS conversions, `match_coordinates_sky`, `shift_image`, `compute_Rnorm`, the aperture mask, `PSF_Model`, `reproject_and_coadd` and SWarp itself.
- `nanmedian`, `sigma_clip`, `nanstd`, `polyfit`, the `log10` magnitudes and `np.power` are left abstract. They are floating-point statistics.
- The MAST query and its three-attempt retry are not modelled: they are network code. As written, `HTTPError` is not imported in that scope.
- The per-tile `MrfTask.run` call is one outcome per tile (`Tiles.Outcome`), not a re-run of the pipeline.
- `Star` construction, `centralize`, `mask_out_contam` and the `cval` parsing are folded into a per-star outcome. It is either a patch with its fluxes or a failure.
- `img_replace_with_noise` (the `replace_with_noise` branch of the cleaning step) is not modelled: it is random noise from a foreign helper.
- The unused `im_padded` copies of the residual in both halo routines are not modelled, because nothing reads them.
- Arithmetic is on exact reals. Rounding, signed zero and float `ceil` rounding are not modelled.
- Pixels are `Finite | NaN | Inf`, and `Mul` and `Div` follow IEEE only for the cases the model uses. NaN inside the stacked PSF and inside the grid sums of the renormalisation is not modelled.
- Stars.SortByFlux: fixes an insertion order for equal fluxes, whereas astropy's sort order for ties is not specified. The contract states only the order and the permutation.
- Halos.RenderHalos: requires the padding to be at least the stamp half-width, which both callers satisfy. Star stamp shapes are inputs, checked by `Fits` rather than produced by `shift_image`.
- Halos.LoneStarSubtraction: describes the stacked subtraction (`mrf/task.py:707-709`) only. The wide drawing subtracts the halo image after shifting it by `-1/magnify_factor` (`mrf/task.py:901-904`), and that interpolation is not modelled.
- Halos.WideWeight: the magnitude-to-flux fit is a function parameter. A masked PS1 magnitude is `None`, and a zero magnitude counts as falsy, as in the source.
- Hybrid.HybridPsf: a division by zero in a normalisation (a zero sum or a zero `scale_factor`) is a modelled failure, where numpy would yield inf/NaN instead.
- Tiles.MakeLayout: requires a positive `max_size`, a non-negative overlap and positive sides. For other values the source divides by zero or produces meaningless grids.
- Tiles.TrimStoredTiles: corrects only the loop bound. After a bad tile it still raises `FileNotFoundError` (`Tiles.TrimAfterRuns`, `Tiles.CaughtTileBreaksTrim`). The source gives no evident intended behaviour for that, so the model does not supply one.
- Tiles.FilesAfterRun: files left over from earlier runs in the tile directory are not modelled. A caught exception is taken to end the run before `_halosub.fits` is written, as all three caught exceptions (empty flux model, too few stars, PS1 timeout) do.
- Tiles.RunOutcome: without `clean.clean_img`, `task.run` reads the unbound `final_image` and `totmask` at `mrf/task.py:645`. The model keeps that as written: the run crashes, and tile mode stops inside the MRF loop. Which values step 13 was meant to use without cleaning is not evident from the source, so no corrected run is modelled.
- Tiles.PlanTiles: the four parallel lists `tiles_xcen`, `tiles_ycen`, `tiles_xlen` and `tiles_ylen` are one list of records. Their lengths are therefore equal by construction.
- Tiles.PlanTiles: the `NoOverlapError` test on the low-resolution cutout is a predicate on the tile. The g/r tile cutouts and the file writes are not modelled.
- Tiles.PreSpanNonEmptyIff: a column with `k * len > side - 1` produces a negative size. That happens only when `N (N - 1) >= side`, i.e. tiny images; the model computes it as the source does, and the size is not checked.
- The rebinning loop over the tiles (1335-1362) is not modelled: it is only foreign calls.
- Guards.Lower: lower-casing is ASCII only, unlike Python's `str.lower`.

## Findings

| source | as written | input that shows it | evidently intended | confidence | as-written member | corrected member |
|---|---|---|---|---|---|---|
| mrf/task.py:231-233 | `(ds != 'df' or ds != 'dragonfly') and wide_psf or not wide_psf` is true for every name | low-resolution dataset "hsc" with `wide_psf=True` passes the assertion | `wide_psf` only for "df" or "dragonfly" (`and`, or `not in`) | high, not executed | Guards.WidePsfCheckNeverFails | Guards.WidePsfAllowedSpec |
| mrf/task.py:1408-1424 | the trimming loop runs over `range(N_tiles)` but the tile lists hold `N_tiles - skipped` entries | one tile whose low-resolution cutout raises `NoOverlapError`, without `skip_trim`: `tiles_xcen[N_tiles - 1]` raises `IndexError` | loop over the stored tiles, as the rebinning and MRF loops do (a bad tile still stops that loop, see `Tiles.CaughtTileBreaksTrim`) | high, not executed | Tiles.TrimAsWrittenFailsAfterSkip | Tiles.TrimStoredTiles |
