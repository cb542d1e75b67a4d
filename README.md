# Compensated aperture photometry of one void, in Dafny

This project models the measurement core of the void–CMB toy: the
compensated aperture statistic

    ΔT = <T>_core − <T>_rim

computed on a HEALPix full-sky temperature map around one galactic direction.
The core is a disc of radius `core_frac·θ_R`. The rim is an annulus from
`rim_in_frac·θ_R` to `rim_out_frac·θ_R`. A pixel counts in a region only when
the keep-mask keeps it and its value is finite. The measurement is rejected
when the two maps' resolutions differ, or when either region has fewer than
`min_pix` usable pixels. Otherwise it returns the two means, their difference
and the two pixel counts.

Files:

- `samples.dfy` (module `Samples`): double values as `Finite(real) | NaN |
  PosInf | NegInf`. It holds IEEE subtraction, the ×1e6 conversion, the `>=`
  comparison used for the keep-mask, and `np.mean` (NaN for an empty array),
  with lemmas about bounds, constants and scaling of the mean.
- `aperture_photometry.dfy` (module `AperturePhotometry`): `to_uK`, mask
  thresholding, `disc_mask` (a method that fills a fresh `array<bool>` in a
  loop, as the source does), `annulus_mask`, the two selections, the pixel
  count, value extraction, and `aperture_photometry_deltaT_uK` as a function
  returning `Result<Measurement>`.
- `photometry_properties.dfy` (module `PhotometryProperties`): lemmas on
  region geometry, selection sizes, ΔT on uniform and step maps, unit
  conversion, mask threshold and locality.

Modelling choices:

- A map is a `seq<Float>`, indexed by pixel number. `np.isfinite` is
  `Finite?` of each entry.
- `hp.query_disc` is an input: a `DiscQuery` maps (longitude, latitude,
  radius) to pixel indices. Converting the direction to a unit vector happens
  inside it. The predicate `Monotone` says that a larger radius returns a
  superset. Only `CoreRimDisjoint` and `SelectionsFitInMap` assume it.
- `hp.get_nside` is read as the map length, since `npix = 12·nside²` is
  injective. So the resolution check compares map and mask lengths.
- `disc_mask` (`DiscMask`) requires every queried index to lie below `npix`.
  healpy guarantees this, and numpy would raise `IndexError` otherwise. The
  pure functions use `DiscMaskOf`. Under that precondition, `DiscMask`'s
  postcondition makes the two equal.

Three behaviours of the code that a reader might not expect:

- The code rejects only counts below `min_pix`. So with `min_pix <= 0` an
  empty region is not rejected. `np.mean` of the empty selection gives NaN,
  and the code returns a measurement whose ΔT is NaN (`EmptyCoreYieldsNaN`).
- The code never checks `core_frac <= rim_in_frac`. Core and rim are disjoint
  only under that condition (`CoreRimDisjoint`).
- The only value test is `np.isfinite`, which removes NaN and ±inf. healpy's
  UNSEEN marker (−1.6375e30) is finite. So an UNSEEN pixel that the keep-mask
  keeps is selected, and its value enters the mean (`UnseenPixelIsSelected`).

## Model

| member | source | states |
|---|---|---|
| `Samples.Sub` | void_cmb_toy/measurements/bootes_aperture_photometry.py:117 | `Tcore - Trim` is finite iff both means are finite; it is NaN iff an operand is NaN or both are the same infinity; equal finite values give exactly 0 |
| `Samples.Mean` | void_cmb_toy/measurements/bootes_aperture_photometry.py:115-116 | `np.mean` is finite iff the array is non-empty and NaN iff it is empty; a finite mean times the count is the sum |
| `Samples.MeanBetween` | void_cmb_toy/measurements/bootes_aperture_photometry.py:115-116 | the mean of values in `[lo, hi]` lies in `[lo, hi]` |
| `Samples.MeanOfConstant` | void_cmb_toy/measurements/bootes_aperture_photometry.py:115-116 | the mean of copies of `c` is exactly `c` |
| `Samples.MeanToMicro` | void_cmb_toy/measurements/bootes_aperture_photometry.py:38 | values whose sum is 1e6 times larger have a mean that is 1e6 times larger (NaN stays NaN) |
| `Samples.SubToMicro` | void_cmb_toy/measurements/bootes_aperture_photometry.py:117 | converting both means to µK converts their difference, non-finite cases included |
| `AperturePhotometry.DefaultAperture` | void_cmb_toy/measurements/bootes_aperture_photometry.py:76-79 | the default fractions are strictly increasing (0.6 < 0.8 < 1.2) and `min_pix` defaults to 50 |
| `AperturePhotometry.ApertureRadii` | void_cmb_toy/measurements/bootes_aperture_photometry.py:97-100 | for θ_R > 0 the radii are ordered exactly as the fractions are; for θ_R ≥ 0 and `core_frac <= rim_in_frac` the core radius is at most the rim's inner radius; θ_R = 0 gives zero radii |
| `AperturePhotometry.ToMicroKelvin` | void_cmb_toy/measurements/bootes_aperture_photometry.py:37-38 | the map is unchanged when already in µK; otherwise every pixel is multiplied by 1e6, and NaN and infinities are kept |
| `AperturePhotometry.KeepMask` | void_cmb_toy/measurements/bootes_aperture_photometry.py:48 | one entry per mask pixel; a pixel is kept iff its value is finite and `>= threshold`, or is +inf (NaN is never kept) |
| `AperturePhotometry.DiscMask` | void_cmb_toy/measurements/bootes_aperture_photometry.py:57-61 | returns a fresh array of `npix` entries that is true exactly at the queried pixel indices |
| `AperturePhotometry.AnnulusMask` | void_cmb_toy/measurements/bootes_aperture_photometry.py:64-67 | a pixel is in the annulus iff the outer-radius query returns it and the inner-radius query does not |
| `AperturePhotometry.CoreSelection` | void_cmb_toy/measurements/bootes_aperture_photometry.py:102-106 | a pixel is selected iff the core query returns it, the keep-mask keeps it and its value is finite; nothing else is selected |
| `AperturePhotometry.RimSelection` | void_cmb_toy/measurements/bootes_aperture_photometry.py:103-107 | a pixel is selected iff it is in the rim annulus, the keep-mask keeps it and its value is finite; nothing else is selected |
| `AperturePhotometry.Count` | void_cmb_toy/measurements/bootes_aperture_photometry.py:109 | `sel.sum()` is the number of true entries of the mask, which is at most its length and is 0 iff no entry is true |
| `AperturePhotometry.Extract` | void_cmb_toy/measurements/bootes_aperture_photometry.py:115-116 | `cmb_uK[sel]` has one value per selected pixel, and selected pixel `p` supplies the value at position "number of selected pixels before `p`", so the values are the selected pixels' values in pixel order |
| `AperturePhotometry.AperturePhotometryDeltaT` | void_cmb_toy/measurements/bootes_aperture_photometry.py:70-131 | succeeds iff map and mask sizes match and both selections have at least `min_pix` pixels; fails with `NsideMismatch` iff the sizes differ, and otherwise with `TooFewPixels` iff either selection is too small; on success the counts are the selection sizes, the temperatures are the means of the selected values, ΔT is their difference, and the inputs are echoed |
| `PhotometryProperties.CountMonotone` | void_cmb_toy/measurements/bootes_aperture_photometry.py:109 | a mask that is true wherever another is true has at least as large a count |
| `PhotometryProperties.CountDisjoint` | void_cmb_toy/measurements/bootes_aperture_photometry.py:109 | two masks that never share a pixel have counts summing to at most the number of pixels |
| `PhotometryProperties.AnnulusExcludesInnerDisc` | void_cmb_toy/measurements/bootes_aperture_photometry.py:64-67 | the annulus never shares a pixel with its inner disc and lies within its outer disc |
| `PhotometryProperties.CoreRimDisjoint` | void_cmb_toy/measurements/bootes_aperture_photometry.py:97-103 | with a monotone query, θ_R ≥ 0 and `core_frac <= rim_in_frac`, no pixel is in both the core disc and the rim annulus |
| `PhotometryProperties.SelectionsFitInMap` | void_cmb_toy/measurements/bootes_aperture_photometry.py:123-124 | under the same conditions, a successful measurement has `n_core_pix + n_rim_pix` at most the number of map pixels |
| `PhotometryProperties.DefaultRadiiOrdered` | void_cmb_toy/measurements/bootes_aperture_photometry.py:97-100 | with the default fractions and θ_R > 0, 0 < core radius < rim inner radius < rim outer radius |
| `PhotometryProperties.ExtractBetween` | void_cmb_toy/measurements/bootes_aperture_photometry.py:115-116 | bounds on the selected pixels' values hold for every extracted value |
| `PhotometryProperties.ExtractAgrees` | void_cmb_toy/measurements/bootes_aperture_photometry.py:115-116 | two maps that agree on the selected pixels give the same extracted values |
| `PhotometryProperties.ExtractToMicro` | void_cmb_toy/measurements/bootes_aperture_photometry.py:38 | after conversion to µK the extracted values are as many, with a sum 1e6 times larger |
| `PhotometryProperties.DeltaTBounds` | void_cmb_toy/measurements/bootes_aperture_photometry.py:115-117 | if selected core values lie in `[a, b]` and selected rim values in `[c, d]`, a successful measurement over two non-empty selections has finite means in those ranges and a finite ΔT in `[a − d, b − c]` |
| `PhotometryProperties.PositiveMinPixMeansNonEmpty` | void_cmb_toy/measurements/bootes_aperture_photometry.py:109-113 | with `min_pix >= 1`, a successful measurement has at least one core pixel and at least one rim pixel |
| `PhotometryProperties.UniformMapHasZeroDeltaT` | void_cmb_toy/measurements/bootes_aperture_photometry.py:115-117 | if every finite pixel in the core disc or the outer rim disc holds `c`, a successful measurement over two non-empty selections has ΔT exactly 0 |
| `PhotometryProperties.StepMapDeltaT` | void_cmb_toy/measurements/bootes_aperture_photometry.py:115-117 | if finite core pixels hold `c_core` and finite rim pixels hold `c_rim`, a successful measurement over two non-empty selections has `Tcore = c_core`, `Trim = c_rim` and ΔT = `c_core − c_rim` |
| `PhotometryProperties.EmptyCoreYieldsNaN` | void_cmb_toy/measurements/bootes_aperture_photometry.py:109-117 | with `min_pix <= 0` and no usable core pixel, the measurement succeeds with `n_core_pix = 0`, a NaN core mean and a NaN ΔT |
| `PhotometryProperties.UnseenPixelIsSelected` | void_cmb_toy/measurements/bootes_aperture_photometry.py:105-106 | a kept core pixel holding healpy's UNSEEN value (−1.6375e30) is selected, because it is finite, and that value is among those averaged into `Tcore` |
| `PhotometryProperties.ConversionKeepsSelections` | void_cmb_toy/measurements/bootes_aperture_photometry.py:105-107 | converting the map to µK selects exactly the same core and rim pixels |
| `PhotometryProperties.ConversionScalesMean` | void_cmb_toy/measurements/bootes_aperture_photometry.py:115-116 | the mean of a selection of the converted map is the converted mean |
| `PhotometryProperties.ConversionScalesDeltaT` | void_cmb_toy/measurements/bootes_aperture_photometry.py:37-38 | measuring after `to_uK` succeeds iff measuring before does, with the same counts and every temperature, ΔT included, converted to µK |
| `PhotometryProperties.LowerThresholdKeepsSuccess` | void_cmb_toy/measurements/bootes_aperture_photometry.py:109-113 | lowering the mask threshold never lowers either count; success at a threshold implies success at any lower one, and a too-few-pixels failure implies the same failure at any higher one |
| `PhotometryProperties.OnlyAperturePixelsMatter` | void_cmb_toy/measurements/bootes_aperture_photometry.py:102-117 | two maps that agree on every pixel in the core disc or the outer rim disc give the same result |

## Left out

- File and command-line input and output: `load_healpix_map`, the `hp.read_map` call in `load_keep_mask`, argument parsing, and JSON printing and writing in `main`. None of these have behaviour to state. `KeepMask` models only the thresholding of the mask that was read.
- `radec_to_galactic`: an astropy coordinate transform. The model takes galactic coordinates as given.
- Spherical geometry: `hp.query_disc` (with `inclusive=False`), `hp.ang2vec` and the degree-to-radian conversion of the centre are healpy calls. Together they are the `DiscQuery` input. Query monotonicity is an assumption stated where it is used.
- `hp.get_nside` raises its own error when a length is not `12·nside²`. This is not modelled: only equality of the two lengths is checked.
- IEEE-754 rounding and overflow: finite doubles are exact reals. So `np.mean`'s summation order, rounding in `m * 1e6`, and overflow to infinity are not captured. The same goes for a NaN or infinite mask threshold, since `KeepMask` takes a real threshold.
- `AperturePhotometry.AperturePhotometryDeltaT`: it does not require every queried index to be below `npix`. `DiscMaskOf` ignores an out-of-range index, where `m[ipix] = True` in `disc_mask` would raise `IndexError`. healpy never returns such an index.
- `AperturePhotometry.AperturePhotometryDeltaT`: the error messages are not modelled. `NsideMismatch` carries the two pixel counts, not the two nside values.
- Bootstrap uncertainty, the random-centre null distribution and multi-map sweeps. The source's own docstring says they are not in this file.
- `void_cmb_toy/common/gop_void_toy.py`, `lambda_vs_gop_vacuum.py`, `void_cmb_toy/predictions/generate_panels.py` and `void_cmb_toy/predictions/bootes_prediction.py`. These are closed-form floating-point formulas, plots and command-line wrappers, and are not part of this model.
