/** The compensated aperture statistic ΔT = <T>_core - <T>_rim of one void on a
    HEALPix temperature map: a disc (core) and an annulus (rim) scaled to the
    void's angular radius θ_R, pixel selection by region, keep-mask and
    finiteness, a minimum-pixel rule, and the difference of the two means. */
module AperturePhotometry {
  import opened Samples

  /** One boolean per pixel of the map, indexed by HEALPix pixel number. */
  type Mask = seq<bool>

  /** `hp.query_disc` on the map's pixelization: given the galactic longitude
      and latitude of the centre (degrees) and a radius (radians), the indices
      of the pixels whose centres lie within the radius. */
  type DiscQuery = (real, real, real) -> seq<nat>

  datatype Error =
    | NsideMismatch(mapNpix: nat, maskNpix: nat)  // the ValueError
    | TooFewPixels                                // the RuntimeError

  datatype Result<T> = Success(value: T) | Failure(error: Error)

  /** Aperture geometry relative to θ_R, and the minimum-pixel rule. */
  datatype Aperture = Aperture(
    thetaRDeg: real, coreFrac: real, rimInFrac: real, rimOutFrac: real, minPix: int)

  /** The radii (radians) of the core disc and of the rim's inner and outer edges. */
  datatype Radii = Radii(core: real, rimIn: real, rimOut: real)

  /** The record a successful measurement returns. */
  datatype Measurement = Measurement(
    deltaT: Float, tCore: Float, tRim: Float, nCore: nat, nRim: nat,
    thetaRDeg: real, coreFrac: real, rimInFrac: real, rimOutFrac: real,
    galLonDeg: real, galLatDeg: real)

  /** `np.pi` */
  const Pi: real := 3.141592653589793

  /** healpy's UNSEEN marker for a missing pixel, -1.6375e30. */
  const Unseen: real := -1637500000000000000000000000000.0

  function Deg2Rad(deg: real): real
  {
    deg * Pi / 180.0
  }

  /** The geometry the measurement uses unless told otherwise. */
  function DefaultAperture(thetaRDeg: real): (ap: Aperture)
    ensures ap.thetaRDeg == thetaRDeg && ap.minPix == 50
    ensures ap.coreFrac < ap.rimInFrac < ap.rimOutFrac
  {
    Aperture(thetaRDeg, 0.6, 0.8, 1.2, 50)
  }

  /** The three radii scaled from θ_R: each a fixed fraction of θ_R in radians,
      so for a positive θ_R the radii are ordered as the fractions are. */
  function ApertureRadii(ap: Aperture): (r: Radii)
    ensures ap.thetaRDeg > 0.0 ==> (r.core < r.rimIn <==> ap.coreFrac < ap.rimInFrac)
    ensures ap.thetaRDeg > 0.0 ==> (r.rimIn < r.rimOut <==> ap.rimInFrac < ap.rimOutFrac)
    ensures ap.thetaRDeg >= 0.0 && ap.coreFrac <= ap.rimInFrac ==> r.core <= r.rimIn
    ensures ap.thetaRDeg == 0.0 ==> r == Radii(0.0, 0.0, 0.0)
  {
    var thetaR := Deg2Rad(ap.thetaRDeg);
    Radii(ap.coreFrac * thetaR, ap.rimInFrac * thetaR, ap.rimOutFrac * thetaR)
  }

  /** `to_uK`: the map unchanged when it is already in µK, otherwise every
      value multiplied by 1e6. */
  function ToMicroKelvin(m: seq<Float>, mapInMicroK: bool): (r: seq<Float>)
    ensures |r| == |m|
    ensures mapInMicroK ==> r == m
    ensures !mapInMicroK ==> forall p :: 0 <= p < |m| ==> r[p] == ToMicro(m[p])
  {
    if mapInMicroK then m else seq(|m|, p requires 0 <= p < |m| => ToMicro(m[p]))
  }

  /** The thresholding step of `load_keep_mask`: keep a pixel when its mask
      value compares `>=` the threshold (so a NaN mask value is never kept). */
  function KeepMask(mk: seq<Float>, threshold: real): (keep: Mask)
    ensures |keep| == |mk|
    ensures forall p :: 0 <= p < |mk| ==>
      (keep[p] <==> mk[p] == PosInf || (mk[p].Finite? && mk[p].value >= threshold))
  {
    seq(|mk|, p requires 0 <= p < |mk| => AtLeast(mk[p], threshold))
  }

  /** Every queried index names a pixel of an `npix`-pixel map. */
  predicate InRange(npix: nat, ipix: seq<nat>)
  {
    forall k :: 0 <= k < |ipix| ==> ipix[k] < npix
  }

  /** The mask `disc_mask` builds from the queried indices. */
  function DiscMaskOf(npix: nat, ipix: seq<nat>): Mask
  {
    seq(npix, p => p in ipix)
  }

  /** `disc_mask`: a fresh all-false array of `npix` entries in which every
      queried pixel is then set, so exactly the queried pixels are true. */
  method DiscMask(npix: nat, query: DiscQuery, lonDeg: real, latDeg: real, radius: real)
    returns (m: array<bool>)
    requires InRange(npix, query(lonDeg, latDeg, radius))
    ensures fresh(m) && m.Length == npix
    ensures forall p :: 0 <= p < npix ==> (m[p] <==> p in query(lonDeg, latDeg, radius))
    ensures m[..] == DiscMaskOf(npix, query(lonDeg, latDeg, radius))
  {
    var ipix := query(lonDeg, latDeg, radius);
    m := new bool[npix](_ => false);
    var k := 0;
    while k < |ipix|
      invariant 0 <= k <= |ipix|
      invariant forall p :: 0 <= p < npix ==> (m[p] <==> p in ipix[..k])
    {
      m[ipix[k]] := true;
      assert ipix[..k + 1] == ipix[..k] + [ipix[k]];
      k := k + 1;
    }
    assert ipix[..k] == ipix;
  }

  /** Elementwise `a & b`. */
  function And(a: Mask, b: Mask): Mask
    requires |a| == |b|
  {
    seq(|a|, p requires 0 <= p < |a| => a[p] && b[p])
  }

  /** Elementwise `a & (~b)`. */
  function AndNot(a: Mask, b: Mask): Mask
    requires |a| == |b|
  {
    seq(|a|, p requires 0 <= p < |a| => a[p] && !b[p])
  }

  /** `annulus_mask`: the outer disc minus the inner disc; a pixel is in the
      annulus iff the outer query returns it and the inner query does not. */
  function AnnulusMask(npix: nat, query: DiscQuery, lonDeg: real, latDeg: real,
                       rIn: real, rOut: real): (m: Mask)
    ensures |m| == npix
    ensures forall p :: 0 <= p < npix ==>
      (m[p] <==> p in query(lonDeg, latDeg, rOut) && p !in query(lonDeg, latDeg, rIn))
  {
    var outer := DiscMaskOf(npix, query(lonDeg, latDeg, rOut));
    var inner := DiscMaskOf(npix, query(lonDeg, latDeg, rIn));
    AndNot(outer, inner)
  }

  /** `np.isfinite(cmb_uK)` */
  function Good(cmb: seq<Float>): Mask
  {
    seq(|cmb|, p requires 0 <= p < |cmb| => cmb[p].Finite?)
  }

  /** `region & keep_mask & good` */
  function Select(region: Mask, keep: Mask, cmb: seq<Float>): Mask
    requires |region| == |keep| == |cmb|
  {
    And(And(region, keep), Good(cmb))
  }

  /** `core_sel`: a pixel is selected iff the core query returns it, the
      keep-mask keeps it and its value is finite. */
  function CoreSelection(cmb: seq<Float>, keep: Mask, lonDeg: real, latDeg: real,
                         ap: Aperture, query: DiscQuery): (sel: Mask)
    requires |keep| == |cmb|
    ensures |sel| == |cmb|
    ensures forall p :: 0 <= p < |cmb| ==>
      (sel[p] <==> p in query(lonDeg, latDeg, ApertureRadii(ap).core) && keep[p] && cmb[p].Finite?)
  {
    var core := DiscMaskOf(|cmb|, query(lonDeg, latDeg, ApertureRadii(ap).core));
    Select(core, keep, cmb)
  }

  /** `rim_sel`: a pixel is selected iff it is in the rim annulus, the
      keep-mask keeps it and its value is finite. */
  function RimSelection(cmb: seq<Float>, keep: Mask, lonDeg: real, latDeg: real,
                        ap: Aperture, query: DiscQuery): (sel: Mask)
    requires |keep| == |cmb|
    ensures |sel| == |cmb|
    ensures forall p :: 0 <= p < |cmb| ==>
      (sel[p] <==> p in query(lonDeg, latDeg, ApertureRadii(ap).rimOut)
                   && p !in query(lonDeg, latDeg, ApertureRadii(ap).rimIn)
                   && keep[p] && cmb[p].Finite?)
  {
    var radii := ApertureRadii(ap);
    var rim := AnnulusMask(|cmb|, query, lonDeg, latDeg, radii.rimIn, radii.rimOut);
    Select(rim, keep, cmb)
  }

  /** `sel.sum()`: the number of true entries. */
  function Count(m: Mask): (n: nat)
    ensures n == multiset(m)[true]
    ensures n <= |m|
    ensures n == 0 <==> forall p :: 0 <= p < |m| ==> !m[p]
  {
    if m == [] then 0
    else
      assert m == [m[0]] + m[1..];
      (if m[0] then 1 else 0) + Count(m[1..])
  }

  /** If `rest` holds the values the selected pixels of `cmb[1..]` supply,
      in pixel order, then the first pixel's value (when selected) followed
      by `rest` holds those of `cmb`. */
  lemma PlaceSelected(cmb: seq<Float>, sel: Mask, rest: seq<real>)
    requires cmb != [] && |sel| == |cmb| && FiniteWhereSelected(cmb, sel)
    requires forall q :: 0 <= q < |cmb| - 1 && sel[1..][q] ==>
      Count(sel[1..][..q]) < |rest| && rest[Count(sel[1..][..q])] == cmb[1..][q].value
    ensures var xs := (if sel[0] then [cmb[0].value] else []) + rest;
      forall p :: 0 <= p < |cmb| && sel[p] ==>
        Count(sel[..p]) < |xs| && xs[Count(sel[..p])] == cmb[p].value
  {
    var xs := (if sel[0] then [cmb[0].value] else []) + rest;
    forall p | 0 <= p < |cmb| && sel[p]
      ensures Count(sel[..p]) < |xs| && xs[Count(sel[..p])] == cmb[p].value
    {
      if p == 0 {
        assert sel[..p] == [];
      } else {
        assert sel[..p][1..] == sel[1..][..p - 1];
        assert sel[1..][p - 1] == sel[p];
      }
    }
  }

  /** Every selected pixel holds a finite value. */
  predicate FiniteWhereSelected(cmb: seq<Float>, sel: Mask)
    requires |sel| == |cmb|
  {
    forall p :: 0 <= p < |cmb| && sel[p] ==> cmb[p].Finite?
  }

  /** `cmb_uK[sel]`: the values of the selected pixels, in pixel order; the
      selected pixel `p` supplies the value at position "number of selected
      pixels before `p`". */
  function Extract(cmb: seq<Float>, sel: Mask): (xs: seq<real>)
    requires |sel| == |cmb| && FiniteWhereSelected(cmb, sel)
    ensures |xs| == Count(sel)
    ensures forall p :: 0 <= p < |cmb| && sel[p] ==>
      Count(sel[..p]) < |xs| && xs[Count(sel[..p])] == cmb[p].value
  {
    if cmb == [] then []
    else
      var rest := Extract(cmb[1..], sel[1..]);
      PlaceSelected(cmb, sel, rest);
      (if sel[0] then [cmb[0].value] else []) + rest
  }

  /** `aperture_photometry_deltaT_uK`. Fails with NsideMismatch when map and
      mask resolutions differ, before anything else; fails with TooFewPixels
      when either selection has fewer than `minPix` pixels; otherwise returns
      the two means, their difference and the two selection sizes. */
  function AperturePhotometryDeltaT(cmb: seq<Float>, keep: Mask, lonDeg: real, latDeg: real,
                                    ap: Aperture, query: DiscQuery): (r: Result<Measurement>)
    ensures r.Success? <==>
      && |cmb| == |keep|
      && Count(CoreSelection(cmb, keep, lonDeg, latDeg, ap, query)) >= ap.minPix
      && Count(RimSelection(cmb, keep, lonDeg, latDeg, ap, query)) >= ap.minPix
    ensures r == Failure(NsideMismatch(|cmb|, |keep|)) <==> |cmb| != |keep|
    ensures |cmb| == |keep| ==>
      (r == Failure(TooFewPixels) <==>
         Count(CoreSelection(cmb, keep, lonDeg, latDeg, ap, query)) < ap.minPix
         || Count(RimSelection(cmb, keep, lonDeg, latDeg, ap, query)) < ap.minPix)
    ensures r.Success? ==>
      && |cmb| == |keep|
      && var core := CoreSelection(cmb, keep, lonDeg, latDeg, ap, query);
      && var rim := RimSelection(cmb, keep, lonDeg, latDeg, ap, query);
      && r.value.nCore == Count(core) >= ap.minPix
      && r.value.nRim == Count(rim) >= ap.minPix
      && r.value.tCore == Mean(Extract(cmb, core))
      && r.value.tRim == Mean(Extract(cmb, rim))
      && r.value.deltaT == Sub(r.value.tCore, r.value.tRim)
      && r.value.thetaRDeg == ap.thetaRDeg && r.value.coreFrac == ap.coreFrac
      && r.value.rimInFrac == ap.rimInFrac && r.value.rimOutFrac == ap.rimOutFrac
      && r.value.galLonDeg == lonDeg && r.value.galLatDeg == latDeg
  {
    if |cmb| != |keep| then Failure(NsideMismatch(|cmb|, |keep|))
    else
      var core := CoreSelection(cmb, keep, lonDeg, latDeg, ap, query);
      var rim := RimSelection(cmb, keep, lonDeg, latDeg, ap, query);
      if Count(core) < ap.minPix || Count(rim) < ap.minPix then Failure(TooFewPixels)
      else
        var tCore := Mean(Extract(cmb, core));
        var tRim := Mean(Extract(cmb, rim));
        Success(Measurement(Sub(tCore, tRim), tCore, tRim, Count(core), Count(rim),
                            ap.thetaRDeg, ap.coreFrac, ap.rimInFrac, ap.rimOutFrac,
                            lonDeg, latDeg))
  }
}
