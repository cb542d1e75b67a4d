/** What the aperture statistic guarantees: the geometry of its regions, the
    size of its selections, the value of ΔT on known maps, and how it responds
    to unit conversion, the mask threshold and pixels outside the aperture. */
module PhotometryProperties {
  import opened Samples
  import opened AperturePhotometry

  /** A disc query whose result grows with the radius, as a query for pixel
      centres within a radius does. */
  ghost predicate Monotone(query: DiscQuery)
  {
    forall lon: real, lat: real, r1: real, r2: real, p: nat ::
      r1 <= r2 && p in query(lon, lat, r1) ==> p in query(lon, lat, r2)
  }

  // ---------------------------------------------------------------- counting

  /** A mask that is true wherever another is true has at least as many true entries. */
  lemma {:induction false} CountMonotone(a: Mask, b: Mask)
    requires |a| == |b|
    requires forall p :: 0 <= p < |a| && a[p] ==> b[p]
    ensures Count(a) <= Count(b)
  {
    if a != [] {
      CountMonotone(a[1..], b[1..]);
    }
  }

  /** Two masks that are never true at the same pixel hold at most as many
      true entries together as there are pixels. */
  lemma {:induction false} CountDisjoint(a: Mask, b: Mask)
    requires |a| == |b|
    requires forall p :: 0 <= p < |a| ==> !(a[p] && b[p])
    ensures Count(a) + Count(b) <= |a|
  {
    if a != [] {
      CountDisjoint(a[1..], b[1..]);
    }
  }

  // ---------------------------------------------------------------- geometry

  /** The annulus never shares a pixel with its own inner disc, and lies within its outer disc. */
  lemma AnnulusExcludesInnerDisc(npix: nat, query: DiscQuery, lonDeg: real, latDeg: real,
                                 rIn: real, rOut: real)
    ensures forall p :: 0 <= p < npix ==>
      !(AnnulusMask(npix, query, lonDeg, latDeg, rIn, rOut)[p]
        && DiscMaskOf(npix, query(lonDeg, latDeg, rIn))[p])
    ensures forall p :: 0 <= p < npix && AnnulusMask(npix, query, lonDeg, latDeg, rIn, rOut)[p] ==>
      DiscMaskOf(npix, query(lonDeg, latDeg, rOut))[p]
  {
  }

  /** When the core fraction does not exceed the rim's inner fraction, θ_R is
      not negative and the disc query grows with the radius, no pixel is in
      both the core disc and the rim annulus. */
  lemma CoreRimDisjoint(npix: nat, query: DiscQuery, lonDeg: real, latDeg: real, ap: Aperture)
    requires Monotone(query)
    requires ap.thetaRDeg >= 0.0 && ap.coreFrac <= ap.rimInFrac
    ensures forall p :: 0 <= p < npix ==>
      !(DiscMaskOf(npix, query(lonDeg, latDeg, ApertureRadii(ap).core))[p]
        && AnnulusMask(npix, query, lonDeg, latDeg, ApertureRadii(ap).rimIn, ApertureRadii(ap).rimOut)[p])
  {
    var radii := ApertureRadii(ap);
    forall p | 0 <= p < npix
      ensures !(DiscMaskOf(npix, query(lonDeg, latDeg, radii.core))[p]
                && AnnulusMask(npix, query, lonDeg, latDeg, radii.rimIn, radii.rimOut)[p])
    {
      if p in query(lonDeg, latDeg, radii.core) {
        assert p in query(lonDeg, latDeg, radii.rimIn);
      }
    }
  }

  /** Under the conditions of CoreRimDisjoint, a successful measurement counts
      no pixel twice: the two selections together fit in the map. */
  lemma SelectionsFitInMap(cmb: seq<Float>, keep: Mask, lonDeg: real, latDeg: real,
                           ap: Aperture, query: DiscQuery)
    requires Monotone(query)
    requires ap.thetaRDeg >= 0.0 && ap.coreFrac <= ap.rimInFrac
    ensures var r := AperturePhotometryDeltaT(cmb, keep, lonDeg, latDeg, ap, query);
      r.Success? ==> r.value.nCore + r.value.nRim <= |cmb|
  {
    if |cmb| == |keep| {
      var core := CoreSelection(cmb, keep, lonDeg, latDeg, ap, query);
      var rim := RimSelection(cmb, keep, lonDeg, latDeg, ap, query);
      CoreRimDisjoint(|cmb|, query, lonDeg, latDeg, ap);
      CountDisjoint(core, rim);
    }
  }

  /** With the default fractions 0.6, 0.8 and 1.2 and a positive θ_R the core
      radius is below the rim's inner radius, which is below its outer radius. */
  lemma DefaultRadiiOrdered(thetaRDeg: real)
    requires thetaRDeg > 0.0
    ensures var r := ApertureRadii(DefaultAperture(thetaRDeg));
      0.0 < r.core < r.rimIn < r.rimOut
  {
  }

  // ---------------------------------------------------------------- values

  /** The extracted values are the selected pixels' values, so bounds on those carry over. */
  lemma {:induction false} ExtractBetween(cmb: seq<Float>, sel: Mask, lo: real, hi: real)
    requires |sel| == |cmb| && FiniteWhereSelected(cmb, sel)
    requires forall p :: 0 <= p < |cmb| && sel[p] ==> lo <= cmb[p].value <= hi
    ensures AllBetween(Extract(cmb, sel), lo, hi)
  {
    if cmb != [] {
      ExtractBetween(cmb[1..], sel[1..], lo, hi);
    }
  }

  /** Two maps that agree on every selected pixel give the same extracted values. */
  lemma {:induction false} ExtractAgrees(c1: seq<Float>, c2: seq<Float>, sel: Mask)
    requires |sel| == |c1| == |c2| && FiniteWhereSelected(c1, sel)
    requires forall p :: 0 <= p < |c1| && sel[p] ==> c1[p] == c2[p]
    ensures FiniteWhereSelected(c2, sel) && Extract(c1, sel) == Extract(c2, sel)
  {
    if c1 != [] {
      ExtractAgrees(c1[1..], c2[1..], sel[1..]);
    }
  }

  /** A map whose selected values are all converted by `to_uK` gives as
      many extracted values, with their sum multiplied by 1e6. */
  lemma {:induction false} ExtractToMicro(c1: seq<Float>, c2: seq<Float>, sel: Mask)
    requires |sel| == |c1| == |c2| && FiniteWhereSelected(c1, sel)
    requires forall p :: 0 <= p < |c1| && sel[p] ==> c2[p] == ToMicro(c1[p])
    ensures FiniteWhereSelected(c2, sel)
    ensures |Extract(c2, sel)| == |Extract(c1, sel)|
    ensures Sum(Extract(c2, sel)) == Sum(Extract(c1, sel)) * MicroPerUnit
  {
    if c1 != [] {
      ExtractToMicro(c1[1..], c2[1..], sel[1..]);
      if sel[0] {
        SumCons(c1[0].value, Extract(c1[1..], sel[1..]));
        SumCons(c2[0].value, Extract(c2[1..], sel[1..]));
      } else {
        assert Extract(c1, sel) == Extract(c1[1..], sel[1..]);
        assert Extract(c2, sel) == Extract(c2[1..], sel[1..]);
      }
    }
  }

  /** If every selected core value lies in [coreLo, coreHi] and every selected
      rim value in [rimLo, rimHi], a successful measurement over two non-empty
      selections (always so when `min_pix >= 1`) has a finite ΔT in
      [coreLo - rimHi, coreHi - rimLo]. */
  lemma DeltaTBounds(cmb: seq<Float>, keep: Mask, lonDeg: real, latDeg: real,
                     ap: Aperture, query: DiscQuery,
                     coreLo: real, coreHi: real, rimLo: real, rimHi: real)
    requires |keep| == |cmb|
    requires var core := CoreSelection(cmb, keep, lonDeg, latDeg, ap, query);
      forall p :: 0 <= p < |cmb| && core[p] ==> coreLo <= cmb[p].value <= coreHi
    requires var rim := RimSelection(cmb, keep, lonDeg, latDeg, ap, query);
      forall p :: 0 <= p < |cmb| && rim[p] ==> rimLo <= cmb[p].value <= rimHi
    ensures var r := AperturePhotometryDeltaT(cmb, keep, lonDeg, latDeg, ap, query);
      r.Success? && r.value.nCore > 0 && r.value.nRim > 0 ==>
        && r.value.tCore.Finite? && coreLo <= r.value.tCore.value <= coreHi
        && r.value.tRim.Finite? && rimLo <= r.value.tRim.value <= rimHi
        && r.value.deltaT.Finite?
        && coreLo - rimHi <= r.value.deltaT.value <= coreHi - rimLo
  {
    var r := AperturePhotometryDeltaT(cmb, keep, lonDeg, latDeg, ap, query);
    if r.Success? && r.value.nCore > 0 && r.value.nRim > 0 {
      var core := CoreSelection(cmb, keep, lonDeg, latDeg, ap, query);
      var rim := RimSelection(cmb, keep, lonDeg, latDeg, ap, query);
      ExtractBetween(cmb, core, coreLo, coreHi);
      ExtractBetween(cmb, rim, rimLo, rimHi);
      MeanBetween(Extract(cmb, core), coreLo, coreHi);
      MeanBetween(Extract(cmb, rim), rimLo, rimHi);
    }
  }

  /** A successful measurement with a positive minimum pixel count has two
      non-empty selections. */
  lemma PositiveMinPixMeansNonEmpty(cmb: seq<Float>, keep: Mask, lonDeg: real, latDeg: real,
                                    ap: Aperture, query: DiscQuery)
    requires ap.minPix >= 1
    ensures var r := AperturePhotometryDeltaT(cmb, keep, lonDeg, latDeg, ap, query);
      r.Success? ==> r.value.nCore > 0 && r.value.nRim > 0
  {
  }

  /** On a map that is uniform over the aperture (every finite pixel in the
      core disc or the outer rim disc holds `c`), a successful measurement
      over two non-empty selections has ΔT exactly 0. */
  lemma UniformMapHasZeroDeltaT(cmb: seq<Float>, keep: Mask, lonDeg: real, latDeg: real,
                                ap: Aperture, query: DiscQuery, c: real)
    requires forall p :: (0 <= p < |cmb| && cmb[p].Finite?
      && (p in query(lonDeg, latDeg, ApertureRadii(ap).core)
          || p in query(lonDeg, latDeg, ApertureRadii(ap).rimOut))) ==> cmb[p].value == c
    ensures var r := AperturePhotometryDeltaT(cmb, keep, lonDeg, latDeg, ap, query);
      r.Success? && r.value.nCore > 0 && r.value.nRim > 0 ==> r.value.deltaT == Finite(0.0)
  {
    if |keep| == |cmb| {
      DeltaTBounds(cmb, keep, lonDeg, latDeg, ap, query, c, c, c, c);
    }
  }

  /** On a step map (every finite core pixel holds `cCore`, every finite rim
      pixel holds `cRim`) a successful measurement over two non-empty
      selections has core mean `cCore`, rim mean `cRim` and ΔT = cCore - cRim. */
  lemma StepMapDeltaT(cmb: seq<Float>, keep: Mask, lonDeg: real, latDeg: real,
                      ap: Aperture, query: DiscQuery, cCore: real, cRim: real)
    requires forall p :: (0 <= p < |cmb| && cmb[p].Finite?
      && p in query(lonDeg, latDeg, ApertureRadii(ap).core)) ==> cmb[p].value == cCore
    requires forall p :: (0 <= p < |cmb| && cmb[p].Finite?
      && p in query(lonDeg, latDeg, ApertureRadii(ap).rimOut)
      && p !in query(lonDeg, latDeg, ApertureRadii(ap).rimIn)) ==> cmb[p].value == cRim
    ensures var r := AperturePhotometryDeltaT(cmb, keep, lonDeg, latDeg, ap, query);
      r.Success? && r.value.nCore > 0 && r.value.nRim > 0 ==>
        r.value.tCore == Finite(cCore) && r.value.tRim == Finite(cRim)
        && r.value.deltaT == Finite(cCore - cRim)
  {
    if |keep| == |cmb| {
      DeltaTBounds(cmb, keep, lonDeg, latDeg, ap, query, cCore, cCore, cRim, cRim);
    }
  }

  /** With a minimum pixel count of 0 or less, an aperture with no usable core
      pixel is not rejected: the measurement succeeds with a NaN core mean and
      a NaN ΔT, which is what `np.mean` of an empty array yields. */
  lemma EmptyCoreYieldsNaN(cmb: seq<Float>, keep: Mask, lonDeg: real, latDeg: real,
                           ap: Aperture, query: DiscQuery)
    requires ap.minPix <= 0 && |keep| == |cmb|
    requires Count(CoreSelection(cmb, keep, lonDeg, latDeg, ap, query)) == 0
    ensures var r := AperturePhotometryDeltaT(cmb, keep, lonDeg, latDeg, ap, query);
      r.Success? && r.value.nCore == 0 && r.value.tCore == NaN && r.value.deltaT == NaN
  {
    var core := CoreSelection(cmb, keep, lonDeg, latDeg, ap, query);
    assert Extract(cmb, core) == [];
  }

  /** A pixel holding healpy's UNSEEN sentinel is finite, so the finiteness
      test does not exclude it: a kept UNSEEN pixel inside the core disc is
      selected and its value enters the core mean. */
  lemma UnseenPixelIsSelected(cmb: seq<Float>, keep: Mask, lonDeg: real, latDeg: real,
                              ap: Aperture, query: DiscQuery, p: nat)
    requires |keep| == |cmb| && p < |cmb|
    requires cmb[p] == Finite(Unseen) && keep[p]
    requires p in query(lonDeg, latDeg, ApertureRadii(ap).core)
    ensures var core := CoreSelection(cmb, keep, lonDeg, latDeg, ap, query);
      core[p] && Extract(cmb, core)[Count(core[..p])] == Unseen
  {
  }

  // ---------------------------------------------------------------- inputs

  /** `to_uK` keeps every pixel's finiteness, so it keeps both selections. */
  lemma ConversionKeepsSelections(cmb: seq<Float>, keep: Mask, lonDeg: real, latDeg: real,
                                  ap: Aperture, query: DiscQuery)
    requires |keep| == |cmb|
    ensures CoreSelection(ToMicroKelvin(cmb, false), keep, lonDeg, latDeg, ap, query)
         == CoreSelection(cmb, keep, lonDeg, latDeg, ap, query)
    ensures RimSelection(ToMicroKelvin(cmb, false), keep, lonDeg, latDeg, ap, query)
         == RimSelection(cmb, keep, lonDeg, latDeg, ap, query)
  {
    var uK := ToMicroKelvin(cmb, false);
    assert forall p :: 0 <= p < |cmb| ==> (uK[p].Finite? <==> cmb[p].Finite?);
  }

  /** The mean of a selection of a map after `to_uK` is the converted mean. */
  lemma ConversionScalesMean(cmb: seq<Float>, sel: Mask)
    requires |sel| == |cmb| && FiniteWhereSelected(cmb, sel)
    ensures FiniteWhereSelected(ToMicroKelvin(cmb, false), sel)
    ensures Mean(Extract(ToMicroKelvin(cmb, false), sel)) == ToMicro(Mean(Extract(cmb, sel)))
  {
    var uK := ToMicroKelvin(cmb, false);
    ExtractToMicro(cmb, uK, sel);
    MeanToMicro(Extract(cmb, sel), Extract(uK, sel));
  }

  /** Measuring a kelvin map after `to_uK` selects the same pixels and gives
      every temperature, ΔT included, multiplied by 1e6 (NaN stays NaN). */
  lemma ConversionScalesDeltaT(cmb: seq<Float>, keep: Mask, lonDeg: real, latDeg: real,
                               ap: Aperture, query: DiscQuery)
    ensures var r := AperturePhotometryDeltaT(cmb, keep, lonDeg, latDeg, ap, query);
      var s := AperturePhotometryDeltaT(ToMicroKelvin(cmb, false), keep, lonDeg, latDeg, ap, query);
      && (r.Success? <==> s.Success?)
      && (r.Success? ==>
            && s.value.nCore == r.value.nCore && s.value.nRim == r.value.nRim
            && s.value.tCore == ToMicro(r.value.tCore)
            && s.value.tRim == ToMicro(r.value.tRim)
            && s.value.deltaT == ToMicro(r.value.deltaT))
  {
    var uK := ToMicroKelvin(cmb, false);
    if |cmb| == |keep| {
      var core := CoreSelection(cmb, keep, lonDeg, latDeg, ap, query);
      var rim := RimSelection(cmb, keep, lonDeg, latDeg, ap, query);
      ConversionKeepsSelections(cmb, keep, lonDeg, latDeg, ap, query);
      ConversionScalesMean(cmb, core);
      ConversionScalesMean(cmb, rim);
      SubToMicro(Mean(Extract(cmb, core)), Mean(Extract(cmb, rim)));
    }
  }

  /** Lowering the mask threshold never loses a pixel: every count grows or
      stays, so a measurement that succeeds at a threshold also succeeds at
      any lower one, and one that fails for too few pixels also fails at any
      higher one. */
  lemma LowerThresholdKeepsSuccess(cmb: seq<Float>, mk: seq<Float>, lo: real, hi: real,
                                   lonDeg: real, latDeg: real, ap: Aperture, query: DiscQuery)
    requires lo <= hi && |mk| == |cmb|
    ensures var rLo := AperturePhotometryDeltaT(cmb, KeepMask(mk, lo), lonDeg, latDeg, ap, query);
      var rHi := AperturePhotometryDeltaT(cmb, KeepMask(mk, hi), lonDeg, latDeg, ap, query);
      && (rHi.Success? ==> rLo.Success? && rLo.value.nCore >= rHi.value.nCore
                                       && rLo.value.nRim >= rHi.value.nRim)
      && (rLo == Failure(TooFewPixels) ==> rHi == Failure(TooFewPixels))
  {
    var keepLo, keepHi := KeepMask(mk, lo), KeepMask(mk, hi);
    CountMonotone(CoreSelection(cmb, keepHi, lonDeg, latDeg, ap, query),
                  CoreSelection(cmb, keepLo, lonDeg, latDeg, ap, query));
    CountMonotone(RimSelection(cmb, keepHi, lonDeg, latDeg, ap, query),
                  RimSelection(cmb, keepLo, lonDeg, latDeg, ap, query));
  }

  /** Only pixels inside the aperture's outer disc or its core disc matter:
      two maps that agree there give the same result. */
  lemma OnlyAperturePixelsMatter(c1: seq<Float>, c2: seq<Float>, keep: Mask,
                                 lonDeg: real, latDeg: real, ap: Aperture, query: DiscQuery)
    requires |c1| == |c2|
    requires forall p :: (0 <= p < |c1|
      && (p in query(lonDeg, latDeg, ApertureRadii(ap).core)
          || p in query(lonDeg, latDeg, ApertureRadii(ap).rimOut))) ==> c1[p] == c2[p]
    ensures AperturePhotometryDeltaT(c1, keep, lonDeg, latDeg, ap, query)
         == AperturePhotometryDeltaT(c2, keep, lonDeg, latDeg, ap, query)
  {
    if |c1| == |keep| {
      var core := CoreSelection(c1, keep, lonDeg, latDeg, ap, query);
      var rim := RimSelection(c1, keep, lonDeg, latDeg, ap, query);
      assert CoreSelection(c2, keep, lonDeg, latDeg, ap, query) == core;
      assert RimSelection(c2, keep, lonDeg, latDeg, ap, query) == rim;
      ExtractAgrees(c1, c2, core);
      ExtractAgrees(c1, c2, rim);
    }
  }
}
