/**
 * Raw bin data for one site: the per-rupture extraction of
 * `_collect_bins_data`, the zero-curve test of `get_iml` and the key loop of
 * `collect_bins`.
 */
module Collect {
  import opened Wrappers
  import opened DisaggTypes

  /**
   * What the engine reads off one rupture close to the site: its magnitude,
   * the Joyner-Boore distance to the site and the closest point of its surface.
   */
  datatype Rupture = Rupture(mag: real, jbDist: real, closestLon: real, closestLat: real)

  /** A seismic source together with the ruptures it generates for the site. */
  datatype SourceRuptures = SourceRuptures(sourceId: string, trt: string, ruptures: seq<Rupture>)

  /** A ground-shaking intensity model, identified by name. */
  type Gsim = string

  /**
   * The ground-motion physics for one rupture: building the contexts,
   * `disaggregate_poe` and `get_probability_no_exceedance`. It yields the
   * probability of no exceedance per epsilon bin, or the message of the
   * exception it raised.
   */
  type Physics = (Gsim, Rupture, Imt, real) -> Result<seq<real>, string>

  /** Why the records of a source could not be collected. */
  datatype Cause =
    | MissingGsim(trt: string)        // no GSIM for the source's tectonic region type
    | MissingTrtNumber(trt: string)   // the type is not numbered in `trt_num`
    | PhysicsFailed(message: string)  // the physics raised for one of its ruptures

  /** The re-raised error, which names the source it occurred with. */
  datatype SourceError = SourceError(sourceId: string, cause: Cause)

  /** The six appends made for one rupture. */
  function AddRecord(b: Bins, r: Rupture, trt: int, probs: seq<real>): Bins {
    Bins(b.mags + [r.mag], b.dists + [r.jbDist], b.lons + [r.closestLon], b.lats + [r.closestLat],
         b.trts + [trt], b.probsNoExceed + [probs])
  }

  /** The records of `rups` appended in order to `acc`, or the first failure of the physics. */
  function RuptureRecords(acc: Bins, gsim: Gsim, trt: int, rups: seq<Rupture>, imt: Imt, iml: real,
                          physics: Physics): Result<Bins, string>
    decreases |rups|
  {
    if |rups| == 0 then Success(acc)
    else
      match RuptureRecords(acc, gsim, trt, rups[..|rups| - 1], imt, iml, physics)
      case Failure(msg) => Failure(msg)
      case Success(b) =>
        match physics(gsim, rups[|rups| - 1], imt, iml)
        case Failure(msg) => Failure(msg)
        case Success(probs) => Success(AddRecord(b, rups[|rups| - 1], trt, probs))
  }

  /** The records of one source appended to `acc`; a failure names the source. */
  function SourceRecords(acc: Bins, src: SourceRuptures, trtNum: map<string, int>,
                         gsims: map<string, Gsim>, imt: Imt, iml: real,
                         physics: Physics): Result<Bins, SourceError>
  {
    if src.trt !in gsims then Failure(SourceError(src.sourceId, MissingGsim(src.trt)))
    else if src.trt !in trtNum then Failure(SourceError(src.sourceId, MissingTrtNumber(src.trt)))
    else
      match RuptureRecords(acc, gsims[src.trt], trtNum[src.trt], src.ruptures, imt, iml, physics)
      case Failure(msg) => Failure(SourceError(src.sourceId, PhysicsFailed(msg)))
      case Success(b) => Success(b)
  }

  /** What `_collect_bins_data` returns or raises for a list of sources. */
  function Collected(sources: seq<SourceRuptures>, trtNum: map<string, int>, gsims: map<string, Gsim>,
                     imt: Imt, iml: real, physics: Physics): Result<Bins, SourceError>
    decreases |sources|
  {
    if |sources| == 0 then Success(EmptyBins())
    else
      match Collected(sources[..|sources| - 1], trtNum, gsims, imt, iml, physics)
      case Failure(e) => Failure(e)
      case Success(b) => SourceRecords(b, sources[|sources| - 1], trtNum, gsims, imt, iml, physics)
  }

  /** Once the physics has failed on a prefix of the ruptures, the whole list fails with it. */
  lemma {:induction false} RuptureFailureSticks(acc: Bins, gsim: Gsim, trt: int, rups: seq<Rupture>, k: nat,
                                                imt: Imt, iml: real, physics: Physics)
    requires k <= |rups|
    requires RuptureRecords(acc, gsim, trt, rups[..k], imt, iml, physics).Failure?
    ensures RuptureRecords(acc, gsim, trt, rups, imt, iml, physics)
         == RuptureRecords(acc, gsim, trt, rups[..k], imt, iml, physics)
    decreases |rups| - k
  {
    if k < |rups| {
      assert rups[..|rups| - 1][..k] == rups[..k];
      RuptureFailureSticks(acc, gsim, trt, rups[..|rups| - 1], k, imt, iml, physics);
    } else {
      assert rups[..k] == rups;
    }
  }

  /** Once a prefix of the sources has failed, the whole list fails with the same error. */
  lemma {:induction false} CollectedFailureSticks(sources: seq<SourceRuptures>, k: nat, trtNum: map<string, int>,
                                                  gsims: map<string, Gsim>, imt: Imt, iml: real, physics: Physics)
    requires k <= |sources|
    requires Collected(sources[..k], trtNum, gsims, imt, iml, physics).Failure?
    ensures Collected(sources, trtNum, gsims, imt, iml, physics)
         == Collected(sources[..k], trtNum, gsims, imt, iml, physics)
    decreases |sources| - k
  {
    if k < |sources| {
      assert sources[..|sources| - 1][..k] == sources[..k];
      CollectedFailureSticks(sources[..|sources| - 1], k, trtNum, gsims, imt, iml, physics);
    } else {
      assert sources[..k] == sources;
    }
  }

  /**
   * `_collect_bins_data`: for each source, look up its GSIM and its type
   * number, then for each rupture append its magnitude, distance, closest
   * point and type number, and finally its non-exceedance probabilities.
   */
  method CollectBinsData(trtNum: map<string, int>, sources: seq<SourceRuptures>, imt: Imt, iml: real,
                         gsims: map<string, Gsim>, physics: Physics)
    returns (r: Result<Bins, SourceError>)
    ensures r == Collected(sources, trtNum, gsims, imt, iml, physics)
  {
    var mags, dists, lons, lats, tectRegTypes, probsNoExceed := [], [], [], [], [], [];
    for i := 0 to |sources|
      invariant Collected(sources[..i], trtNum, gsims, imt, iml, physics)
             == Success(Bins(mags, dists, lons, lats, tectRegTypes, probsNoExceed))
    {
      var source := sources[i];
      assert sources[..i + 1][..i] == sources[..i];
      if source.trt !in gsims {
        CollectedFailureSticks(sources, i + 1, trtNum, gsims, imt, iml, physics);
        return Failure(SourceError(source.sourceId, MissingGsim(source.trt)));
      }
      var gsim := gsims[source.trt];
      if source.trt !in trtNum {
        CollectedFailureSticks(sources, i + 1, trtNum, gsims, imt, iml, physics);
        return Failure(SourceError(source.sourceId, MissingTrtNumber(source.trt)));
      }
      var tectReg := trtNum[source.trt];
      ghost var before := Bins(mags, dists, lons, lats, tectRegTypes, probsNoExceed);
      for k := 0 to |source.ruptures|
        invariant RuptureRecords(before, gsim, tectReg, source.ruptures[..k], imt, iml, physics)
               == Success(Bins(mags, dists, lons, lats, tectRegTypes, probsNoExceed))
      {
        var rupture := source.ruptures[k];
        assert source.ruptures[..k + 1][..k] == source.ruptures[..k];
        mags := mags + [rupture.mag];
        dists := dists + [rupture.jbDist];
        lons := lons + [rupture.closestLon];
        lats := lats + [rupture.closestLat];
        tectRegTypes := tectRegTypes + [tectReg];
        var poes := physics(gsim, rupture, imt, iml);
        if poes.Failure? {
          RuptureFailureSticks(before, gsim, tectReg, source.ruptures, k + 1, imt, iml, physics);
          CollectedFailureSticks(sources, i + 1, trtNum, gsims, imt, iml, physics);
          return Failure(SourceError(source.sourceId, PhysicsFailed(poes.error)));
        }
        probsNoExceed := probsNoExceed + [poes.value];
      }
      assert source.ruptures[..|source.ruptures|] == source.ruptures;
    }
    assert sources[..|sources|] == sources;
    return Success(Bins(mags, dists, lons, lats, tectRegTypes, probsNoExceed));
  }

  // ---------------------------------------------------------------------------
  // What the collected lists hold

  /** A rupture together with the source that generated it. */
  datatype Origin = Origin(source: SourceRuptures, rupture: Rupture)

  /** The ruptures of all sources, source after source, each in its source's order. */
  function Flat(sources: seq<SourceRuptures>): (f: seq<Origin>)
    decreases |sources|
  {
    if |sources| == 0 then []
    else
      var last := sources[|sources| - 1];
      Flat(sources[..|sources| - 1]) + seq(|last.ruptures|, k requires 0 <= k < |last.ruptures| => Origin(last, last.ruptures[k]))
  }

  /** The total number of ruptures. */
  function TotalRuptures(sources: seq<SourceRuptures>): nat
    decreases |sources|
  {
    if |sources| == 0 then 0
    else TotalRuptures(sources[..|sources| - 1]) + |sources[|sources| - 1].ruptures|
  }

  lemma {:induction false} FlatLength(sources: seq<SourceRuptures>)
    ensures |Flat(sources)| == TotalRuptures(sources)
    decreases |sources|
  {
    if |sources| > 0 {
      FlatLength(sources[..|sources| - 1]);
    }
  }

  /** Record `j` of `b` is rupture `r` of a source numbered `trt`, with probabilities `probs`. */
  predicate RecordIs(b: Bins, j: nat, r: Rupture, trt: int)
    requires b.Parallel() && j < b.Size()
  {
    b.mags[j] == r.mag && b.dists[j] == r.jbDist && b.lons[j] == r.closestLon
    && b.lats[j] == r.closestLat && b.trts[j] == trt
  }

  /** Record `j` is the same in `a` and in `b`. */
  predicate SameRecord(a: Bins, b: Bins, j: nat)
    requires a.Parallel() && b.Parallel() && j < a.Size() && j < b.Size()
  {
    a.mags[j] == b.mags[j] && a.dists[j] == b.dists[j] && a.lons[j] == b.lons[j]
    && a.lats[j] == b.lats[j] && a.trts[j] == b.trts[j] && a.probsNoExceed[j] == b.probsNoExceed[j]
  }

  /** The records of one source: the old ones kept, then one per rupture, in order. */
  lemma {:induction false} RuptureRecordsContent(acc: Bins, gsim: Gsim, trt: int, rups: seq<Rupture>,
                                                 imt: Imt, iml: real, physics: Physics)
    requires acc.Parallel()
    requires RuptureRecords(acc, gsim, trt, rups, imt, iml, physics).Success?
    ensures var b := RuptureRecords(acc, gsim, trt, rups, imt, iml, physics).value;
      && b.Parallel() && b.Size() == acc.Size() + |rups|
      && (forall j :: 0 <= j < acc.Size() ==> SameRecord(acc, b, j))
      && (forall k :: 0 <= k < |rups| ==>
            RecordIs(b, acc.Size() + k, rups[k], trt)
            && physics(gsim, rups[k], imt, iml) == Success(b.probsNoExceed[acc.Size() + k]))
    decreases |rups|
  {
    if |rups| > 0 {
      var init := rups[..|rups| - 1];
      RuptureRecordsContent(acc, gsim, trt, init, imt, iml, physics);
      var b0 := RuptureRecords(acc, gsim, trt, init, imt, iml, physics).value;
      var b := RuptureRecords(acc, gsim, trt, rups, imt, iml, physics).value;
      assert b == AddRecord(b0, rups[|rups| - 1], trt, b.probsNoExceed[b0.Size()]);
      forall k | 0 <= k < |rups|
        ensures RecordIs(b, acc.Size() + k, rups[k], trt)
        ensures physics(gsim, rups[k], imt, iml) == Success(b.probsNoExceed[acc.Size() + k])
      {
        if k < |rups| - 1 {
          assert init[k] == rups[k];
          assert SameRecord(b0, b, acc.Size() + k);
        }
      }
      forall j | 0 <= j < acc.Size()
        ensures SameRecord(acc, b, j)
      {
        assert SameRecord(acc, b0, j);
        assert SameRecord(b0, b, j);
      }
    }
  }

  /** Whether the records of a source can be collected at all. */
  predicate SourceOk(src: SourceRuptures, trtNum: map<string, int>, gsims: map<string, Gsim>,
                     imt: Imt, iml: real, physics: Physics)
  {
    && src.trt in gsims && src.trt in trtNum
    && forall k :: 0 <= k < |src.ruptures| ==> physics(gsims[src.trt], src.ruptures[k], imt, iml).Success?
  }

  /**
   * The collected lists are parallel, hold one record per rupture in
   * source-then-rupture order, each carrying its source's type number, and
   * the probabilities the physics gave for that rupture.
   */
  lemma {:induction false} CollectedRecords(sources: seq<SourceRuptures>, trtNum: map<string, int>,
                                            gsims: map<string, Gsim>, imt: Imt, iml: real, physics: Physics)
    requires Collected(sources, trtNum, gsims, imt, iml, physics).Success?
    ensures var b := Collected(sources, trtNum, gsims, imt, iml, physics).value;
      var f := Flat(sources);
      && b.Parallel() && b.Size() == |f| == TotalRuptures(sources)
      && forall j :: 0 <= j < |f| ==>
           && f[j].source.trt in gsims && f[j].source.trt in trtNum
           && RecordIs(b, j, f[j].rupture, trtNum[f[j].source.trt])
           && physics(gsims[f[j].source.trt], f[j].rupture, imt, iml) == Success(b.probsNoExceed[j])
    decreases |sources|
  {
    FlatLength(sources);
    if |sources| > 0 {
      var init := sources[..|sources| - 1];
      var last := sources[|sources| - 1];
      CollectedRecords(init, trtNum, gsims, imt, iml, physics);
      var b0 := Collected(init, trtNum, gsims, imt, iml, physics).value;
      var b := Collected(sources, trtNum, gsims, imt, iml, physics).value;
      RuptureRecordsContent(b0, gsims[last.trt], trtNum[last.trt], last.ruptures, imt, iml, physics);
      var f0, f := Flat(init), Flat(sources);
      forall j | 0 <= j < |f|
        ensures f[j].source.trt in gsims && f[j].source.trt in trtNum
        ensures RecordIs(b, j, f[j].rupture, trtNum[f[j].source.trt])
        ensures physics(gsims[f[j].source.trt], f[j].rupture, imt, iml) == Success(b.probsNoExceed[j])
      {
        if j < |f0| {
          assert f[j] == f0[j];
          assert SameRecord(b0, b, j);
        } else {
          var k := j - |f0|;
          assert f[j] == Origin(last, last.ruptures[k]);
        }
      }
    }
  }

  /** The rupture records succeed, whatever they are appended to, iff the physics succeeds on every rupture. */
  lemma {:induction false} RuptureRecordsSucceed(acc: Bins, gsim: Gsim, trt: int, rups: seq<Rupture>,
                                                 imt: Imt, iml: real, physics: Physics)
    ensures RuptureRecords(acc, gsim, trt, rups, imt, iml, physics).Success?
        <==> forall k :: 0 <= k < |rups| ==> physics(gsim, rups[k], imt, iml).Success?
    decreases |rups|
  {
    if |rups| > 0 {
      var init := rups[..|rups| - 1];
      RuptureRecordsSucceed(acc, gsim, trt, init, imt, iml, physics);
      assert forall k :: 0 <= k < |init| ==> init[k] == rups[k];
    }
  }

  /** `_collect_bins_data` returns iff every source can be collected. */
  lemma {:induction false} CollectedSucceeds(sources: seq<SourceRuptures>, trtNum: map<string, int>,
                                             gsims: map<string, Gsim>, imt: Imt, iml: real, physics: Physics)
    ensures Collected(sources, trtNum, gsims, imt, iml, physics).Success?
        <==> forall i :: 0 <= i < |sources| ==> SourceOk(sources[i], trtNum, gsims, imt, iml, physics)
    decreases |sources|
  {
    if |sources| > 0 {
      var init := sources[..|sources| - 1];
      var last := sources[|sources| - 1];
      CollectedSucceeds(init, trtNum, gsims, imt, iml, physics);
      assert forall i :: 0 <= i < |init| ==> init[i] == sources[i];
      var r0 := Collected(init, trtNum, gsims, imt, iml, physics);
      if r0.Success? && last.trt in gsims && last.trt in trtNum {
        RuptureRecordsSucceed(r0.value, gsims[last.trt], trtNum[last.trt], last.ruptures, imt, iml, physics);
      }
    }
  }

  /** The error `_collect_bins_data` raises names the first source that cannot be collected. */
  lemma {:induction false} CollectedFailureNamesSource(sources: seq<SourceRuptures>, trtNum: map<string, int>,
                                                       gsims: map<string, Gsim>, imt: Imt, iml: real, physics: Physics)
    requires Collected(sources, trtNum, gsims, imt, iml, physics).Failure?
    ensures exists i :: (0 <= i < |sources|
      && Collected(sources, trtNum, gsims, imt, iml, physics).error.sourceId == sources[i].sourceId
      && !SourceOk(sources[i], trtNum, gsims, imt, iml, physics)
      && forall i' :: 0 <= i' < i ==> SourceOk(sources[i'], trtNum, gsims, imt, iml, physics))
    decreases |sources|
  {
    var init := sources[..|sources| - 1];
    var last := sources[|sources| - 1];
    var r0 := Collected(init, trtNum, gsims, imt, iml, physics);
    if r0.Failure? {
      CollectedFailureNamesSource(init, trtNum, gsims, imt, iml, physics);
      var i :| 0 <= i < |init| && r0.error.sourceId == init[i].sourceId
        && !SourceOk(init[i], trtNum, gsims, imt, iml, physics)
        && forall i' :: 0 <= i' < i ==> SourceOk(init[i'], trtNum, gsims, imt, iml, physics);
      assert init[i] == sources[i];
      assert forall i' :: 0 <= i' < i ==> init[i'] == sources[i'];
    } else {
      CollectedSucceeds(init, trtNum, gsims, imt, iml, physics);
      assert forall i' :: 0 <= i' < |init| ==> init[i'] == sources[i'];
      if last.trt in gsims && last.trt in trtNum {
        RuptureRecordsSucceed(r0.value, gsims[last.trt], trtNum[last.trt], last.ruptures, imt, iml, physics);
      }
      assert !SourceOk(sources[|sources| - 1], trtNum, gsims, imt, iml, physics);
    }
  }

  // ---------------------------------------------------------------------------
  // get_iml

  /** `all(x == 0.0 for x in poes)`. */
  function AllZero(poes: seq<real>): (b: bool)
    ensures b <==> forall i :: 0 <= i < |poes| ==> poes[i] == 0.0
  {
    |poes| == 0 || (poes[0] == 0.0 && AllZero(poes[1..]))
  }

  /** `s[::-1]`. */
  function Reverse(s: seq<real>): (r: seq<real>)
    ensures |r| == |s| && forall i :: 0 <= i < |s| ==> r[i] == s[|s| - 1 - i]
  {
    seq(|s|, i requires 0 <= i < |s| => s[|s| - 1 - i])
  }

  /**
   * One-dimensional interpolation (`numpy.interp`): the value at a point of
   * the piecewise-linear function through the given abscissae and ordinates.
   */
  type Interp = (real, seq<real>, seq<real>) -> real

  /**
   * `get_iml`: no level for an all-zero hazard curve, otherwise the level
   * interpolated at `poe` over the reversed curve and the reversed levels.
   */
  function GetIml(curvePoes: seq<real>, poe: real, imls: seq<real>, interp: Interp): (r: Option<real>)
    ensures r.None? <==> forall i :: 0 <= i < |curvePoes| ==> curvePoes[i] == 0.0
    ensures r.Some? ==> r.value == interp(poe, Reverse(curvePoes), Reverse(imls))
  {
    if AllZero(curvePoes) then None
    else Some(interp(poe, Reverse(curvePoes), Reverse(imls)))
  }

  // ---------------------------------------------------------------------------
  // collect_bins

  /** A logic-tree realization and its GSIM for each tectonic region type. */
  datatype Realization = Realization(id: int, gsims: map<string, Gsim>)

  /** An intensity measure type and its levels, as configured for the calculation. */
  datatype ImtLevels = ImtLevels(imt: Imt, imls: seq<real>)

  /**
   * What `collect_bins` works with for one site: the ruptures close to it,
   * the type numbering, the stored hazard curve per realization and
   * intensity measure type, and the foreign numerics.
   */
  datatype Site = Site(sources: seq<SourceRuptures>, trtNum: map<string, int>,
                       curve: (int, Imt) -> seq<real>, interp: Interp, physics: Physics)

  /** The level `get_iml` yields for one (realization, poe, intensity measure type). */
  function ImlAt(site: Site, il: ImtLevels, rlz: Realization, poe: real): Option<real> {
    GetIml(site.curve(rlz.id, il.imt), poe, il.imls, site.interp)
  }

  /** The raw bin data collected for one (realization, poe, intensity measure type) with level `iml`. */
  function BinsAt(site: Site, il: ImtLevels, rlz: Realization, iml: real): Result<Bins, SourceError> {
    Collected(site.sources, site.trtNum, rlz.gsims, il.imt, iml, site.physics)
  }

  /** The body of the innermost loop of `collect_bins`. */
  function Step(site: Site, acc: map<Key, Bins>, il: ImtLevels, rlz: Realization, poe: real)
    : Result<map<Key, Bins>, SourceError>
  {
    match ImlAt(site, il, rlz, poe)
    case None => Success(acc)
    case Some(iml) =>
      match BinsAt(site, il, rlz, iml)
      case Failure(e) => Failure(e)
      case Success(b) => Success(acc[KeyOf(rlz.id, poe, iml, il.imt) := b])
  }

  /** The loop over the disaggregation poes. */
  function OverPoes(site: Site, acc: map<Key, Bins>, il: ImtLevels, rlz: Realization, poes: seq<real>)
    : Result<map<Key, Bins>, SourceError>
    decreases |poes|
  {
    if |poes| == 0 then Success(acc)
    else
      match OverPoes(site, acc, il, rlz, poes[..|poes| - 1])
      case Failure(e) => Failure(e)
      case Success(m) => Step(site, m, il, rlz, poes[|poes| - 1])
  }

  /** The loop over the realizations. */
  function OverRlzs(site: Site, acc: map<Key, Bins>, il: ImtLevels, rlzs: seq<Realization>, poes: seq<real>)
    : Result<map<Key, Bins>, SourceError>
    decreases |rlzs|
  {
    if |rlzs| == 0 then Success(acc)
    else
      match OverRlzs(site, acc, il, rlzs[..|rlzs| - 1], poes)
      case Failure(e) => Failure(e)
      case Success(m) => OverPoes(site, m, il, rlzs[|rlzs| - 1], poes)
  }

  /** The loop over the intensity measure types. */
  function OverImts(site: Site, acc: map<Key, Bins>, ils: seq<ImtLevels>, rlzs: seq<Realization>, poes: seq<real>)
    : Result<map<Key, Bins>, SourceError>
    decreases |ils|
  {
    if |ils| == 0 then Success(acc)
    else
      match OverImts(site, acc, ils[..|ils| - 1], rlzs, poes)
      case Failure(e) => Failure(e)
      case Success(m) => OverRlzs(site, m, ils[|ils| - 1], rlzs, poes)
  }

  /** What `collect_bins` returns or raises: nothing at all for a site without ruptures. */
  function CollectBinsResult(site: Site, ils: seq<ImtLevels>, rlzs: seq<Realization>, poes: seq<real>)
    : Result<map<Key, Bins>, SourceError>
  {
    if |site.sources| == 0 then Success(map[])
    else OverImts(site, map[], ils, rlzs, poes)
  }

  lemma {:induction false} PoesFailureSticks(site: Site, acc: map<Key, Bins>, il: ImtLevels, rlz: Realization,
                                             poes: seq<real>, k: nat)
    requires k <= |poes| && OverPoes(site, acc, il, rlz, poes[..k]).Failure?
    ensures OverPoes(site, acc, il, rlz, poes) == OverPoes(site, acc, il, rlz, poes[..k])
    decreases |poes| - k
  {
    if k < |poes| {
      assert poes[..|poes| - 1][..k] == poes[..k];
      PoesFailureSticks(site, acc, il, rlz, poes[..|poes| - 1], k);
    } else {
      assert poes[..k] == poes;
    }
  }

  lemma {:induction false} RlzsFailureSticks(site: Site, acc: map<Key, Bins>, il: ImtLevels, rlzs: seq<Realization>,
                                             poes: seq<real>, k: nat)
    requires k <= |rlzs| && OverRlzs(site, acc, il, rlzs[..k], poes).Failure?
    ensures OverRlzs(site, acc, il, rlzs, poes) == OverRlzs(site, acc, il, rlzs[..k], poes)
    decreases |rlzs| - k
  {
    if k < |rlzs| {
      assert rlzs[..|rlzs| - 1][..k] == rlzs[..k];
      RlzsFailureSticks(site, acc, il, rlzs[..|rlzs| - 1], poes, k);
    } else {
      assert rlzs[..k] == rlzs;
    }
  }

  lemma {:induction false} ImtsFailureSticks(site: Site, acc: map<Key, Bins>, ils: seq<ImtLevels>, rlzs: seq<Realization>,
                                             poes: seq<real>, k: nat)
    requires k <= |ils| && OverImts(site, acc, ils[..k], rlzs, poes).Failure?
    ensures OverImts(site, acc, ils, rlzs, poes) == OverImts(site, acc, ils[..k], rlzs, poes)
    decreases |ils| - k
  {
    if k < |ils| {
      assert ils[..|ils| - 1][..k] == ils[..k];
      ImtsFailureSticks(site, acc, ils[..|ils| - 1], rlzs, poes, k);
    } else {
      assert ils[..k] == ils;
    }
  }

  /**
   * The innermost loop of `collect_bins`, over the poes of one realization
   * and intensity measure type, stopping at the first source that fails.
   */
  method CollectPoes(site: Site, acc: map<Key, Bins>, il: ImtLevels, rlz: Realization, poes: seq<real>)
    returns (r: Result<map<Key, Bins>, SourceError>)
    ensures r == OverPoes(site, acc, il, rlz, poes)
  {
    var result := acc;
    for k := 0 to |poes|
      invariant OverPoes(site, acc, il, rlz, poes[..k]) == Success(result)
    {
      var poe := poes[k];
      assert poes[..k + 1][..k] == poes[..k];
      var iml := GetIml(site.curve(rlz.id, il.imt), poe, il.imls, site.interp);
      if iml.None? {
        continue;
      }
      var bins := CollectBinsData(site.trtNum, site.sources, il.imt, iml.value, rlz.gsims, site.physics);
      if bins.Failure? {
        PoesFailureSticks(site, acc, il, rlz, poes, k + 1);
        return Failure(bins.error);
      }
      result := result[KeyOf(rlz.id, poe, iml.value, il.imt) := bins.value];
    }
    assert poes[..|poes|] == poes;
    return Success(result);
  }

  /**
   * `collect_bins`: for each intensity measure type, realization and poe,
   * interpolate the level from the hazard curve, skip an all-zero curve, and
   * store the raw bin data under the key of the result.
   */
  method CollectBins(site: Site, ils: seq<ImtLevels>, rlzs: seq<Realization>, poes: seq<real>)
    returns (r: Result<map<Key, Bins>, SourceError>)
    ensures r == CollectBinsResult(site, ils, rlzs, poes)
  {
    if |site.sources| == 0 {
      return Success(map[]);
    }
    var result: map<Key, Bins> := map[];
    for i := 0 to |ils|
      invariant OverImts(site, map[], ils[..i], rlzs, poes) == Success(result)
    {
      var il := ils[i];
      assert ils[..i + 1][..i] == ils[..i];
      ghost var atImt := result;
      for j := 0 to |rlzs|
        invariant OverImts(site, map[], ils[..i], rlzs, poes) == Success(atImt)
        invariant OverRlzs(site, atImt, il, rlzs[..j], poes) == Success(result)
      {
        var rlz := rlzs[j];
        assert rlzs[..j + 1][..j] == rlzs[..j];
        var step := CollectPoes(site, result, il, rlz, poes);
        if step.Failure? {
          RlzsFailureSticks(site, atImt, il, rlzs, poes, j + 1);
          ImtsFailureSticks(site, map[], ils, rlzs, poes, i + 1);
          return Failure(step.error);
        }
        result := step.value;
      }
      assert rlzs[..|rlzs|] == rlzs;
    }
    assert ils[..|ils|] == ils;
    return Success(result);
  }

  // ---------------------------------------------------------------------------
  // The keys and values of the collect_bins result

  /** The (realization, poe, intensity measure type) iteration stores key `k`. */
  predicate ProducesKey(site: Site, il: ImtLevels, rlz: Realization, poe: real, k: Key) {
    var iml := ImlAt(site, il, rlz, poe);
    iml.Some? && k == KeyOf(rlz.id, poe, iml.value, il.imt)
  }

  /** ... and stores the raw bin data `b` under it. */
  predicate Produces(site: Site, il: ImtLevels, rlz: Realization, poe: real, k: Key, b: Bins) {
    ProducesKey(site, il, rlz, poe, k) && BinsAt(site, il, rlz, ImlAt(site, il, rlz, poe).value) == Success(b)
  }

  ghost predicate KeyFromPoes(site: Site, il: ImtLevels, rlz: Realization, poes: seq<real>, k: Key) {
    exists l :: 0 <= l < |poes| && ProducesKey(site, il, rlz, poes[l], k)
  }

  ghost predicate FromPoes(site: Site, il: ImtLevels, rlz: Realization, poes: seq<real>, k: Key, b: Bins) {
    exists l :: 0 <= l < |poes| && Produces(site, il, rlz, poes[l], k, b)
  }

  ghost predicate KeyFromRlzs(site: Site, il: ImtLevels, rlzs: seq<Realization>, poes: seq<real>, k: Key) {
    exists j :: 0 <= j < |rlzs| && KeyFromPoes(site, il, rlzs[j], poes, k)
  }

  ghost predicate FromRlzs(site: Site, il: ImtLevels, rlzs: seq<Realization>, poes: seq<real>, k: Key, b: Bins) {
    exists j :: 0 <= j < |rlzs| && FromPoes(site, il, rlzs[j], poes, k, b)
  }

  ghost predicate KeyFromImts(site: Site, ils: seq<ImtLevels>, rlzs: seq<Realization>, poes: seq<real>, k: Key) {
    exists i :: 0 <= i < |ils| && KeyFromRlzs(site, ils[i], rlzs, poes, k)
  }

  ghost predicate FromImts(site: Site, ils: seq<ImtLevels>, rlzs: seq<Realization>, poes: seq<real>, k: Key, b: Bins) {
    exists i :: 0 <= i < |ils| && FromRlzs(site, ils[i], rlzs, poes, k, b)
  }

  lemma PoesSnoc(site: Site, il: ImtLevels, rlz: Realization, poes: seq<real>, k: Key, b: Bins)
    requires |poes| > 0
    ensures KeyFromPoes(site, il, rlz, poes, k)
        <==> KeyFromPoes(site, il, rlz, poes[..|poes| - 1], k) || ProducesKey(site, il, rlz, poes[|poes| - 1], k)
    ensures FromPoes(site, il, rlz, poes, k, b)
        <==> FromPoes(site, il, rlz, poes[..|poes| - 1], k, b) || Produces(site, il, rlz, poes[|poes| - 1], k, b)
  {
    var init := poes[..|poes| - 1];
    assert forall l :: 0 <= l < |init| ==> init[l] == poes[l];
  }

  lemma RlzsSnoc(site: Site, il: ImtLevels, rlzs: seq<Realization>, poes: seq<real>, k: Key, b: Bins)
    requires |rlzs| > 0
    ensures KeyFromRlzs(site, il, rlzs, poes, k)
        <==> KeyFromRlzs(site, il, rlzs[..|rlzs| - 1], poes, k) || KeyFromPoes(site, il, rlzs[|rlzs| - 1], poes, k)
    ensures FromRlzs(site, il, rlzs, poes, k, b)
        <==> FromRlzs(site, il, rlzs[..|rlzs| - 1], poes, k, b) || FromPoes(site, il, rlzs[|rlzs| - 1], poes, k, b)
  {
    var init := rlzs[..|rlzs| - 1];
    assert forall j :: 0 <= j < |init| ==> init[j] == rlzs[j];
  }

  lemma ImtsSnoc(site: Site, ils: seq<ImtLevels>, rlzs: seq<Realization>, poes: seq<real>, k: Key, b: Bins)
    requires |ils| > 0
    ensures KeyFromImts(site, ils, rlzs, poes, k)
        <==> KeyFromImts(site, ils[..|ils| - 1], rlzs, poes, k) || KeyFromRlzs(site, ils[|ils| - 1], rlzs, poes, k)
    ensures FromImts(site, ils, rlzs, poes, k, b)
        <==> FromImts(site, ils[..|ils| - 1], rlzs, poes, k, b) || FromRlzs(site, ils[|ils| - 1], rlzs, poes, k, b)
  {
    var init := ils[..|ils| - 1];
    assert forall i :: 0 <= i < |init| ==> init[i] == ils[i];
  }

  /** The poe loop keeps the keys it started with and adds exactly the keys its iterations store. */
  lemma {:induction false} OverPoesContent(site: Site, acc: map<Key, Bins>, il: ImtLevels, rlz: Realization,
                                           poes: seq<real>)
    requires OverPoes(site, acc, il, rlz, poes).Success?
    ensures var m := OverPoes(site, acc, il, rlz, poes).value;
      && (forall k :: k in m <==> k in acc || KeyFromPoes(site, il, rlz, poes, k))
      && (forall k :: k in m ==> (k in acc && m[k] == acc[k]) || FromPoes(site, il, rlz, poes, k, m[k]))
    decreases |poes|
  {
    if |poes| > 0 {
      var init, poe := poes[..|poes| - 1], poes[|poes| - 1];
      OverPoesContent(site, acc, il, rlz, init);
      var m0 := OverPoes(site, acc, il, rlz, init).value;
      var m := OverPoes(site, acc, il, rlz, poes).value;
      assert Step(site, m0, il, rlz, poe) == Success(m);
      forall k
        ensures k in m <==> k in acc || KeyFromPoes(site, il, rlz, poes, k)
        ensures k in m ==> (k in acc && m[k] == acc[k]) || FromPoes(site, il, rlz, poes, k, m[k])
      {
        if k in m {
          PoesSnoc(site, il, rlz, poes, k, m[k]);
        } else {
          PoesSnoc(site, il, rlz, poes, k, EmptyBins());
        }
      }
    }
  }

  /** The same for the realization loop. */
  lemma {:induction false} OverRlzsContent(site: Site, acc: map<Key, Bins>, il: ImtLevels, rlzs: seq<Realization>,
                                           poes: seq<real>)
    requires OverRlzs(site, acc, il, rlzs, poes).Success?
    ensures var m := OverRlzs(site, acc, il, rlzs, poes).value;
      && (forall k :: k in m <==> k in acc || KeyFromRlzs(site, il, rlzs, poes, k))
      && (forall k :: k in m ==> (k in acc && m[k] == acc[k]) || FromRlzs(site, il, rlzs, poes, k, m[k]))
    decreases |rlzs|
  {
    if |rlzs| > 0 {
      var init, rlz := rlzs[..|rlzs| - 1], rlzs[|rlzs| - 1];
      OverRlzsContent(site, acc, il, init, poes);
      var m0 := OverRlzs(site, acc, il, init, poes).value;
      var m := OverRlzs(site, acc, il, rlzs, poes).value;
      assert OverPoes(site, m0, il, rlz, poes) == Success(m);
      OverPoesContent(site, m0, il, rlz, poes);
      forall k
        ensures k in m <==> k in acc || KeyFromRlzs(site, il, rlzs, poes, k)
        ensures k in m ==> (k in acc && m[k] == acc[k]) || FromRlzs(site, il, rlzs, poes, k, m[k])
      {
        if k in m {
          RlzsSnoc(site, il, rlzs, poes, k, m[k]);
        } else {
          RlzsSnoc(site, il, rlzs, poes, k, EmptyBins());
        }
      }
    }
  }

  /** The same for the intensity measure type loop. */
  lemma {:induction false} OverImtsContent(site: Site, acc: map<Key, Bins>, ils: seq<ImtLevels>, rlzs: seq<Realization>,
                                           poes: seq<real>)
    requires OverImts(site, acc, ils, rlzs, poes).Success?
    ensures var m := OverImts(site, acc, ils, rlzs, poes).value;
      && (forall k :: k in m <==> k in acc || KeyFromImts(site, ils, rlzs, poes, k))
      && (forall k :: k in m ==> (k in acc && m[k] == acc[k]) || FromImts(site, ils, rlzs, poes, k, m[k]))
    decreases |ils|
  {
    if |ils| > 0 {
      var init, il := ils[..|ils| - 1], ils[|ils| - 1];
      OverImtsContent(site, acc, init, rlzs, poes);
      var m0 := OverImts(site, acc, init, rlzs, poes).value;
      var m := OverImts(site, acc, ils, rlzs, poes).value;
      assert OverRlzs(site, m0, il, rlzs, poes) == Success(m);
      OverRlzsContent(site, m0, il, rlzs, poes);
      forall k
        ensures k in m <==> k in acc || KeyFromImts(site, ils, rlzs, poes, k)
        ensures k in m ==> (k in acc && m[k] == acc[k]) || FromImts(site, ils, rlzs, poes, k, m[k])
      {
        if k in m {
          ImtsSnoc(site, ils, rlzs, poes, k, m[k]);
        } else {
          ImtsSnoc(site, ils, rlzs, poes, k, EmptyBins());
        }
      }
    }
  }

  /**
   * The keys of the `collect_bins` result are exactly those stored by an
   * (intensity measure type, realization, poe) iteration whose curve is not
   * all zero, and each holds the raw bin data collected at that iteration's
   * level; a site without ruptures gives the empty result.
   */
  lemma CollectBinsKeys(site: Site, ils: seq<ImtLevels>, rlzs: seq<Realization>, poes: seq<real>)
    requires CollectBinsResult(site, ils, rlzs, poes).Success?
    ensures var m := CollectBinsResult(site, ils, rlzs, poes).value;
      && (|site.sources| == 0 ==> m == map[])
      && (forall k :: k in m <==> |site.sources| > 0 && KeyFromImts(site, ils, rlzs, poes, k))
      && (forall k :: k in m ==> FromImts(site, ils, rlzs, poes, k, m[k]))
  {
    if |site.sources| > 0 {
      OverImtsContent(site, map[], ils, rlzs, poes);
    }
  }

  /**
   * An all-zero hazard curve contributes nothing: no key of the result has
   * that curve's realization and intensity measure type.
   */
  lemma ZeroCurveSkipped(site: Site, ils: seq<ImtLevels>, rlzs: seq<Realization>, poes: seq<real>,
                         rlzId: int, imt: Imt)
    requires CollectBinsResult(site, ils, rlzs, poes).Success?
    requires forall i :: 0 <= i < |site.curve(rlzId, imt)| ==> site.curve(rlzId, imt)[i] == 0.0
    ensures forall k :: k in CollectBinsResult(site, ils, rlzs, poes).value ==>
      !(k.rlzId == rlzId && Imt(k.imType, k.saPeriod, k.saDamping) == imt)
  {
    var m := CollectBinsResult(site, ils, rlzs, poes).value;
    CollectBinsKeys(site, ils, rlzs, poes);
    forall k | k in m
      ensures !(k.rlzId == rlzId && Imt(k.imType, k.saPeriod, k.saDamping) == imt)
    {
      var i :| 0 <= i < |ils| && KeyFromRlzs(site, ils[i], rlzs, poes, k);
      var j :| 0 <= j < |rlzs| && KeyFromPoes(site, ils[i], rlzs[j], poes, k);
      var l :| 0 <= l < |poes| && ProducesKey(site, ils[i], rlzs[j], poes[l], k);
      assert k.rlzId == rlzs[j].id && Imt(k.imType, k.saPeriod, k.saDamping) == ils[i].imt;
    }
  }
}
