/**
 * The values shared by the disaggregation engine: intensity measure types,
 * disaggregation keys and the six parallel lists of raw bin data.
 */
module DisaggTypes {
  import opened Wrappers

  /** An intensity measure type as the triple (type, SA period, SA damping). */
  datatype Imt = Imt(imType: string, saPeriod: Option<real>, saDamping: Option<real>)

  /** A disaggregation key: (rlz id, poe, iml, im type, SA period, SA damping). */
  datatype Key = Key(rlzId: int, poe: real, iml: real, imType: string,
                     saPeriod: Option<real>, saDamping: Option<real>)

  function KeyOf(rlzId: int, poe: real, iml: real, imt: Imt): (k: Key)
    ensures k.rlzId == rlzId && k.poe == poe && k.iml == iml
    ensures Imt(k.imType, k.saPeriod, k.saDamping) == imt
  {
    Key(rlzId, poe, iml, imt.imType, imt.saPeriod, imt.saDamping)
  }

  /** Two results share a key exactly when they have the same realization, poe, level and measure type. */
  lemma KeyOfInjective(r1: int, p1: real, l1: real, m1: Imt, r2: int, p2: real, l2: real, m2: Imt)
    ensures KeyOf(r1, p1, l1, m1) == KeyOf(r2, p2, l2, m2) <==> r1 == r2 && p1 == p2 && l1 == l2 && m1 == m2
  {
  }

  /**
   * Raw bin data: magnitudes, distances, closest-point longitudes and
   * latitudes, tectonic region type numbers and, per record, the
   * probabilities of no exceedance for each epsilon bin.
   */
  datatype Bins = Bins(mags: seq<real>, dists: seq<real>, lons: seq<real>, lats: seq<real>,
                       trts: seq<int>, probsNoExceed: seq<seq<real>>)
  {
    /** The six lists describe the same records. */
    predicate Parallel() {
      && |dists| == |mags| && |lons| == |mags| && |lats| == |mags|
      && |trts| == |mags| && |probsNoExceed| == |mags|
    }

    function Size(): nat { |mags| }
  }

  function EmptyBins(): (b: Bins)
    ensures b.Parallel() && b.Size() == 0
  {
    Bins([], [], [], [], [], [])
  }

  /** `acc.extend(ls)` applied to each of the six lists in turn. */
  function Extend(acc: Bins, more: Bins): (r: Bins)
    ensures acc.Parallel() && more.Parallel() ==> r.Parallel() && r.Size() == acc.Size() + more.Size()
  {
    Bins(acc.mags + more.mags, acc.dists + more.dists, acc.lons + more.lons,
         acc.lats + more.lats, acc.trts + more.trts, acc.probsNoExceed + more.probsNoExceed)
  }

  /** Extending is associative and the empty lists are its identity. */
  lemma ExtendMonoid(a: Bins, b: Bins, c: Bins)
    ensures Extend(Extend(a, b), c) == Extend(a, Extend(b, c))
    ensures Extend(EmptyBins(), a) == a && Extend(a, EmptyBins()) == a
  {
    assert Extend(EmptyBins(), a).mags == a.mags;
    assert Extend(a, EmptyBins()).mags == a.mags;
  }
}
