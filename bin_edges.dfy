/**
 * Bin edges of the disaggregation histograms (`_define_bins`): fixed-width
 * edges for magnitude, distance and latitude, evenly spaced edges for
 * epsilon, and longitude edges taken from the geodesic library.
 */
module BinEdges {
  import opened Wrappers
  import opened DisaggTypes

  predicate Sorted(e: seq<real>) {
    forall i, j :: 0 <= i < j < |e| ==> e[i] <= e[j]
  }

  predicate StrictlyIncreasing(e: seq<real>) {
    forall i, j :: 0 <= i < j < |e| ==> e[i] < e[j]
  }

  /** `int(numpy.floor(x))`. */
  function Floor(x: real): (f: int)
    ensures f as real <= x < f as real + 1.0
  {
    x.Floor
  }

  /** `int(numpy.ceil(x))`. */
  function Ceil(x: real): (c: int)
    ensures x <= c as real < x + 1.0
  {
    -((-x).Floor)
  }

  /** The smallest of a non-empty list (`numpy` `min()`). */
  function Min(s: seq<real>): (m: real)
    requires |s| > 0
    ensures m in s && forall i :: 0 <= i < |s| ==> m <= s[i]
  {
    if |s| == 1 then s[0]
    else
      var rest := Min(s[1..]);
      assert forall i :: 1 <= i < |s| ==> s[i] == s[1..][i - 1];
      if s[0] <= rest then s[0] else rest
  }

  /** The largest of a non-empty list (`numpy` `max()`). */
  function Max(s: seq<real>): (m: real)
    requires |s| > 0
    ensures m in s && forall i :: 0 <= i < |s| ==> s[i] <= m
  {
    if |s| == 1 then s[0]
    else
      var rest := Max(s[1..]);
      assert forall i :: 1 <= i < |s| ==> s[i] == s[1..][i - 1];
      if s[0] >= rest then s[0] else rest
  }

  /** `width * numpy.arange(lo, hi + 1)`: the multiples `width * i`, `lo <= i <= hi`. */
  function ScaledRange(width: real, lo: int, hi: int): (e: seq<real>)
    ensures |e| == if lo <= hi then hi - lo + 1 else 0
    decreases hi - lo
  {
    if hi < lo then [] else ScaledRange(width, lo, hi - 1) + [width * hi as real]
  }

  lemma {:induction false} ScaledRangeAt(width: real, lo: int, hi: int, i: nat)
    requires lo + i <= hi
    ensures ScaledRange(width, lo, hi)[i] == width * (lo + i) as real
    decreases hi - lo
  {
    if lo + i < hi {
      ScaledRangeAt(width, lo, hi - 1, i);
    }
  }

  /** Fixed-width edges for the range [mn, mx] of one quantity. */
  function FixedWidthEdges(width: real, mn: real, mx: real): seq<real>
    requires width > 0.0
  {
    ScaledRange(width, Floor(mn / width), Ceil(mx / width))
  }

  lemma MulMonotone(w: real, a: real, b: real)
    requires w > 0.0 && a <= b
    ensures w * a <= w * b
  {
  }

  lemma MulStrict(w: real, a: real, b: real)
    requires w > 0.0 && a < b
    ensures w * a < w * b
  {
  }

  lemma DivMonotone(w: real, a: real, b: real)
    requires w > 0.0 && a <= b
    ensures a / w <= b / w
  {
  }

  /** A scaled range of consecutive integers is strictly increasing, from `width * lo` to `width * hi`. */
  lemma ScaledRangeIncreasing(width: real, lo: int, hi: int)
    requires width > 0.0 && lo <= hi
    ensures var e := ScaledRange(width, lo, hi);
      && StrictlyIncreasing(e) && e[0] == width * lo as real && e[|e| - 1] == width * hi as real
  {
    var e := ScaledRange(width, lo, hi);
    forall i, j | 0 <= i < j < |e| ensures e[i] < e[j] {
      ScaledRangePair(width, lo, hi, i, j);
    }
    ScaledRangeAt(width, lo, hi, 0);
    ScaledRangeAt(width, lo, hi, |e| - 1);
  }

  lemma ScaledRangePair(width: real, lo: int, hi: int, i: nat, j: nat)
    requires width > 0.0 && i < j && lo + j <= hi
    ensures ScaledRange(width, lo, hi)[i] < ScaledRange(width, lo, hi)[j]
  {
    ScaledRangeAt(width, lo, hi, i);
    ScaledRangeAt(width, lo, hi, j);
    MulStrict(width, (lo + i) as real, (lo + j) as real);
  }

  /**
   * Fixed-width edges are `width * i` for the consecutive integers
   * `floor(mn/width) .. ceil(mx/width)`: strictly increasing, and the
   * first edge is at most `mn`, the last at least `mx`.
   */
  lemma FixedWidthEdgesCover(width: real, mn: real, mx: real)
    requires width > 0.0 && mn <= mx
    ensures var e := FixedWidthEdges(width, mn, mx);
      && |e| == Ceil(mx / width) - Floor(mn / width) + 1
      && e[0] == width * Floor(mn / width) as real
      && e[|e| - 1] == width * Ceil(mx / width) as real
      && StrictlyIncreasing(e)
      && e[0] <= mn && mx <= e[|e| - 1]
  {
    var lo, hi := Floor(mn / width), Ceil(mx / width);
    DivMonotone(width, mn, mx);
    ScaledRangeIncreasing(width, lo, hi);
    MulMonotone(width, lo as real, mn / width);
    assert width * (mn / width) == mn;
    MulMonotone(width, mx / width, hi as real);
    assert width * (mx / width) == mx;
  }

  lemma CoversBetween(e: seq<real>, vs: seq<real>, mn: real, mx: real)
    requires |e| >= 1 && StrictlyIncreasing(e) && e[0] <= mn && mx <= e[|e| - 1]
    requires forall j :: 0 <= j < |vs| ==> mn <= vs[j] <= mx
    ensures Covers(e, vs)
  {
  }

  /** When `mn == mx` is a multiple of the width there is one edge and no bin. */
  lemma FixedWidthEdgesDegenerate(width: real, k: int)
    requires width > 0.0
    ensures FixedWidthEdges(width, width * k as real, width * k as real) == [width * k as real]
  {
    var v := width * k as real;
    assert v / width == k as real;
    assert Floor(v / width) == k && Ceil(v / width) == k;
    var e := FixedWidthEdges(width, v, v);
    ScaledRangeAt(width, k, k, 0);
    assert |e| == 1 && e[0] == v;
  }

  /**
   * As written, values that all equal one multiple of the width get a single
   * edge and no bin: a rupture set of magnitude 7.0 with a 0.5 magnitude width.
   */
  lemma SingleMagnitudeHasNoBin()
    ensures FixedWidthEdges(0.5, 7.0, 7.0) == [7.0]
  {
    FixedWidthEdgesDegenerate(0.5, 14);
  }

  /** The number of the last edge: `ceil(mx/width)`, but at least one past `floor(mn/width)`. */
  function LastIndex(width: real, mn: real, mx: real): int
    requires width > 0.0
  {
    var lo, hi := Floor(mn / width), Ceil(mx / width);
    if hi > lo then hi else lo + 1
  }

  /** Fixed-width edges that always define at least one bin. */
  function CoveringEdges(width: real, mn: real, mx: real): seq<real>
    requires width > 0.0
  {
    ScaledRange(width, Floor(mn / width), LastIndex(width, mn, mx))
  }

  /** The corrected edges are the source's edges whenever those define at least one bin. */
  lemma CoveringEdgesAgree(width: real, mn: real, mx: real)
    requires width > 0.0
    ensures |FixedWidthEdges(width, mn, mx)| >= 2 ==> CoveringEdges(width, mn, mx) == FixedWidthEdges(width, mn, mx)
  {
  }

  /**
   * The corrected edges are strictly increasing with at least two edges, the
   * first at most `mn` and the last at least `mx`.
   */
  lemma CoveringEdgesCover(width: real, mn: real, mx: real)
    requires width > 0.0 && mn <= mx
    ensures var e := CoveringEdges(width, mn, mx);
      && |e| == LastIndex(width, mn, mx) - Floor(mn / width) + 1 && |e| >= 2
      && StrictlyIncreasing(e)
      && e[0] <= mn && mx <= e[|e| - 1]
  {
    var lo, hi := Floor(mn / width), LastIndex(width, mn, mx);
    DivMonotone(width, mn, mx);
    ScaledRangeIncreasing(width, lo, hi);
    MulMonotone(width, lo as real, mn / width);
    assert width * (mn / width) == mn;
    MulMonotone(width, mx / width, Ceil(mx / width) as real);
    MulMonotone(width, Ceil(mx / width) as real, hi as real);
    assert width * (mx / width) == mx;
  }

  /** The corrected edges of values lying between `mn` and `mx` enclose all of them. */
  lemma CoveringEdgesCoverData(width: real, vs: seq<real>, mn: real, mx: real)
    requires width > 0.0 && mn <= mx
    requires forall j :: 0 <= j < |vs| ==> mn <= vs[j] <= mx
    ensures Covers(CoveringEdges(width, mn, mx), vs)
  {
    CoveringEdgesCover(width, mn, mx);
    CoversBetween(CoveringEdges(width, mn, mx), vs, mn, mx);
  }

  /**
   * `numpy.linspace(lo, hi, num)`: `num` values starting at `lo`, a step of
   * `(hi - lo) / (num - 1)` apart; a single value is `lo` itself.
   */
  function Linspace(lo: real, hi: real, num: nat): seq<real> {
    if num <= 1 then seq(num, i => lo)
    else
      var step := (hi - lo) / ((num - 1) as real);
      seq(num, i => lo + (i as real) * step)
  }

  /** The epsilon edges, `n_epsilons + 1` values evenly spaced on [-t, t]. */
  function EpsilonEdges(truncation: real, nEpsilons: nat): seq<real> {
    Linspace(-truncation, truncation, nEpsilons + 1)
  }

  lemma LinspaceLast(lo: real, hi: real, num: nat)
    requires num >= 2
    ensures Linspace(lo, hi, num)[num - 1] == hi
  {
    var n := (num - 1) as real;
    var step := (hi - lo) / n;
    assert n * step == hi - lo;
  }

  lemma LinspaceIncreasing(lo: real, hi: real, num: nat)
    requires lo < hi
    ensures StrictlyIncreasing(Linspace(lo, hi, num))
  {
    if num >= 2 {
      var e := Linspace(lo, hi, num);
      var step := (hi - lo) / ((num - 1) as real);
      assert step > 0.0;
      forall i, j | 0 <= i < j < |e| ensures e[i] < e[j] {
        MulStrict(step, i as real, j as real);
        assert (i as real) * step == step * (i as real);
        assert (j as real) * step == step * (j as real);
      }
    }
  }

  /**
   * The epsilon edges have `n_epsilons + 1` values, start at `-t`, end at `t`
   * (when there is at least one bin), are equally spaced and, for `t > 0`,
   * strictly increasing.
   */
  lemma EpsilonEdgesShape(truncation: real, nEpsilons: nat)
    ensures var e := EpsilonEdges(truncation, nEpsilons);
      && |e| == nEpsilons + 1
      && e[0] == -truncation
      && (nEpsilons > 0 ==> e[nEpsilons] == truncation)
      && (forall i :: 0 <= i < nEpsilons ==> e[i + 1] - e[i] == 2.0 * truncation / nEpsilons as real)
      && (truncation > 0.0 ==> StrictlyIncreasing(e))
  {
    var e := EpsilonEdges(truncation, nEpsilons);
    if nEpsilons > 0 {
      LinspaceLast(-truncation, truncation, nEpsilons + 1);
      var step := (truncation - -truncation) / (nEpsilons as real);
      assert step == 2.0 * truncation / nEpsilons as real;
      forall i | 0 <= i < nEpsilons ensures e[i + 1] - e[i] == step {
        assert e[i + 1] == -truncation + ((i + 1) as real) * step;
        assert e[i] == -truncation + (i as real) * step;
      }
    }
    if truncation > 0.0 {
      LinspaceIncreasing(-truncation, truncation, nEpsilons + 1);
    }
  }

  /** The five edge sequences, in the order (mag, dist, lon, lat, eps). */
  datatype Edges = Edges(mag: seq<real>, dist: seq<real>, lon: seq<real>,
                         lat: seq<real>, eps: seq<real>)

  /** `min()` of an empty array raises. */
  datatype DefineError = EmptyBinsData

  /** Edges that enclose every value of `vs`. */
  predicate Covers(e: seq<real>, vs: seq<real>) {
    && |e| >= 1
    && StrictlyIncreasing(e)
    && forall j :: 0 <= j < |vs| ==> e[0] <= vs[j] <= e[|e| - 1]
  }

  /** `e` is the grid of the multiples `width * i` for the consecutive integers `lo <= i <= hi`. */
  predicate Grid(e: seq<real>, width: real, lo: int, hi: int) {
    && |e| == hi - lo + 1
    && forall i :: 0 <= i < |e| ==> e[i] == width * (lo + i) as real
  }

  /** The edges as written are the grid from `floor(mn/width)` to `ceil(mx/width)`. */
  lemma FixedWidthEdgesGrid(width: real, mn: real, mx: real)
    requires width > 0.0 && mn <= mx
    ensures Grid(FixedWidthEdges(width, mn, mx), width, Floor(mn / width), Ceil(mx / width))
  {
    var lo, hi := Floor(mn / width), Ceil(mx / width);
    FixedWidthEdgesCover(width, mn, mx);
    forall i | 0 <= i < |ScaledRange(width, lo, hi)| ensures ScaledRange(width, lo, hi)[i] == width * (lo + i) as real {
      ScaledRangeAt(width, lo, hi, i);
    }
  }

  /** The edges as written of values lying between `mn` and `mx` enclose all of them. */
  lemma FixedWidthEdgesCoverData(width: real, vs: seq<real>, mn: real, mx: real)
    requires width > 0.0 && mn <= mx
    requires forall j :: 0 <= j < |vs| ==> mn <= vs[j] <= mx
    ensures Covers(FixedWidthEdges(width, mn, mx), vs)
  {
    FixedWidthEdgesCover(width, mn, mx);
    CoversBetween(FixedWidthEdges(width, mn, mx), vs, mn, mx);
  }

  /** The smallest and largest of a list do not depend on the order of its elements. */
  lemma MinMaxPermutation(s: seq<real>, t: seq<real>)
    requires |s| > 0 && multiset(s) == multiset(t)
    ensures |t| > 0 && Min(s) == Min(t) && Max(s) == Max(t)
  {
    assert |t| == |multiset(t)| == |multiset(s)| == |s|;
    assert Min(s) in multiset(t) && Min(t) in multiset(s);
    assert Max(s) in multiset(t) && Max(t) in multiset(s);
  }

  /**
   * Longitude edges that depend only on which longitudes and latitudes there
   * are, as a bounding box does, and not on the order they come in.
   */
  ghost predicate PointOrderFree(lonEdgesOf: (seq<real>, seq<real>, real) -> seq<real>) {
    forall lons, lats, lons', lats', w ::
      multiset(lons) == multiset(lons') && multiset(lats) == multiset(lats')
      ==> lonEdgesOf(lons, lats, w) == lonEdgesOf(lons', lats', w)
  }

  /**
   * `_define_bins`. `lonEdgesOf` stands for the geodesic library (bounding
   * box, longitudinal extent and `npoints_between`) that yields the longitude
   * edges from the longitudes, latitudes and coordinate bin width.
   */
  function DefineBins(data: Bins, magWidth: real, distWidth: real, coordWidth: real,
                      lonEdgesOf: (seq<real>, seq<real>, real) -> seq<real>,
                      truncation: real, nEpsilons: nat): (r: Result<Edges, DefineError>)
    requires magWidth > 0.0 && distWidth > 0.0 && coordWidth > 0.0
    ensures r.Failure? <==> |data.mags| == 0 || |data.dists| == 0 || |data.lons| == 0 || |data.lats| == 0
    ensures r.Success? ==>
      && Grid(r.value.mag, magWidth, Floor(Min(data.mags) / magWidth), Ceil(Max(data.mags) / magWidth)) && Covers(r.value.mag, data.mags)
      && Grid(r.value.dist, distWidth, Floor(Min(data.dists) / distWidth), Ceil(Max(data.dists) / distWidth)) && Covers(r.value.dist, data.dists)
      && Grid(r.value.lat, coordWidth, Floor(Min(data.lats) / coordWidth), Ceil(Max(data.lats) / coordWidth)) && Covers(r.value.lat, data.lats)
      && r.value.lon == lonEdgesOf(data.lons, data.lats, coordWidth)
      && r.value.eps == EpsilonEdges(truncation, nEpsilons)
      && |r.value.eps| == nEpsilons + 1 && r.value.eps[0] == -truncation
      && (nEpsilons > 0 ==> r.value.eps[nEpsilons] == truncation)
  {
    if |data.mags| == 0 || |data.dists| == 0 || |data.lons| == 0 || |data.lats| == 0 then
      Failure(EmptyBinsData)
    else
      assert Min(data.mags) <= data.mags[0] <= Max(data.mags);
      FixedWidthEdgesGrid(magWidth, Min(data.mags), Max(data.mags));
      FixedWidthEdgesCoverData(magWidth, data.mags, Min(data.mags), Max(data.mags));
      assert Min(data.dists) <= data.dists[0] <= Max(data.dists);
      FixedWidthEdgesGrid(distWidth, Min(data.dists), Max(data.dists));
      FixedWidthEdgesCoverData(distWidth, data.dists, Min(data.dists), Max(data.dists));
      assert Min(data.lats) <= data.lats[0] <= Max(data.lats);
      FixedWidthEdgesGrid(coordWidth, Min(data.lats), Max(data.lats));
      FixedWidthEdgesCoverData(coordWidth, data.lats, Min(data.lats), Max(data.lats));
      EpsilonEdgesShape(truncation, nEpsilons);
      Success(Edges(FixedWidthEdges(magWidth, Min(data.mags), Max(data.mags)),
                    FixedWidthEdges(distWidth, Min(data.dists), Max(data.dists)),
                    lonEdgesOf(data.lons, data.lats, coordWidth),
                    FixedWidthEdges(coordWidth, Min(data.lats), Max(data.lats)),
                    EpsilonEdges(truncation, nEpsilons)))
  }

  /**
   * As written, ruptures that all have magnitude 7.0, binned 0.5 wide, get
   * the single magnitude edge 7.0: a matrix without any magnitude bin.
   */
  lemma SingleMagnitudeDefinesNoBin(data: Bins, distWidth: real, coordWidth: real,
                                    lonEdgesOf: (seq<real>, seq<real>, real) -> seq<real>,
                                    truncation: real, nEpsilons: nat)
    requires distWidth > 0.0 && coordWidth > 0.0
    requires |data.mags| > 0 && |data.dists| > 0 && |data.lons| > 0 && |data.lats| > 0
    requires forall j :: 0 <= j < |data.mags| ==> data.mags[j] == 7.0
    ensures DefineBins(data, 0.5, distWidth, coordWidth, lonEdgesOf, truncation, nEpsilons).value.mag == [7.0]
  {
    assert Min(data.mags) == 7.0 && Max(data.mags) == 7.0;
    SingleMagnitudeHasNoBin();
  }

  /**
   * `_define_bins` with the magnitude, distance and latitude edges corrected
   * to define at least one bin; everything else is as `DefineBins` computes it.
   */
  function DefineBinsCovering(data: Bins, magWidth: real, distWidth: real, coordWidth: real,
                              lonEdgesOf: (seq<real>, seq<real>, real) -> seq<real>,
                              truncation: real, nEpsilons: nat): (r: Result<Edges, DefineError>)
    requires magWidth > 0.0 && distWidth > 0.0 && coordWidth > 0.0
    ensures r.Failure? <==> |data.mags| == 0 || |data.dists| == 0 || |data.lons| == 0 || |data.lats| == 0
    ensures r.Success? ==>
      && Covers(r.value.mag, data.mags) && |r.value.mag| >= 2
      && Covers(r.value.dist, data.dists) && |r.value.dist| >= 2
      && Covers(r.value.lat, data.lats) && |r.value.lat| >= 2
    ensures r.Success? ==>
      var d := DefineBins(data, magWidth, distWidth, coordWidth, lonEdgesOf, truncation, nEpsilons);
      && d.Success?
      && (|d.value.mag| >= 2 ==> r.value.mag == d.value.mag)
      && (|d.value.dist| >= 2 ==> r.value.dist == d.value.dist)
      && (|d.value.lat| >= 2 ==> r.value.lat == d.value.lat)
      && r.value.lon == d.value.lon && r.value.eps == d.value.eps
  {
    var d := DefineBins(data, magWidth, distWidth, coordWidth, lonEdgesOf, truncation, nEpsilons);
    if d.Failure? then d
    else
      CoveringEdgesCoverData(magWidth, data.mags, Min(data.mags), Max(data.mags));
      CoveringEdgesCoverData(distWidth, data.dists, Min(data.dists), Max(data.dists));
      CoveringEdgesCoverData(coordWidth, data.lats, Min(data.lats), Max(data.lats));
      CoveringEdgesCover(magWidth, Min(data.mags), Max(data.mags));
      CoveringEdgesCover(distWidth, Min(data.dists), Max(data.dists));
      CoveringEdgesCover(coordWidth, Min(data.lats), Max(data.lats));
      CoveringEdgesAgree(magWidth, Min(data.mags), Max(data.mags));
      CoveringEdgesAgree(distWidth, Min(data.dists), Max(data.dists));
      CoveringEdgesAgree(coordWidth, Min(data.lats), Max(data.lats));
      Success(d.value.(mag := CoveringEdges(magWidth, Min(data.mags), Max(data.mags)),
                       dist := CoveringEdges(distWidth, Min(data.dists), Max(data.dists)),
                       lat := CoveringEdges(coordWidth, Min(data.lats), Max(data.lats))))
  }

  /** Raw data holding the same values in another order gets the same edges. */
  lemma DefineBinsPermutation(d1: Bins, d2: Bins, magWidth: real, distWidth: real, coordWidth: real,
                              lonEdgesOf: (seq<real>, seq<real>, real) -> seq<real>,
                              truncation: real, nEpsilons: nat)
    requires magWidth > 0.0 && distWidth > 0.0 && coordWidth > 0.0
    requires PointOrderFree(lonEdgesOf)
    requires multiset(d1.mags) == multiset(d2.mags) && multiset(d1.dists) == multiset(d2.dists)
    requires multiset(d1.lons) == multiset(d2.lons) && multiset(d1.lats) == multiset(d2.lats)
    ensures DefineBins(d1, magWidth, distWidth, coordWidth, lonEdgesOf, truncation, nEpsilons)
         == DefineBins(d2, magWidth, distWidth, coordWidth, lonEdgesOf, truncation, nEpsilons)
  {
    assert |d1.mags| == |multiset(d1.mags)| == |multiset(d2.mags)| == |d2.mags|;
    assert |d1.dists| == |multiset(d1.dists)| == |multiset(d2.dists)| == |d2.dists|;
    assert |d1.lons| == |multiset(d1.lons)| == |multiset(d2.lons)| == |d2.lons|;
    assert |d1.lats| == |multiset(d1.lats)| == |multiset(d2.lats)| == |d2.lats|;
    if |d1.mags| > 0 && |d1.dists| > 0 && |d1.lons| > 0 && |d1.lats| > 0 {
      MinMaxPermutation(d1.mags, d2.mags);
      MinMaxPermutation(d1.dists, d2.dists);
      MinMaxPermutation(d1.lats, d2.lats);
      assert lonEdgesOf(d1.lons, d1.lats, coordWidth) == lonEdgesOf(d2.lons, d2.lats, coordWidth);
    }
  }
}
