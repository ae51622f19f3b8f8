/**
 * Bin membership and the dense 6-dimensional disaggregation matrix
 * (`_arrange_data_in_bins`).
 */
module Arrange {
  import opened DisaggTypes
  import opened BinEdges

  /**
   * The signed longitudinal extent from the first longitude to the second,
   * as the geodesic library computes it; left uninterpreted.
   */
  type Extent = (real, real) -> real

  /** Bin `i` of `e`: closed `[e[0], e[1]]` for bin 0, half-open `(e[i], e[i+1]]` otherwise. */
  predicate InBin(v: real, e: seq<real>, i: nat)
    requires i + 1 < |e|
  {
    v <= e[i + 1] && (i == 0 || e[i] < v)
  }

  /** Longitude bin `i`, with the comparisons made through the signed extent. */
  predicate InLonBin(ext: Extent, v: real, e: seq<real>, i: nat)
    requires i + 1 < |e|
  {
    ext(v, e[i + 1]) >= 0.0 && (i == 0 || ext(e[i], v) > 0.0)
  }

  /** Element-wise `&` of two boolean arrays. */
  function And(a: seq<bool>, b: seq<bool>): (r: seq<bool>)
    requires |a| == |b|
    ensures |r| == |a| && forall j :: 0 <= j < |a| ==> (r[j] <==> a[j] && b[j])
  {
    seq(|a|, j requires 0 <= j < |a| => a[j] && b[j])
  }

  /** `mask = vs <= e[i + 1]`, then `mask &= vs > e[i]` unless `i == 0`. */
  function BinMask(vs: seq<real>, e: seq<real>, i: nat): (m: seq<bool>)
    requires i + 1 < |e|
    ensures |m| == |vs| && forall j :: 0 <= j < |vs| ==> (m[j] <==> InBin(vs[j], e, i))
  {
    var upper := seq(|vs|, j requires 0 <= j < |vs| => vs[j] <= e[i + 1]);
    if i == 0 then upper
    else And(upper, seq(|vs|, j requires 0 <= j < |vs| => vs[j] > e[i]))
  }

  /** The longitude mask: `ext(lons, e[i + 1]) >= 0`, then `&= ext(e[i], lons) > 0` unless `i == 0`. */
  function LonMask(ext: Extent, lons: seq<real>, e: seq<real>, i: nat): (m: seq<bool>)
    requires i + 1 < |e|
    ensures |m| == |lons| && forall j :: 0 <= j < |lons| ==> (m[j] <==> InLonBin(ext, lons[j], e, i))
  {
    var upper := seq(|lons|, j requires 0 <= j < |lons| => ext(lons[j], e[i + 1]) >= 0.0);
    if i == 0 then upper
    else And(upper, seq(|lons|, j requires 0 <= j < |lons| => ext(e[i], lons[j]) > 0.0))
  }

  /** `tect_reg_types == t`. */
  function TrtMask(trts: seq<int>, t: int): (m: seq<bool>)
    ensures |m| == |trts|
  {
    seq(|trts|, j requires 0 <= j < |trts| => trts[j] == t)
  }

  /** Boolean indexing `col[mask]`: the entries of `col` where `mask` holds, in order. */
  function Select(col: seq<real>, mask: seq<bool>): (r: seq<real>)
    requires |col| == |mask|
    ensures |r| <= |col|
  {
    if |col| == 0 then []
    else (if mask[0] then [col[0]] else []) + Select(col[1..], mask[1..])
  }

  /** `numpy.prod`; the empty product is 1. */
  function Product(s: seq<real>): real {
    if |s| == 0 then 1.0 else s[0] * Product(s[1..])
  }

  /** Column `ie` of the per-record no-exceedance vectors. */
  function Column(ps: seq<seq<real>>, ie: nat): (c: seq<real>)
    requires forall j :: 0 <= j < |ps| ==> ie < |ps[j]|
    ensures |c| == |ps|
  {
    seq(|ps|, j requires 0 <= j < |ps| => ps[j][ie])
  }

  /** What indexing the matrix and the no-exceedance vectors needs. */
  predicate ArrangeInput(data: Bins, edges: Edges) {
    && data.Parallel()
    && |edges.mag| >= 1 && |edges.dist| >= 1 && |edges.lon| >= 1
    && |edges.lat| >= 1 && |edges.eps| >= 1
    && forall j :: 0 <= j < |data.probsNoExceed| ==> |edges.eps| - 1 <= |data.probsNoExceed[j]|
  }

  /** The indices of one cell of the matrix. */
  predicate IsCell(edges: Edges, numTrt: nat, im: int, id: int, il: int, ila: int, ie: int, it: int) {
    && 0 <= im < |edges.mag| - 1 && 0 <= id < |edges.dist| - 1 && 0 <= il < |edges.lon| - 1
    && 0 <= ila < |edges.lat| - 1 && 0 <= ie < |edges.eps| - 1 && 0 <= it < numTrt
  }

  /** Record `j` falls in the cell: every dimension's bin test and the exact trt test. */
  predicate InCell(data: Bins, edges: Edges, ext: Extent, j: nat,
                   im: nat, id: nat, il: nat, ila: nat, it: int)
    requires data.Parallel() && j < data.Size()
    requires im + 1 < |edges.mag| && id + 1 < |edges.dist| && il + 1 < |edges.lon| && ila + 1 < |edges.lat|
  {
    && InBin(data.mags[j], edges.mag, im)
    && InBin(data.dists[j], edges.dist, id)
    && InLonBin(ext, data.lons[j], edges.lon, il)
    && InBin(data.lats[j], edges.lat, ila)
    && data.trts[j] == it
  }

  /** `mag_idx & dist_idx & lon_idx & lat_idx & trt_idx`. */
  function CellMask(data: Bins, edges: Edges, ext: Extent, im: nat, id: nat, il: nat, ila: nat, it: int)
    : (m: seq<bool>)
    requires data.Parallel()
    requires im + 1 < |edges.mag| && id + 1 < |edges.dist| && il + 1 < |edges.lon| && ila + 1 < |edges.lat|
    ensures |m| == data.Size()
    ensures forall j :: 0 <= j < data.Size() ==> (m[j] <==> InCell(data, edges, ext, j, im, id, il, ila, it))
  {
    And(And(And(And(BinMask(data.mags, edges.mag, im), BinMask(data.dists, edges.dist, id)),
                LonMask(ext, data.lons, edges.lon, il)),
            BinMask(data.lats, edges.lat, ila)),
        TrtMask(data.trts, it))
  }

  /** The no-exceedance probabilities, at epsilon bin `ie`, of the records in a cell. */
  function CellColumn(data: Bins, edges: Edges, ext: Extent, im: nat, id: nat, il: nat, ila: nat, ie: nat, it: int)
    : seq<real>
    requires ArrangeInput(data, edges)
    requires im + 1 < |edges.mag| && id + 1 < |edges.dist| && il + 1 < |edges.lon|
    requires ila + 1 < |edges.lat| && ie + 1 < |edges.eps|
  {
    Select(Column(data.probsNoExceed, ie), CellMask(data, edges, ext, im, id, il, ila, it))
  }

  /** The probability of exceedance of one cell: `1 - prod(probs_no_exceed[prob_idx, i_eps])`. */
  function CellValue(data: Bins, edges: Edges, ext: Extent, im: nat, id: nat, il: nat, ila: nat, ie: nat, it: int)
    : real
    requires ArrangeInput(data, edges)
    requires im + 1 < |edges.mag| && id + 1 < |edges.dist| && il + 1 < |edges.lon|
    requires ila + 1 < |edges.lat| && ie + 1 < |edges.eps|
  {
    1.0 - Product(CellColumn(data, edges, ext, im, id, il, ila, ie, it))
  }

  /** The matrix has shape `(len(mag)-1, len(dist)-1, len(lon)-1, len(lat)-1, len(eps)-1, num_trt)`. */
  predicate HasShape(m: array6<real>, edges: Edges, numTrt: nat) {
    && m.Length0 == |edges.mag| - 1 && m.Length1 == |edges.dist| - 1 && m.Length2 == |edges.lon| - 1
    && m.Length3 == |edges.lat| - 1 && m.Length4 == |edges.eps| - 1 && m.Length5 == numTrt
  }

  /** Cell (a, .., f) comes before cell (im, .., it) in the loop order. */
  predicate Before(a: int, b: int, c: int, d: int, e: int, f: int,
                   im: int, id: int, il: int, ila: int, ie: int, it: int) {
    a < im || (a == im && (b < id || (b == id && (c < il || (c == il &&
      (d < ila || (d == ila && (e < ie || (e == ie && f < it)))))))))
  }

  /** A cell before (im, .., it) is another cell. */
  lemma BeforeIsOther(a: int, b: int, c: int, d: int, e: int, f: int,
                      im: int, id: int, il: int, ila: int, ie: int, it: int)
    requires Before(a, b, c, d, e, f, im, id, il, ila, ie, it)
    ensures a != im || b != id || c != il || d != ila || e != ie || f != it
  {
  }

  /** A cell before (im, .., it + 1) but not before (im, .., it) is that cell. */
  lemma BeforeNext(a: int, b: int, c: int, d: int, e: int, f: int,
                   im: int, id: int, il: int, ila: int, ie: int, it: int)
    requires Before(a, b, c, d, e, f, im, id, il, ila, ie, it + 1)
    requires !Before(a, b, c, d, e, f, im, id, il, ila, ie, it)
    ensures a == im && b == id && c == il && d == ila && e == ie && f == it
  {
  }

  /** A cell not before (im, .., it + 1) is not before (im, .., it) and is not (im, .., it) either. */
  lemma AfterIsOther(a: int, b: int, c: int, d: int, e: int, f: int,
                     im: int, id: int, il: int, ila: int, ie: int, it: int)
    requires !Before(a, b, c, d, e, f, im, id, il, ila, ie, it + 1)
    ensures !Before(a, b, c, d, e, f, im, id, il, ila, ie, it)
    ensures a != im || b != id || c != il || d != ila || e != ie || f != it
  {
  }

  /** Every cell before (im, .., it) holds its value. */
  ghost predicate Filled(m: array6<real>, data: Bins, edges: Edges, ext: Extent, numTrt: nat,
                         im: int, id: int, il: int, ila: int, ie: int, it: int)
    reads m
    requires ArrangeInput(data, edges) && HasShape(m, edges, numTrt)
  {
    forall a, b, c, d, e, f ::
      IsCell(edges, numTrt, a, b, c, d, e, f) && Before(a, b, c, d, e, f, im, id, il, ila, ie, it)
      ==> m[a, b, c, d, e, f] == CellValue(data, edges, ext, a, b, c, d, e, f)
  }

  /** Finishing the trt loop of one epsilon bin fills up to the next epsilon bin. */
  lemma CarryTrt(m: array6<real>, data: Bins, edges: Edges, ext: Extent, numTrt: nat,
                 im: int, id: int, il: int, ila: int, ie: int)
    requires ArrangeInput(data, edges) && HasShape(m, edges, numTrt)
    requires Filled(m, data, edges, ext, numTrt, im, id, il, ila, ie, numTrt)
    ensures Filled(m, data, edges, ext, numTrt, im, id, il, ila, ie + 1, 0)
  {
    forall a, b, c, d, e, f | IsCell(edges, numTrt, a, b, c, d, e, f) && Before(a, b, c, d, e, f, im, id, il, ila, ie + 1, 0)
      ensures m[a, b, c, d, e, f] == CellValue(data, edges, ext, a, b, c, d, e, f)
    {
      assert Before(a, b, c, d, e, f, im, id, il, ila, ie, numTrt);
    }
  }

  /** Finishing the epsilon loop of one latitude bin fills up to the next latitude bin. */
  lemma CarryEps(m: array6<real>, data: Bins, edges: Edges, ext: Extent, numTrt: nat,
                 im: int, id: int, il: int, ila: int)
    requires ArrangeInput(data, edges) && HasShape(m, edges, numTrt)
    requires Filled(m, data, edges, ext, numTrt, im, id, il, ila, |edges.eps| - 1, 0)
    ensures Filled(m, data, edges, ext, numTrt, im, id, il, ila + 1, 0, 0)
  {
    forall a, b, c, d, e, f | IsCell(edges, numTrt, a, b, c, d, e, f) && Before(a, b, c, d, e, f, im, id, il, ila + 1, 0, 0)
      ensures m[a, b, c, d, e, f] == CellValue(data, edges, ext, a, b, c, d, e, f)
    {
      assert Before(a, b, c, d, e, f, im, id, il, ila, |edges.eps| - 1, 0);
    }
  }

  /** Finishing the latitude loop of one longitude bin fills up to the next longitude bin. */
  lemma CarryLat(m: array6<real>, data: Bins, edges: Edges, ext: Extent, numTrt: nat,
                 im: int, id: int, il: int)
    requires ArrangeInput(data, edges) && HasShape(m, edges, numTrt)
    requires Filled(m, data, edges, ext, numTrt, im, id, il, |edges.lat| - 1, 0, 0)
    ensures Filled(m, data, edges, ext, numTrt, im, id, il + 1, 0, 0, 0)
  {
    forall a, b, c, d, e, f | IsCell(edges, numTrt, a, b, c, d, e, f) && Before(a, b, c, d, e, f, im, id, il + 1, 0, 0, 0)
      ensures m[a, b, c, d, e, f] == CellValue(data, edges, ext, a, b, c, d, e, f)
    {
      assert Before(a, b, c, d, e, f, im, id, il, |edges.lat| - 1, 0, 0);
    }
  }

  /** Finishing the longitude loop of one distance bin fills up to the next distance bin. */
  lemma CarryLon(m: array6<real>, data: Bins, edges: Edges, ext: Extent, numTrt: nat, im: int, id: int)
    requires ArrangeInput(data, edges) && HasShape(m, edges, numTrt)
    requires Filled(m, data, edges, ext, numTrt, im, id, |edges.lon| - 1, 0, 0, 0)
    ensures Filled(m, data, edges, ext, numTrt, im, id + 1, 0, 0, 0, 0)
  {
    forall a, b, c, d, e, f | IsCell(edges, numTrt, a, b, c, d, e, f) && Before(a, b, c, d, e, f, im, id + 1, 0, 0, 0, 0)
      ensures m[a, b, c, d, e, f] == CellValue(data, edges, ext, a, b, c, d, e, f)
    {
      assert Before(a, b, c, d, e, f, im, id, |edges.lon| - 1, 0, 0, 0);
    }
  }

  /** Finishing the distance loop of one magnitude bin fills up to the next magnitude bin. */
  lemma CarryDist(m: array6<real>, data: Bins, edges: Edges, ext: Extent, numTrt: nat, im: int)
    requires ArrangeInput(data, edges) && HasShape(m, edges, numTrt)
    requires Filled(m, data, edges, ext, numTrt, im, |edges.dist| - 1, 0, 0, 0, 0)
    ensures Filled(m, data, edges, ext, numTrt, im + 1, 0, 0, 0, 0, 0)
  {
    forall a, b, c, d, e, f | IsCell(edges, numTrt, a, b, c, d, e, f) && Before(a, b, c, d, e, f, im + 1, 0, 0, 0, 0, 0)
      ensures m[a, b, c, d, e, f] == CellValue(data, edges, ext, a, b, c, d, e, f)
    {
      assert Before(a, b, c, d, e, f, im, |edges.dist| - 1, 0, 0, 0, 0);
    }
  }

  /** Once every magnitude bin is done, every cell holds its value. */
  lemma CarryMag(m: array6<real>, data: Bins, edges: Edges, ext: Extent, numTrt: nat)
    requires ArrangeInput(data, edges) && HasShape(m, edges, numTrt)
    requires Filled(m, data, edges, ext, numTrt, |edges.mag| - 1, 0, 0, 0, 0, 0)
    ensures forall a, b, c, d, e, f :: IsCell(edges, numTrt, a, b, c, d, e, f) ==>
      m[a, b, c, d, e, f] == CellValue(data, edges, ext, a, b, c, d, e, f)
  {
    forall a, b, c, d, e, f | IsCell(edges, numTrt, a, b, c, d, e, f)
      ensures m[a, b, c, d, e, f] == CellValue(data, edges, ext, a, b, c, d, e, f)
    {
      assert Before(a, b, c, d, e, f, |edges.mag| - 1, 0, 0, 0, 0, 0);
    }
  }

  /**
   * The innermost loop of `_arrange_data_in_bins`: for one epsilon bin of
   * one spatial cell, whose records `spatial` selects, set the cell of every
   * tectonic region type.
   */
  method FillTrts(m: array6<real>, data: Bins, edges: Edges, numTrt: nat, ext: Extent,
                  iMag: nat, iDist: nat, iLon: nat, iLat: nat, iEps: nat, spatial: seq<bool>)
    requires ArrangeInput(data, edges) && HasShape(m, edges, numTrt)
    requires iMag + 1 < |edges.mag| && iDist + 1 < |edges.dist| && iLon + 1 < |edges.lon|
    requires iLat + 1 < |edges.lat| && iEps + 1 < |edges.eps|
    requires spatial == And(And(And(BinMask(data.mags, edges.mag, iMag), BinMask(data.dists, edges.dist, iDist)),
                                LonMask(ext, data.lons, edges.lon, iLon)),
                            BinMask(data.lats, edges.lat, iLat))
    requires Filled(m, data, edges, ext, numTrt, iMag, iDist, iLon, iLat, iEps, 0)
    modifies m
    ensures Filled(m, data, edges, ext, numTrt, iMag, iDist, iLon, iLat, iEps + 1, 0)
    ensures forall a, b, c, d, e, f ::
      (IsCell(edges, numTrt, a, b, c, d, e, f) && !Before(a, b, c, d, e, f, iMag, iDist, iLon, iLat, iEps + 1, 0))
      ==> m[a, b, c, d, e, f] == old(m[a, b, c, d, e, f])
  {
    for iTrt := 0 to numTrt
      invariant Filled(m, data, edges, ext, numTrt, iMag, iDist, iLon, iLat, iEps, iTrt)
      invariant forall a, b, c, d, e, f ::
        (IsCell(edges, numTrt, a, b, c, d, e, f) && !Before(a, b, c, d, e, f, iMag, iDist, iLon, iLat, iEps, iTrt))
        ==> m[a, b, c, d, e, f] == old(m[a, b, c, d, e, f])
    {
      var trtIdx := TrtMask(data.trts, iTrt);
      var probIdx := And(spatial, trtIdx);
      var poe := 1.0 - Product(Select(Column(data.probsNoExceed, iEps), probIdx));
      assert poe == CellValue(data, edges, ext, iMag, iDist, iLon, iLat, iEps, iTrt);
      label write:
      m[iMag, iDist, iLon, iLat, iEps, iTrt] := poe;
      forall a, b, c, d, e, f | IsCell(edges, numTrt, a, b, c, d, e, f)
          && Before(a, b, c, d, e, f, iMag, iDist, iLon, iLat, iEps, iTrt + 1)
        ensures m[a, b, c, d, e, f] == CellValue(data, edges, ext, a, b, c, d, e, f)
      {
        if Before(a, b, c, d, e, f, iMag, iDist, iLon, iLat, iEps, iTrt) {
          BeforeIsOther(a, b, c, d, e, f, iMag, iDist, iLon, iLat, iEps, iTrt);
          assert old@write(m[a, b, c, d, e, f]) == CellValue(data, edges, ext, a, b, c, d, e, f);
        } else {
          BeforeNext(a, b, c, d, e, f, iMag, iDist, iLon, iLat, iEps, iTrt);
        }
      }
      forall a, b, c, d, e, f | IsCell(edges, numTrt, a, b, c, d, e, f)
          && !Before(a, b, c, d, e, f, iMag, iDist, iLon, iLat, iEps, iTrt + 1)
        ensures m[a, b, c, d, e, f] == old(m[a, b, c, d, e, f])
      {
        AfterIsOther(a, b, c, d, e, f, iMag, iDist, iLon, iLat, iEps, iTrt);
        assert old@write(m[a, b, c, d, e, f]) == old(m[a, b, c, d, e, f]);
      }
    }
    CarryTrt(m, data, edges, ext, numTrt, iMag, iDist, iLon, iLat, iEps);
  }

  /**
   * `_arrange_data_in_bins`: six nested loops over mag, dist, lon, lat, eps
   * and trt, each refining the record mask, set every cell of a zero matrix.
   */
  method ArrangeDataInBins(data: Bins, edges: Edges, numTrt: nat, ext: Extent) returns (m: array6<real>)
    requires ArrangeInput(data, edges)
    ensures fresh(m) && HasShape(m, edges, numTrt)
    ensures forall a, b, c, d, e, f :: IsCell(edges, numTrt, a, b, c, d, e, f) ==>
      m[a, b, c, d, e, f] == CellValue(data, edges, ext, a, b, c, d, e, f)
  {
    m := new real[|edges.mag| - 1, |edges.dist| - 1, |edges.lon| - 1,
                  |edges.lat| - 1, |edges.eps| - 1, numTrt]((a, b, c, d, e, f) => 0.0);
    for iMag := 0 to |edges.mag| - 1
      invariant Filled(m, data, edges, ext, numTrt, iMag, 0, 0, 0, 0, 0)
    {
      var magIdx := BinMask(data.mags, edges.mag, iMag);
      for iDist := 0 to |edges.dist| - 1
        invariant Filled(m, data, edges, ext, numTrt, iMag, iDist, 0, 0, 0, 0)
      {
        var distIdx := BinMask(data.dists, edges.dist, iDist);
        for iLon := 0 to |edges.lon| - 1
          invariant Filled(m, data, edges, ext, numTrt, iMag, iDist, iLon, 0, 0, 0)
        {
          var lonIdx := LonMask(ext, data.lons, edges.lon, iLon);
          for iLat := 0 to |edges.lat| - 1
            invariant Filled(m, data, edges, ext, numTrt, iMag, iDist, iLon, iLat, 0, 0)
          {
            var latIdx := BinMask(data.lats, edges.lat, iLat);
            for iEps := 0 to |edges.eps| - 1
              invariant Filled(m, data, edges, ext, numTrt, iMag, iDist, iLon, iLat, iEps, 0)
            {
              FillTrts(m, data, edges, numTrt, ext, iMag, iDist, iLon, iLat, iEps,
                       And(And(And(magIdx, distIdx), lonIdx), latIdx));
            }
            CarryEps(m, data, edges, ext, numTrt, iMag, iDist, iLon, iLat);
          }
          CarryLat(m, data, edges, ext, numTrt, iMag, iDist, iLon);
        }
        CarryLon(m, data, edges, ext, numTrt, iMag, iDist);
      }
      CarryDist(m, data, edges, ext, numTrt, iMag);
    }
    CarryMag(m, data, edges, ext, numTrt);
  }

  // ---------------------------------------------------------------------
  // Bin membership

  /** The bin holding `v`: the last bin when `v` is above its lower edge, else an earlier one. */
  function BinOf(v: real, e: seq<real>): (i: nat)
    requires |e| >= 2 && v <= e[|e| - 1]
    ensures i + 1 < |e| && InBin(v, e, i)
  {
    if |e| == 2 || e[|e| - 2] < v then |e| - 2
    else BinOf(v, e[..|e| - 1])
  }

  /**
   * With non-decreasing edges, `v` lies in some bin exactly when it is at most
   * the last edge (bin 0 has no lower test), and in at most one bin.
   */
  lemma ExactlyOneBin(v: real, e: seq<real>)
    requires |e| >= 2 && Sorted(e)
    ensures (exists i :: 0 <= i < |e| - 1 && InBin(v, e, i)) <==> v <= e[|e| - 1]
    ensures forall i, k :: 0 <= i < |e| - 1 && 0 <= k < |e| - 1 && InBin(v, e, i) && InBin(v, e, k) ==> i == k
  {
    if v <= e[|e| - 1] {
      var i := BinOf(v, e);
      assert InBin(v, e, i);
    }
    forall i | 0 <= i < |e| - 1 && InBin(v, e, i) ensures v <= e[|e| - 1] {
      assert e[i + 1] <= e[|e| - 1];
    }
  }

  lemma StrictlyIncreasingIsSorted(e: seq<real>)
    requires StrictlyIncreasing(e)
    ensures Sorted(e)
  {
  }

  /** Edges that cover a list of values put each value in exactly one bin. */
  lemma CoveredValueInOneBin(e: seq<real>, vs: seq<real>, j: nat)
    requires Covers(e, vs) && |e| >= 2 && j < |vs|
    ensures exists i :: 0 <= i < |e| - 1 && InBin(vs[j], e, i)
    ensures forall i, k :: 0 <= i < |e| - 1 && 0 <= k < |e| - 1 && InBin(vs[j], e, i) && InBin(vs[j], e, k) ==> i == k
  {
    StrictlyIncreasingIsSorted(e);
    ExactlyOneBin(vs[j], e);
  }

  // ---------------------------------------------------------------------
  // Products of probabilities

  predicate Probabilities(s: seq<real>) {
    forall i :: 0 <= i < |s| ==> 0.0 <= s[i] <= 1.0
  }

  lemma MulInUnit(a: real, b: real)
    requires 0.0 <= a <= 1.0 && 0.0 <= b <= 1.0
    ensures 0.0 <= a * b <= 1.0
  {
    if b > 0.0 {
      MulMonotone(b, 0.0, a);
      MulMonotone(b, a, 1.0);
      assert b * a <= b * 1.0;
      assert b * 1.0 == b;
      assert a * b == b * a;
      assert a * b <= b;
    }
  }

  lemma {:induction false} ProductInUnit(s: seq<real>)
    requires Probabilities(s)
    ensures 0.0 <= Product(s) <= 1.0
  {
    if |s| > 0 {
      ProductInUnit(s[1..]);
      MulInUnit(s[0], Product(s[1..]));
    }
  }

  lemma {:induction false} ProductConcat(s: seq<real>, t: seq<real>)
    ensures Product(s + t) == Product(s) * Product(t)
  {
    if |s| > 0 {
      assert (s + t)[1..] == s[1..] + t;
      ProductConcat(s[1..], t);
    } else {
      assert s + t == t;
    }
  }

  lemma {:induction false} SelectProbabilities(col: seq<real>, mask: seq<bool>)
    requires |col| == |mask| && Probabilities(col)
    ensures Probabilities(Select(col, mask))
  {
    if |col| > 0 {
      SelectProbabilities(col[1..], mask[1..]);
    }
  }

  lemma {:induction false} SelectNothing(col: seq<real>, mask: seq<bool>)
    requires |col| == |mask| && forall j :: 0 <= j < |mask| ==> !mask[j]
    ensures Select(col, mask) == []
  {
    if |col| > 0 {
      SelectNothing(col[1..], mask[1..]);
    }
  }

  lemma {:induction false} SelectConcat(a: seq<real>, ma: seq<bool>, b: seq<real>, mb: seq<bool>)
    requires |a| == |ma| && |b| == |mb|
    ensures Select(a + b, ma + mb) == Select(a, ma) + Select(b, mb)
  {
    if |a| == 0 {
      assert a + b == b && ma + mb == mb;
    } else {
      var head: seq<real> := if ma[0] then [a[0]] else [];
      assert (a + b)[0] == a[0] && (ma + mb)[0] == ma[0];
      assert (a + b)[1..] == a[1..] + b && (ma + mb)[1..] == ma[1..] + mb;
      assert Select(a + b, ma + mb) == head + Select(a[1..] + b, ma[1..] + mb);
      SelectConcat(a[1..], ma[1..], b, mb);
      assert Select(a, ma) == head + Select(a[1..], ma[1..]);
    }
  }

  // ---------------------------------------------------------------------
  // Cell values

  /** Every cell is a probability when every no-exceedance probability is. */
  lemma CellValueInUnit(data: Bins, edges: Edges, ext: Extent, im: nat, id: nat, il: nat, ila: nat, ie: nat, it: int)
    requires ArrangeInput(data, edges)
    requires im + 1 < |edges.mag| && id + 1 < |edges.dist| && il + 1 < |edges.lon|
    requires ila + 1 < |edges.lat| && ie + 1 < |edges.eps|
    requires forall j :: 0 <= j < data.Size() ==> Probabilities(data.probsNoExceed[j])
    ensures 0.0 <= CellValue(data, edges, ext, im, id, il, ila, ie, it) <= 1.0
  {
    var col := Column(data.probsNoExceed, ie);
    assert Probabilities(col) by {
      forall j | 0 <= j < |col| ensures 0.0 <= col[j] <= 1.0 {
        assert col[j] == data.probsNoExceed[j][ie];
      }
    }
    SelectProbabilities(col, CellMask(data, edges, ext, im, id, il, ila, it));
    ProductInUnit(CellColumn(data, edges, ext, im, id, il, ila, ie, it));
  }

  /** A cell that no record falls in is exactly 0. */
  lemma EmptyCellIsZero(data: Bins, edges: Edges, ext: Extent, im: nat, id: nat, il: nat, ila: nat, ie: nat, it: int)
    requires ArrangeInput(data, edges)
    requires im + 1 < |edges.mag| && id + 1 < |edges.dist| && il + 1 < |edges.lon|
    requires ila + 1 < |edges.lat| && ie + 1 < |edges.eps|
    requires forall j :: 0 <= j < data.Size() ==> !InCell(data, edges, ext, j, im, id, il, ila, it)
    ensures CellValue(data, edges, ext, im, id, il, ila, ie, it) == 0.0
  {
    SelectNothing(Column(data.probsNoExceed, ie), CellMask(data, edges, ext, im, id, il, ila, it));
  }

  /** Two records in one cell with no-exceedance 0.8 and 0.5 give `1 - 0.8 * 0.5 = 0.6`. */
  lemma TwoRecordCell(data: Bins, edges: Edges, ext: Extent, im: nat, id: nat, il: nat, ila: nat, it: int)
    requires ArrangeInput(data, edges) && data.Size() == 2 && |edges.eps| == 2
    requires im + 1 < |edges.mag| && id + 1 < |edges.dist| && il + 1 < |edges.lon| && ila + 1 < |edges.lat|
    requires data.probsNoExceed == [[0.8], [0.5]]
    requires InCell(data, edges, ext, 0, im, id, il, ila, it) && InCell(data, edges, ext, 1, im, id, il, ila, it)
    ensures CellValue(data, edges, ext, im, id, il, ila, 0, it) == 0.6
  {
    var col := Column(data.probsNoExceed, 0);
    var mask := CellMask(data, edges, ext, im, id, il, ila, it);
    assert col == [0.8, 0.5] && mask == [true, true];
    assert Select(col, mask) == [0.8] + Select([0.5], [true]);
    assert Select([0.8, 0.5][1..], [true, true][1..]) == Select([0.5], [true]);
    assert Select([0.5], [true]) == [0.5] + Select([0.5][1..], [true][1..]);
    assert Select([0.5][1..], [true][1..]) == [];
    assert Select(col, mask) == [0.8, 0.5];
    assert [0.8, 0.5][1..] == [0.5] && [0.5][1..] == [];
    assert Product([0.5]) == 0.5 * Product([]);
    assert Product([0.8, 0.5]) == 0.8 * Product([0.5]);
  }

  lemma ColumnConcat(p: seq<seq<real>>, q: seq<seq<real>>, ie: nat)
    requires forall j :: 0 <= j < |p| ==> ie < |p[j]|
    requires forall j :: 0 <= j < |q| ==> ie < |q[j]|
    ensures Column(p + q, ie) == Column(p, ie) + Column(q, ie)
  {
    var pq := p + q;
    assert forall j :: 0 <= j < |pq| ==> ie < |pq[j]| by {
      forall j | 0 <= j < |pq| ensures ie < |pq[j]| {
        if j < |p| { assert pq[j] == p[j]; } else { assert pq[j] == q[j - |p|]; }
      }
    }
    var c := Column(pq, ie);
    forall j | 0 <= j < |c| ensures c[j] == (Column(p, ie) + Column(q, ie))[j] {
      if j < |p| { assert pq[j] == p[j]; } else { assert pq[j] == q[j - |p|]; }
    }
  }

  lemma CellMaskConcat(x: Bins, y: Bins, edges: Edges, ext: Extent, im: nat, id: nat, il: nat, ila: nat, it: int)
    requires x.Parallel() && y.Parallel()
    requires im + 1 < |edges.mag| && id + 1 < |edges.dist| && il + 1 < |edges.lon| && ila + 1 < |edges.lat|
    ensures CellMask(Extend(x, y), edges, ext, im, id, il, ila, it)
         == CellMask(x, edges, ext, im, id, il, ila, it) + CellMask(y, edges, ext, im, id, il, ila, it)
  {
    var xy := Extend(x, y);
    var m := CellMask(xy, edges, ext, im, id, il, ila, it);
    var mx, my := CellMask(x, edges, ext, im, id, il, ila, it), CellMask(y, edges, ext, im, id, il, ila, it);
    forall j | 0 <= j < |m| ensures m[j] == (mx + my)[j] {
      if j < x.Size() {
        assert InCell(xy, edges, ext, j, im, id, il, ila, it) == InCell(x, edges, ext, j, im, id, il, ila, it);
      } else {
        var k := j - x.Size();
        assert xy.mags[j] == y.mags[k] && xy.dists[j] == y.dists[k] && xy.lons[j] == y.lons[k];
        assert xy.lats[j] == y.lats[k] && xy.trts[j] == y.trts[k];
        assert InCell(xy, edges, ext, j, im, id, il, ila, it) == InCell(y, edges, ext, k, im, id, il, ila, it);
      }
    }
  }

  lemma ArrangeInputExtend(x: Bins, y: Bins, edges: Edges)
    requires ArrangeInput(x, edges) && ArrangeInput(y, edges)
    ensures ArrangeInput(Extend(x, y), edges)
  {
    var xy := Extend(x, y);
    forall j | 0 <= j < |xy.probsNoExceed| ensures |edges.eps| - 1 <= |xy.probsNoExceed[j]| {
      if j < x.Size() { assert xy.probsNoExceed[j] == x.probsNoExceed[j]; }
      else { assert xy.probsNoExceed[j] == y.probsNoExceed[j - x.Size()]; }
    }
  }

  /** The records of a cell in merged data are those of the first part followed by those of the second. */
  lemma CellColumnConcat(x: Bins, y: Bins, edges: Edges, ext: Extent,
                         im: nat, id: nat, il: nat, ila: nat, ie: nat, it: int)
    requires ArrangeInput(x, edges) && ArrangeInput(y, edges) && ArrangeInput(Extend(x, y), edges)
    requires im + 1 < |edges.mag| && id + 1 < |edges.dist| && il + 1 < |edges.lon|
    requires ila + 1 < |edges.lat| && ie + 1 < |edges.eps|
    ensures CellColumn(Extend(x, y), edges, ext, im, id, il, ila, ie, it)
         == CellColumn(x, edges, ext, im, id, il, ila, ie, it) + CellColumn(y, edges, ext, im, id, il, ila, ie, it)
  {
    ColumnConcat(x.probsNoExceed, y.probsNoExceed, ie);
    CellMaskConcat(x, y, edges, ext, im, id, il, ila, it);
    SelectConcat(Column(x.probsNoExceed, ie), CellMask(x, edges, ext, im, id, il, ila, it),
                 Column(y.probsNoExceed, ie), CellMask(y, edges, ext, im, id, il, ila, it));
  }

  /**
   * Merging raw bin data combines the cell values as independent
   * non-exceedances: `1 - v(x ++ y) == (1 - v(x)) * (1 - v(y))`.
   */
  lemma CellValueOfExtend(x: Bins, y: Bins, edges: Edges, ext: Extent,
                          im: nat, id: nat, il: nat, ila: nat, ie: nat, it: int)
    requires ArrangeInput(x, edges) && ArrangeInput(y, edges)
    requires im + 1 < |edges.mag| && id + 1 < |edges.dist| && il + 1 < |edges.lon|
    requires ila + 1 < |edges.lat| && ie + 1 < |edges.eps|
    ensures ArrangeInput(Extend(x, y), edges)
    ensures 1.0 - CellValue(Extend(x, y), edges, ext, im, id, il, ila, ie, it)
         == (1.0 - CellValue(x, edges, ext, im, id, il, ila, ie, it))
          * (1.0 - CellValue(y, edges, ext, im, id, il, ila, ie, it))
  {
    ArrangeInputExtend(x, y, edges);
    var cx := CellColumn(x, edges, ext, im, id, il, ila, ie, it);
    var cy := CellColumn(y, edges, ext, im, id, il, ila, ie, it);
    var cxy := CellColumn(Extend(x, y), edges, ext, im, id, il, ila, ie, it);
    assert cxy == cx + cy by {
      CellColumnConcat(x, y, edges, ext, im, id, il, ila, ie, it);
    }
    assert Product(cxy) == Product(cx) * Product(cy) by {
      ProductConcat(cx, cy);
    }
  }

  /** The order in which raw bin data is merged does not change any cell. */
  lemma CellValueMergeOrder(x: Bins, y: Bins, edges: Edges, ext: Extent,
                            im: nat, id: nat, il: nat, ila: nat, ie: nat, it: int)
    requires ArrangeInput(x, edges) && ArrangeInput(y, edges)
    requires im + 1 < |edges.mag| && id + 1 < |edges.dist| && il + 1 < |edges.lon|
    requires ila + 1 < |edges.lat| && ie + 1 < |edges.eps|
    ensures ArrangeInput(Extend(x, y), edges) && ArrangeInput(Extend(y, x), edges)
    ensures CellValue(Extend(x, y), edges, ext, im, id, il, ila, ie, it)
         == CellValue(Extend(y, x), edges, ext, im, id, il, ila, ie, it)
  {
    CellValueOfExtend(x, y, edges, ext, im, id, il, ila, ie, it);
    CellValueOfExtend(y, x, edges, ext, im, id, il, ila, ie, it);
  }
}
