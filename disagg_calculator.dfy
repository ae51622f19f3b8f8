/**
 * The disaggregation calculator: the tectonic region type numbering and its
 * inverse, the merge of task results into `self.result` (`collect_result`)
 * and the per-site collection phase of `full_disaggregation`.
 */
module DisaggCalculator {
  import opened Wrappers
  import opened DisaggTypes
  import opened BinEdges
  import opened Arrange
  import opened Collect
  import opened Progress

  // ---------------------------------------------------------------------------
  // trt_num and trt_names

  /** `p` is the last position of `t` in `types`. */
  predicate LastPosition(types: seq<string>, t: string, p: int) {
    0 <= p < |types| && types[p] == t && forall i :: p < i < |types| ==> types[i] != t
  }

  /**
   * `trt_num`: each tectonic region type mapped to its position in the list;
   * a type listed twice keeps its last position.
   */
  function TrtNum(types: seq<string>): (m: map<string, int>)
    ensures forall t :: t in m <==> t in types
    ensures forall t :: t in m ==> LastPosition(types, t, m[t])
    decreases |types|
  {
    if |types| == 0 then map[]
    else TrtNum(types[..|types| - 1])[types[|types| - 1] := |types| - 1]
  }

  /** The types among the first `n` positions whose number is their position, in position order. */
  function NamesUpTo(trtNum: map<string, int>, types: seq<string>, n: nat): seq<string>
    requires n <= |types|
  {
    if n == 0 then []
    else if types[n - 1] in trtNum && trtNum[types[n - 1]] == n - 1 then NamesUpTo(trtNum, types, n - 1) + [types[n - 1]]
    else NamesUpTo(trtNum, types, n - 1)
  }

  /**
   * `trt_names`: the numbered types ordered by their number. Every number is
   * a position in `types`, so walking the positions in order and keeping the
   * type numbered by each yields that order.
   */
  function TrtNames(trtNum: map<string, int>, types: seq<string>): seq<string> {
    NamesUpTo(trtNum, types, |types|)
  }

  /** `names` lists the keys of `trtNum`, each once, by strictly increasing number. */
  predicate SortedByNumber(trtNum: map<string, int>, names: seq<string>) {
    && (forall i :: 0 <= i < |names| ==> names[i] in trtNum)
    && (forall t :: t in trtNum ==> t in names)
    && (forall i, j :: 0 <= i < j < |names| ==> trtNum[names[i]] < trtNum[names[j]])
  }

  /** `m` numbers each of its keys by a position holding that key. */
  predicate NumbersPositions(m: map<string, int>, types: seq<string>) {
    forall t :: t in m ==> 0 <= m[t] < |types| && types[m[t]] == t
  }

  lemma {:induction false} NamesUpToShape(m: map<string, int>, types: seq<string>, n: nat)
    requires n <= |types| && NumbersPositions(m, types)
    ensures forall i :: 0 <= i < |NamesUpTo(m, types, n)| ==>
      NamesUpTo(m, types, n)[i] in m && m[NamesUpTo(m, types, n)[i]] < n
    ensures forall i, j :: 0 <= i < j < |NamesUpTo(m, types, n)| ==>
      m[NamesUpTo(m, types, n)[i]] < m[NamesUpTo(m, types, n)[j]]
    ensures forall t :: t in m && m[t] < n ==> t in NamesUpTo(m, types, n)
  {
    if n > 0 {
      NamesUpToShape(m, types, n - 1);
      var r0, r := NamesUpTo(m, types, n - 1), NamesUpTo(m, types, n);
      var t := types[n - 1];
      if t in m && m[t] == n - 1 {
        assert r == r0 + [t];
        forall i, j | 0 <= i < j < |r|
          ensures m[r[i]] < m[r[j]]
        {
          assert r[i] == r0[i];
        }
        forall t' | t' in m && m[t'] < n
          ensures t' in r
        {
          assert types[m[t']] == t';
        }
      } else {
        assert r == r0;
        forall t' | t' in m && m[t'] < n
          ensures t' in r
        {
          assert types[m[t']] == t';
        }
      }
    }
  }

  /** The names are the numbered types sorted by number, each exactly once. */
  lemma TrtNamesSorted(types: seq<string>)
    ensures SortedByNumber(TrtNum(types), TrtNames(TrtNum(types), types))
  {
    var m := TrtNum(types);
    assert NumbersPositions(m, types);
    NamesUpToShape(m, types, |types|);
  }

  /** With no type listed twice, each type is numbered by its own position. */
  lemma DistinctNumbering(types: seq<string>)
    requires forall a, b :: 0 <= a < b < |types| ==> types[a] != types[b]
    ensures forall i :: 0 <= i < |types| ==> types[i] in TrtNum(types) && TrtNum(types)[types[i]] == i
  {
    var m := TrtNum(types);
    forall i | 0 <= i < |types|
      ensures types[i] in m && m[types[i]] == i
    {
      assert LastPosition(types, types[i], m[types[i]]);
    }
  }

  lemma {:induction false} AllNamesUpTo(m: map<string, int>, types: seq<string>, n: nat)
    requires forall i :: 0 <= i < |types| ==> types[i] in m && m[types[i]] == i
    requires n <= |types|
    ensures NamesUpTo(m, types, n) == types[..n]
  {
    if n > 0 {
      AllNamesUpTo(m, types, n - 1);
      assert types[..n] == types[..n - 1] + [types[n - 1]];
    }
  }

  /**
   * With no type listed twice the names are the types themselves, so the
   * name at a type's number is that type.
   */
  lemma TrtNamesInvert(types: seq<string>)
    requires forall a, b :: 0 <= a < b < |types| ==> types[a] != types[b]
    ensures TrtNames(TrtNum(types), types) == types
    ensures forall t :: t in TrtNum(types) ==> TrtNames(TrtNum(types), types)[TrtNum(types)[t]] == t
  {
    var m := TrtNum(types);
    DistinctNumbering(types);
    AllNamesUpTo(m, types, |types|);
    assert types[..|types|] == types;
    forall t | t in m
      ensures types[m[t]] == t
    {
      assert LastPosition(types, t, m[t]);
    }
  }

  // ---------------------------------------------------------------------------
  // Merging task results

  /** The lists accumulated under `k`: six empty lists for a key not seen yet. */
  function Prior(acc: map<Key, Bins>, k: Key): Bins {
    if k in acc then acc[k] else EmptyBins()
  }

  /**
   * The accumulated result after one task's result is folded in: each of its
   * keys gets its six lists appended to the accumulated ones, every other
   * key keeps its lists.
   */
  function Merged(acc: map<Key, Bins>, incoming: map<Key, Bins>): (m: map<Key, Bins>)
    ensures forall k :: k in m <==> k in acc || k in incoming
    ensures forall k :: k in incoming ==> m[k] == Extend(Prior(acc, k), incoming[k])
    ensures forall k :: k in acc && k !in incoming ==> m[k] == acc[k]
  {
    map k | k in acc.Keys + incoming.Keys :: if k in incoming then Extend(Prior(acc, k), incoming[k]) else acc[k]
  }

  /** Under every key, the merged lists are the accumulated ones followed by the incoming ones. */
  lemma PriorMerged(acc: map<Key, Bins>, incoming: map<Key, Bins>, k: Key)
    ensures Prior(Merged(acc, incoming), k) == Extend(Prior(acc, k), Prior(incoming, k))
  {
    ExtendMonoid(Prior(acc, k), Prior(acc, k), Prior(acc, k));
  }

  /** Merging nothing changes nothing, and merging into nothing gives the incoming result. */
  lemma MergedIdentity(a: map<Key, Bins>)
    ensures Merged(a, map[]) == a
    ensures Merged(map[], a) == a
  {
    forall k | k in a
      ensures Merged(map[], a)[k] == a[k]
    {
      ExtendMonoid(a[k], a[k], a[k]);
    }
  }

  /** Merging two results one after the other is merging their merge. */
  lemma MergedAssociative(a: map<Key, Bins>, x: map<Key, Bins>, y: map<Key, Bins>)
    ensures Merged(Merged(a, x), y) == Merged(a, Merged(x, y))
  {
    var l, r := Merged(Merged(a, x), y), Merged(a, Merged(x, y));
    forall k | k in l
      ensures k in r && l[k] == r[k]
    {
      PriorMerged(Merged(a, x), y, k);
      PriorMerged(a, x, k);
      PriorMerged(a, Merged(x, y), k);
      PriorMerged(x, y, k);
      ExtendMonoid(Prior(a, k), Prior(x, k), Prior(y, k));
      assert l[k] == Prior(l, k) && r[k] == Prior(r, k);
    }
  }

  /** Merging keeps every list parallel and adds up the record counts. */
  lemma MergedSizes(a: map<Key, Bins>, x: map<Key, Bins>, k: Key)
    requires forall k' :: k' in a ==> a[k'].Parallel()
    requires forall k' :: k' in x ==> x[k'].Parallel()
    requires k in a || k in x
    ensures Merged(a, x)[k].Parallel()
    ensures Merged(a, x)[k].Size() == Prior(a, k).Size() + Prior(x, k).Size()
  {
  }

  /** Two results merged in either order give the same cell. */
  lemma ThreeWayCell(p: Bins, px: Bins, py: Bins, edges: Edges, ext: Extent,
                     im: nat, id: nat, il: nat, ila: nat, ie: nat, it: int)
    requires ArrangeInput(p, edges) && ArrangeInput(px, edges) && ArrangeInput(py, edges)
    requires im + 1 < |edges.mag| && id + 1 < |edges.dist| && il + 1 < |edges.lon|
    requires ila + 1 < |edges.lat| && ie + 1 < |edges.eps|
    ensures ArrangeInput(Extend(Extend(p, px), py), edges) && ArrangeInput(Extend(Extend(p, py), px), edges)
    ensures CellValue(Extend(Extend(p, px), py), edges, ext, im, id, il, ila, ie, it)
         == CellValue(Extend(Extend(p, py), px), edges, ext, im, id, il, ila, ie, it)
  {
    var pxy, pyx := Extend(p, px), Extend(p, py);
    ArrangeInputExtend(p, px, edges);
    ArrangeInputExtend(p, py, edges);
    ArrangeInputExtend(pxy, py, edges);
    ArrangeInputExtend(pyx, px, edges);
    var cp := CellColumn(p, edges, ext, im, id, il, ila, ie, it);
    var cx := CellColumn(px, edges, ext, im, id, il, ila, ie, it);
    var cy := CellColumn(py, edges, ext, im, id, il, ila, ie, it);
    assert CellColumn(Extend(pxy, py), edges, ext, im, id, il, ila, ie, it) == (cp + cx) + cy by {
      CellColumnConcat(p, px, edges, ext, im, id, il, ila, ie, it);
      CellColumnConcat(pxy, py, edges, ext, im, id, il, ila, ie, it);
    }
    assert CellColumn(Extend(pyx, px), edges, ext, im, id, il, ila, ie, it) == (cp + cy) + cx by {
      CellColumnConcat(p, py, edges, ext, im, id, il, ila, ie, it);
      CellColumnConcat(pyx, px, edges, ext, im, id, il, ila, ie, it);
    }
    assert Product((cp + cx) + cy) == Product((cp + cy) + cx) by {
      ProductSwap(cp, cx, cy);
    }
  }

  lemma ProductCommute(t: seq<real>, u: seq<real>)
    ensures Product(t + u) == Product(u + t)
  {
    ProductConcat(t, u);
    ProductConcat(u, t);
  }

  lemma {:induction false} ProductSwap(s: seq<real>, t: seq<real>, u: seq<real>)
    ensures Product((s + t) + u) == Product((s + u) + t)
    decreases |s|
  {
    if |s| == 0 {
      assert (s + t) + u == t + u && (s + u) + t == u + t;
      ProductCommute(t, u);
    } else {
      assert ((s + t) + u)[1..] == (s[1..] + t) + u;
      assert ((s + u) + t)[1..] == (s[1..] + u) + t;
      ProductSwap(s[1..], t, u);
    }
  }

  /**
   * The tasks' results arrive in no particular order; whichever of two
   * arrives first, every cell of the matrix built from the merged lists is
   * the same.
   */
  lemma MergeOrderIrrelevant(a: map<Key, Bins>, x: map<Key, Bins>, y: map<Key, Bins>, k: Key,
                             edges: Edges, ext: Extent, im: nat, id: nat, il: nat, ila: nat, ie: nat, it: int)
    requires k in a || k in x || k in y
    requires ArrangeInput(Prior(a, k), edges) && ArrangeInput(Prior(x, k), edges) && ArrangeInput(Prior(y, k), edges)
    requires im + 1 < |edges.mag| && id + 1 < |edges.dist| && il + 1 < |edges.lon|
    requires ila + 1 < |edges.lat| && ie + 1 < |edges.eps|
    ensures k in Merged(Merged(a, x), y) && k in Merged(Merged(a, y), x)
    ensures ArrangeInput(Merged(Merged(a, x), y)[k], edges) && ArrangeInput(Merged(Merged(a, y), x)[k], edges)
    ensures CellValue(Merged(Merged(a, x), y)[k], edges, ext, im, id, il, ila, ie, it)
         == CellValue(Merged(Merged(a, y), x)[k], edges, ext, im, id, il, ila, ie, it)
  {
    PriorMerged(Merged(a, x), y, k);
    PriorMerged(a, x, k);
    PriorMerged(Merged(a, y), x, k);
    PriorMerged(a, y, k);
    assert Merged(Merged(a, x), y)[k] == Prior(Merged(Merged(a, x), y), k);
    assert Merged(Merged(a, y), x)[k] == Prior(Merged(Merged(a, y), x), k);
    ThreeWayCell(Prior(a, k), Prior(x, k), Prior(y, k), edges, ext, im, id, il, ila, ie, it);
  }

  /** Appending two blocks in either order gives lists holding the same values. */
  lemma ExtendSwapValues(p: Bins, px: Bins, py: Bins)
    ensures var l, r := Extend(Extend(p, px), py), Extend(Extend(p, py), px);
      && multiset(l.mags) == multiset(r.mags) && multiset(l.dists) == multiset(r.dists)
      && multiset(l.lons) == multiset(r.lons) && multiset(l.lats) == multiset(r.lats)
  {
  }

  /**
   * Whichever of two results arrives first, the merged lists under `k` hold
   * the same values, so `_define_bins` gives them the same edges.
   */
  lemma MergeOrderSameEdges(a: map<Key, Bins>, x: map<Key, Bins>, y: map<Key, Bins>, k: Key,
                            magWidth: real, distWidth: real, coordWidth: real,
                            lonEdgesOf: (seq<real>, seq<real>, real) -> seq<real>,
                            truncation: real, nEpsilons: nat)
    requires k in a || k in x || k in y
    requires magWidth > 0.0 && distWidth > 0.0 && coordWidth > 0.0
    requires PointOrderFree(lonEdgesOf)
    ensures k in Merged(Merged(a, x), y) && k in Merged(Merged(a, y), x)
    ensures DefineBins(Merged(Merged(a, x), y)[k], magWidth, distWidth, coordWidth, lonEdgesOf, truncation, nEpsilons)
         == DefineBins(Merged(Merged(a, y), x)[k], magWidth, distWidth, coordWidth, lonEdgesOf, truncation, nEpsilons)
  {
    var l, r := Merged(Merged(a, x), y)[k], Merged(Merged(a, y), x)[k];
    var p, px, py := Prior(a, k), Prior(x, k), Prior(y, k);
    PriorMerged(Merged(a, x), y, k);
    PriorMerged(a, x, k);
    PriorMerged(Merged(a, y), x, k);
    PriorMerged(a, y, k);
    assert l == Extend(Extend(p, px), py);
    assert r == Extend(Extend(p, py), px);
    ExtendSwapValues(p, px, py);
    DefineBinsPermutation(l, r, magWidth, distWidth, coordWidth, lonEdgesOf, truncation, nEpsilons);
  }

  /**
   * Whichever of two results arrives first, the matrix of key `k` has the
   * same edges and the same value in every cell.
   */
  lemma MergeOrderSameMatrix(a: map<Key, Bins>, x: map<Key, Bins>, y: map<Key, Bins>, k: Key,
                             magWidth: real, distWidth: real, coordWidth: real,
                             lonEdgesOf: (seq<real>, seq<real>, real) -> seq<real>,
                             truncation: real, nEpsilons: nat, ext: Extent,
                             im: nat, id: nat, il: nat, ila: nat, ie: nat, it: int)
    requires k in a || k in x || k in y
    requires magWidth > 0.0 && distWidth > 0.0 && coordWidth > 0.0
    requires PointOrderFree(lonEdgesOf)
    requires var d := DefineBins(Merged(Merged(a, x), y)[k], magWidth, distWidth, coordWidth, lonEdgesOf, truncation, nEpsilons);
      && d.Success?
      && ArrangeInput(Prior(a, k), d.value) && ArrangeInput(Prior(x, k), d.value) && ArrangeInput(Prior(y, k), d.value)
      && im + 1 < |d.value.mag| && id + 1 < |d.value.dist| && il + 1 < |d.value.lon|
      && ila + 1 < |d.value.lat| && ie + 1 < |d.value.eps|
    ensures var d := DefineBins(Merged(Merged(a, x), y)[k], magWidth, distWidth, coordWidth, lonEdgesOf, truncation, nEpsilons);
      && d == DefineBins(Merged(Merged(a, y), x)[k], magWidth, distWidth, coordWidth, lonEdgesOf, truncation, nEpsilons)
      && ArrangeInput(Merged(Merged(a, x), y)[k], d.value) && ArrangeInput(Merged(Merged(a, y), x)[k], d.value)
      && CellValue(Merged(Merged(a, x), y)[k], d.value, ext, im, id, il, ila, ie, it)
         == CellValue(Merged(Merged(a, y), x)[k], d.value, ext, im, id, il, ila, ie, it)
  {
    var d := DefineBins(Merged(Merged(a, x), y)[k], magWidth, distWidth, coordWidth, lonEdgesOf, truncation, nEpsilons);
    MergeOrderSameEdges(a, x, y, k, magWidth, distWidth, coordWidth, lonEdgesOf, truncation, nEpsilons);
    MergeOrderIrrelevant(a, x, y, k, d.value, ext, im, id, il, ila, ie, it);
  }

  /** One more key of the incoming result folded in. */
  lemma MergeStep(acc: map<Key, Bins>, incoming: map<Key, Bins>, done: set<Key>, k: Key)
    requires k in incoming && k !in done
    ensures var cur := Merged(acc, Restrict(incoming, done));
      cur[k := Extend(Prior(cur, k), incoming[k])] == Merged(acc, Restrict(incoming, done + {k}))
  {
    var cur := Merged(acc, Restrict(incoming, done));
    var l, r := cur[k := Extend(Prior(cur, k), incoming[k])], Merged(acc, Restrict(incoming, done + {k}));
    assert l.Keys == r.Keys;
    forall k' | k' in l
      ensures l[k'] == r[k']
    {
      MergeStepAt(acc, incoming, done, k, k');
    }
  }

  lemma MergeStepAt(acc: map<Key, Bins>, incoming: map<Key, Bins>, done: set<Key>, k: Key, k': Key)
    requires k in incoming && k !in done
    requires k' in acc || (k' in incoming && k' in done + {k})
    ensures var cur := Merged(acc, Restrict(incoming, done));
      cur[k := Extend(Prior(cur, k), incoming[k])][k'] == Merged(acc, Restrict(incoming, done + {k}))[k']
  {
    if k' == k {
      PriorMerged(acc, Restrict(incoming, done), k);
      ExtendMonoid(Prior(acc, k), Prior(acc, k), Prior(acc, k));
    }
  }

  /** The part of `m` under the keys in `ks`. */
  function Restrict(m: map<Key, Bins>, ks: set<Key>): (r: map<Key, Bins>)
    ensures forall k :: k in r <==> k in m && k in ks
    ensures forall k :: k in r ==> r[k] == m[k]
  {
    map k | k in m.Keys * ks :: m[k]
  }

  // ---------------------------------------------------------------------------
  // The collection phase for one site

  /** The arguments of one `collect_bins` task: a block of sources, as ruptures near the site, and the realizations. */
  datatype CollectTask = CollectTask(sources: seq<SourceRuptures>, rlzs: seq<Realization>)

  /** What the hazard calculation fixes for every task: the levels, the poes and the foreign numerics. */
  datatype Hazard = Hazard(ils: seq<ImtLevels>, poesDisagg: seq<real>, curve: (int, Imt) -> seq<real>,
                           interp: Interp, physics: Physics)

  /** The arguments of one `arrange_and_save_disagg_matrix` task. */
  datatype ArrangeJob = ArrangeJob(trtNames: seq<string>, bins: Bins, key: Key)

  /** What one `collect_bins` task returns or raises. */
  function TaskResult(hz: Hazard, trtNum: map<string, int>, task: CollectTask): Result<map<Key, Bins>, SourceError> {
    CollectBinsResult(Site(task.sources, trtNum, hz.curve, hz.interp, hz.physics), hz.ils, task.rlzs, hz.poesDisagg)
  }

  /** The results of the tasks merged in order, or the first error raised. */
  function CollectedAll(hz: Hazard, trtNum: map<string, int>, tasks: seq<CollectTask>): Result<map<Key, Bins>, SourceError>
    decreases |tasks|
  {
    if |tasks| == 0 then Success(map[])
    else
      match CollectedAll(hz, trtNum, tasks[..|tasks| - 1])
      case Failure(e) => Failure(e)
      case Success(m) =>
        match TaskResult(hz, trtNum, tasks[|tasks| - 1])
        case Failure(e) => Failure(e)
        case Success(x) => Success(Merged(m, x))
  }

  /** The task succeeded and stored key `k`. */
  predicate TaskStores(hz: Hazard, trtNum: map<string, int>, task: CollectTask, k: Key) {
    TaskResult(hz, trtNum, task).Success? && k in TaskResult(hz, trtNum, task).value
  }

  /** The merged result has exactly the keys some task stored. */
  lemma {:induction false} CollectedAllKeys(hz: Hazard, trtNum: map<string, int>, tasks: seq<CollectTask>)
    requires CollectedAll(hz, trtNum, tasks).Success?
    ensures forall k :: k in CollectedAll(hz, trtNum, tasks).value <==>
      exists i :: 0 <= i < |tasks| && TaskStores(hz, trtNum, tasks[i], k)
    decreases |tasks|
  {
    if |tasks| > 0 {
      var init := tasks[..|tasks| - 1];
      CollectedAllKeys(hz, trtNum, init);
      assert forall i :: 0 <= i < |init| ==> init[i] == tasks[i];
      var m := CollectedAll(hz, trtNum, tasks).value;
      forall k | k in m
        ensures exists i :: 0 <= i < |tasks| && TaskStores(hz, trtNum, tasks[i], k)
      {
        if !TaskStores(hz, trtNum, tasks[|tasks| - 1], k) {
          var i :| 0 <= i < |init| && TaskStores(hz, trtNum, init[i], k);
          assert TaskStores(hz, trtNum, tasks[i], k);
        }
      }
    }
  }

  lemma {:induction false} CollectedAllFailureSticks(hz: Hazard, trtNum: map<string, int>, tasks: seq<CollectTask>, n: nat)
    requires n <= |tasks| && CollectedAll(hz, trtNum, tasks[..n]).Failure?
    ensures CollectedAll(hz, trtNum, tasks) == CollectedAll(hz, trtNum, tasks[..n])
    decreases |tasks| - n
  {
    if n < |tasks| {
      assert tasks[..|tasks| - 1][..n] == tasks[..n];
      CollectedAllFailureSticks(hz, trtNum, tasks[..|tasks| - 1], n);
    } else {
      assert tasks[..n] == tasks;
    }
  }

  /** Whether `jobs` holds one arrange job per key of `bins`, in some order, each naming `names`. */
  predicate JobsFor(jobs: seq<ArrangeJob>, names: seq<string>, bins: map<Key, Bins>) {
    && (forall i :: 0 <= i < |jobs| ==> jobs[i].trtNames == names && jobs[i].key in bins && jobs[i].bins == bins[jobs[i].key])
    && (forall i, j :: 0 <= i < j < |jobs| ==> jobs[i].key != jobs[j].key)
    && (forall k :: k in bins ==> exists i :: 0 <= i < |jobs| && jobs[i].key == k)
  }

  /** `[(trt_names, bins) + key for key, bins in self.result.iteritems()]`, in the map's own order. */
  method ArrangeJobs(trtNames: seq<string>, result: map<Key, Bins>) returns (jobs: seq<ArrangeJob>)
    ensures JobsFor(jobs, trtNames, result) && |jobs| == |result|
  {
    jobs := [];
    var todo := result.Keys;
    ghost var pos: map<Key, nat> := map[];
    while todo != {}
      invariant todo <= result.Keys
      invariant forall i :: 0 <= i < |jobs| ==>
        jobs[i].trtNames == trtNames && jobs[i].key in result && jobs[i].key !in todo && jobs[i].bins == result[jobs[i].key]
      invariant forall i, j :: 0 <= i < j < |jobs| ==> jobs[i].key != jobs[j].key
      invariant forall k :: k in result && k !in todo ==> k in pos && pos[k] < |jobs| && jobs[pos[k]].key == k
      invariant |jobs| + |todo| == |result|
      decreases todo
    {
      var k :| k in todo;
      pos := pos[k := |jobs|];
      jobs := jobs + [ArrangeJob(trtNames, result[k], k)];
      todo := todo - {k};
    }
    forall k | k in result
      ensures exists i :: 0 <= i < |jobs| && jobs[i].key == k
    {
      assert jobs[pos[k]].key == k;
    }
  }

  class DisaggHazardCalculator {
    /** The calculator base whose progress counter this calculator uses. */
    const base: Calculator
    /** The raw bin data collected so far for the current site. */
    var result: map<Key, Bins>

    ghost predicate Valid()
      reads this, base
    {
      base.Valid()
    }

    constructor ()
      ensures Valid() && fresh(base)
      ensures result == map[] && base.numTasks == 0 && base.notifications == []
    {
      base := new Calculator();
      result := map[];
    }

    /**
     * `collect_result`: fold one task's result into `self.result`, then
     * count the task as completed.
     */
    method CollectResult(incoming: map<Key, Bins>)
      requires Valid() && base.numTasks > 0
      modifies this, base
      ensures Valid()
      ensures result == Merged(old(result), incoming)
      ensures base.tasksDone == old(base.tasksDone) + 1
      ensures base.percent == Percent(base.tasksDone, base.numTasks) && base.percent >= old(base.percent)
      ensures base.percent > old(base.percent) ==>
        base.notifications == old(base.notifications) + [Notification(base.progressHandler, base.percent)]
      ensures base.percent == old(base.percent) ==> base.notifications == old(base.notifications)
      ensures base.taskname == old(base.taskname) && base.numTasks == old(base.numTasks)
      ensures base.progressHandler == old(base.progressHandler) && base.epochStart == old(base.epochStart)
    {
      var todo := incoming.Keys;
      ghost var done: set<Key> := {};
      while todo != {}
        invariant todo + done == incoming.Keys && todo !! done
        invariant result == Merged(old(result), Restrict(incoming, done))
        modifies this
        decreases todo
      {
        var k :| k in todo;
        MergeStep(old(result), incoming, done, k);
        var bins := if k in result then result[k] else EmptyBins();
        result := result[k := Extend(bins, incoming[k])];
        todo := todo - {k};
        done := done + {k};
      }
      assert Restrict(incoming, done) == incoming;
      base.LogPercent();
    }

    /**
     * The `collect_bins` phase of `full_disaggregation`: run one task per
     * source block and fold each task's result into `self.result`, stopping
     * at the first task that fails.
     */
    method CollectSite(trtNum: map<string, nat>, hz: Hazard, tasks: seq<CollectTask>)
      returns (err: Option<SourceError>)
      requires Valid()
      modifies this, base
      ensures Valid()
      ensures err.None? <==> CollectedAll(hz, trtNum, tasks).Success?
      ensures err.Some? ==> CollectedAll(hz, trtNum, tasks) == Failure(err.value)
      ensures err.None? ==>
        && result == CollectedAll(hz, trtNum, tasks).value
        && base.taskname == "collect_bins" && base.numTasks == |tasks| == base.tasksDone
        && (|tasks| > 0 ==> base.percent == 100)
    {
      result := map[];
      var arglist := base.InitializePercent("collect_bins", tasks);
      for i := 0 to |arglist|
        invariant Valid()
        invariant base.taskname == "collect_bins" && base.numTasks == |tasks| && base.tasksDone == i
        invariant CollectedAll(hz, trtNum, tasks[..i]) == Success(result)
      {
        assert tasks[..i + 1][..i] == tasks[..i];
        var task := arglist[i];
        var outcome := CollectBins(Site(task.sources, trtNum, hz.curve, hz.interp, hz.physics),
                                   hz.ils, task.rlzs, hz.poesDisagg);
        if outcome.Failure? {
          CollectedAllFailureSticks(hz, trtNum, tasks, i + 1);
          return Some(outcome.error);
        }
        CollectResult(outcome.value);
      }
      assert tasks[..|tasks|] == tasks;
      if |tasks| > 0 {
        PercentBounds(base.tasksDone, base.numTasks);
      }
      err := None;
    }

    /**
     * The `arrange_and_save_disagg_matrix` phase: count the arrange jobs
     * as they complete; the collected data is no longer needed.
     */
    method ArrangeSite(jobs: seq<ArrangeJob>)
      requires Valid()
      modifies this, base
      ensures Valid()
      ensures result == map[]
      ensures base.taskname == "arrange_and_save_disagg_matrix" && base.numTasks == |jobs| == base.tasksDone
      ensures |jobs| > 0 ==> base.percent == 100
    {
      result := map[];
      var arrangeArgs := base.InitializePercent("arrange_and_save_disagg_matrix", jobs);
      for i := 0 to |arrangeArgs|
        invariant Valid()
        invariant base.taskname == "arrange_and_save_disagg_matrix" && base.numTasks == |jobs| && base.tasksDone == i
        invariant result == map[]
        modifies base
      {
        base.LogPercent();
      }
      if |jobs| > 0 {
        PercentBounds(base.tasksDone, base.numTasks);
      }
    }

    /**
     * The per-site body of `full_disaggregation`: number the tectonic region
     * types, run the `collect_bins` tasks and collect their results, and,
     * unless the site had no contributions, give one arrange job per key and
     * count those jobs as they complete. `None` stands for a skipped site.
     */
    method DisaggregateSite(types: seq<string>, hz: Hazard, tasks: seq<CollectTask>)
      returns (r: Result<Option<seq<ArrangeJob>>, SourceError>)
      requires Valid()
      modifies this, base
      ensures Valid()
      ensures r.Failure? <==> CollectedAll(hz, TrtNum(types), tasks).Failure?
      ensures r.Failure? ==> r.error == CollectedAll(hz, TrtNum(types), tasks).error
      ensures r.Success? ==> var merged := CollectedAll(hz, TrtNum(types), tasks).value;
        && (r.value.None? <==> merged == map[])
        && (r.value.None? ==>
              base.taskname == "collect_bins" && base.numTasks == |tasks| == base.tasksDone && result == map[]
              && (|tasks| > 0 ==> base.percent == 100))
        && (r.value.Some? ==>
              && JobsFor(r.value.value, TrtNames(TrtNum(types), types), merged)
              && |r.value.value| == |merged|
              && base.taskname == "arrange_and_save_disagg_matrix"
              && base.numTasks == |r.value.value| == base.tasksDone
              && base.percent == 100 && result == map[])
    {
      var trtNum := TrtNum(types);
      var err := CollectSite(trtNum, hz, tasks);
      if err.Some? {
        return Failure(err.value);
      }
      if result == map[] {
        return Success(None);
      }
      var trtNames := TrtNames(trtNum, types);
      var jobs := ArrangeJobs(trtNames, result);
      ArrangeSite(jobs);
      return Success(Some(jobs));
    }
  }
}
