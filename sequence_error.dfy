/**
 * The UMI error-correction engine: a functor that, for one bundle of reads
 * grouped by barcode, builds an adjacency graph under the chosen policy,
 * finds components by breadth-first search seeded in descending-count
 * order, reconciles them, and reassigns the reads of every non-representative
 * member of a cluster to the cluster's representative.
 */
module SequenceError {
  import opened Barcodes
  import opened Graph
  import opened Adjacency
  import opened Ranking
  import opened Claims
  import opened Resolution
  import opened Reassignment

  /**
   * The external `kmeans.find_clusters(adj_list, counts, k)`. Its sub-clusters
   * are never used; only how many it returns matters.
   */
  type SubClusterFinder = (AdjList, Counts, nat) -> seq<set<Barcode>>

  /** The failures of a call. */
  datatype CallError =
    | EmptyBundle                                 // `max` of an empty list of lengths
    | LengthMismatch(shortest: nat, longest: nat) // the length assertion, with its message values

  datatype Result<T> = Success(value: T) | Failure(error: CallError)

  /** The map `m` restricted to the barcodes of `cluster`. */
  function Restrict<V>(m: map<Barcode, V>, cluster: set<Barcode>): (r: map<Barcode, V>)
    requires cluster <= m.Keys
    ensures r.Keys == cluster && forall u :: u in cluster ==> r[u] == m[u]
  {
    map u | u in cluster :: m[u]
  }

  /** `c` repeated `n` times. */
  function Repeat(c: set<Barcode>, n: nat): (r: seq<set<Barcode>>)
    ensures |r| == n && forall i :: 0 <= i < n ==> r[i] == c
  {
    seq(n, _ => c)
  }

  /**
   * How many times the k-means post-processor appends `cluster`: once for a
   * singleton, otherwise once per sub-cluster found on the restricted graph.
   */
  function Copies(cluster: set<Barcode>, adjList: AdjList, counts: Counts, finder: SubClusterFinder): nat
    requires cluster <= adjList.Keys && cluster <= counts.Keys
  {
    if |cluster| == 1 then 1
    else |finder(Restrict(adjList, cluster), Restrict(counts, cluster), 1)|
  }

  /** The k-means post-processor's output: each cluster, in order, `Copies` times. */
  function Expand(components: Components, adjList: AdjList, counts: Counts, finder: SubClusterFinder): Components
    requires forall c :: c in components ==> c <= adjList.Keys && c <= counts.Keys
  {
    if components == [] then []
    else
      var n := |components| - 1;
      assert forall c :: c in components[..n] ==> c in components;
      Expand(components[..n], adjList, counts, finder)
        + Repeat(components[n], Copies(components[n], adjList, counts, finder))
  }

  /**
   * The k-means post-processor only ever outputs clusters it was given: a
   * multi-member cluster is never replaced by its sub-clusters.
   */
  lemma {:induction false} ExpandOnlyOriginals(components: Components, adjList: AdjList, counts: Counts,
                                               finder: SubClusterFinder, c: set<Barcode>)
    requires forall d :: d in components ==> d <= adjList.Keys && d <= counts.Keys
    ensures c in Expand(components, adjList, counts, finder) ==> c in components
  {
    if components != [] {
      var n := |components| - 1;
      assert forall d :: d in components[..n] ==> d in components;
      ExpandOnlyOriginals(components[..n], adjList, counts, finder, c);
      var rep := Repeat(components[n], Copies(components[n], adjList, counts, finder));
      if c in rep {
        var i :| 0 <= i < |rep| && rep[i] == c;
      }
    }
  }

  /**
   * Each cluster is output as often as it occurs times its number of copies:
   * a singleton exactly as often as it occurs, a larger cluster once per
   * sub-cluster found, and not at all when none is found.
   */
  lemma {:induction false} ExpandMultiplicity(components: Components, adjList: AdjList, counts: Counts,
                                              finder: SubClusterFinder, c: set<Barcode>)
    requires forall d :: d in components ==> d <= adjList.Keys && d <= counts.Keys
    requires c <= adjList.Keys && c <= counts.Keys
    ensures multiset(Expand(components, adjList, counts, finder))[c]
         == multiset(components)[c] * Copies(c, adjList, counts, finder)
  {
    if components != [] {
      var n := |components| - 1;
      var init, last := components[..n], components[n];
      assert components == init + [last];
      assert forall d :: d in init ==> d in components;
      ExpandMultiplicity(init, adjList, counts, finder, c);
      ExpandSnoc(init, last, adjList, counts, finder);
      var tail := Repeat(last, Copies(last, adjList, counts, finder));
      RepeatMultiplicity(last, Copies(last, adjList, counts, finder), c);
      assert multiset(Expand(components, adjList, counts, finder))[c]
          == multiset(Expand(init, adjList, counts, finder))[c] + multiset(tail)[c];
      OccurrencesSnoc(init, last, c);
      MultiplicityStep(multiset(Expand(components, adjList, counts, finder))[c],
                       multiset(Expand(init, adjList, counts, finder))[c], multiset(tail)[c],
                       multiset(init)[c], multiset(components)[c], Copies(c, adjList, counts, finder), last == c);
    }
  }

  /** Expanding one more cluster appends its copies. */
  lemma ExpandSnoc(init: Components, last: set<Barcode>, adjList: AdjList, counts: Counts, finder: SubClusterFinder)
    requires forall d :: d in init ==> d <= adjList.Keys && d <= counts.Keys
    requires last <= adjList.Keys && last <= counts.Keys
    ensures Expand(init + [last], adjList, counts, finder)
         == Expand(init, adjList, counts, finder) + Repeat(last, Copies(last, adjList, counts, finder))
  {
    var s := init + [last];
    assert s[..|s| - 1] == init;
  }

  /** The loop step of the k-means post-processor: one more cluster expanded. */
  lemma ExpandPrefix(components: Components, i: nat, adjList: AdjList, counts: Counts, finder: SubClusterFinder)
    requires i < |components|
    requires forall d :: d in components ==> d <= adjList.Keys && d <= counts.Keys
    ensures forall d :: d in components[..i] ==> d <= adjList.Keys && d <= counts.Keys
    ensures Expand(components[..i + 1], adjList, counts, finder)
         == Expand(components[..i], adjList, counts, finder) + Repeat(components[i], Copies(components[i], adjList, counts, finder))
  {
    assert components[..i + 1] == components[..i] + [components[i]];
    ExpandSnoc(components[..i], components[i], adjList, counts, finder);
  }

  /** Everything the k-means post-processor outputs was one of its inputs. */
  lemma ExpandAllOriginals(components: Components, adjList: AdjList, counts: Counts, finder: SubClusterFinder)
    requires forall d :: d in components ==> d <= adjList.Keys && d <= counts.Keys
    ensures components[..|components|] == components
    ensures forall c :: c in Expand(components, adjList, counts, finder) ==> c in components
  {
    forall c | c in Expand(components, adjList, counts, finder) ensures c in components {
      ExpandOnlyOriginals(components, adjList, counts, finder, c);
    }
  }

  lemma OccurrencesSnoc(init: Components, last: set<Barcode>, c: set<Barcode>)
    ensures multiset(init + [last])[c] == multiset(init)[c] + if last == c then 1 else 0
  {
  }

  /** The arithmetic of one induction step of `ExpandMultiplicity`. */
  lemma MultiplicityStep(total: int, before: int, added: int, seen: int, occurs: int, copies: int, isLast: bool)
    requires before == seen * copies && total == before + added
    requires occurs == seen + (if isLast then 1 else 0)
    requires added == if isLast then copies else 0
    ensures total == occurs * copies
  {
    if isLast {
      assert occurs * copies == seen * copies + copies;
    }
  }

  lemma {:induction false} RepeatMultiplicity(d: set<Barcode>, n: nat, c: set<Barcode>)
    ensures multiset(Repeat(d, n))[c] == if d == c then n else 0
  {
    if n > 0 {
      RepeatMultiplicity(d, n - 1, c);
      assert Repeat(d, n) == Repeat(d, n - 1) + [d];
    }
  }

  /** `dict.keys()`: the bundle's barcodes, each once, in no particular order. */
  method KeyList<R>(bundle: Bundle<R>) returns (umis: seq<Barcode>)
    ensures Elems(umis) == bundle.Keys && Distinct(umis)
  {
    umis := [];
    var rest := bundle.Keys;
    while rest != {}
      invariant rest <= bundle.Keys
      invariant Elems(umis) == bundle.Keys - rest
      invariant Distinct(umis)
      decreases rest
    {
      var k :| k in rest;
      umis := umis + [k];
      rest := rest - {k};
    }
  }

  /** `comp` is what a search from `seed` collects: closed, and reachable from `seed`. */
  ghost predicate SearchedFrom(graph: AdjList, seed: Barcode, comp: set<Barcode>)
  {
    seed in graph && seed in comp && comp <= graph.Keys && Closed(graph, comp) &&
    forall v :: v in comp ==> Reachable(graph, seed, v)
  }

  /**
   * On a symmetric graph, a search that meets an earlier component was
   * seeded inside it; so one seeded outside every earlier component shares
   * no barcode with any of them.
   */
  lemma NewComponentDisjoint(graph: AdjList, comps: Components, seeds: seq<Barcode>, node: Barcode, comp: set<Barcode>)
    requires Symmetric(graph) && |seeds| == |comps|
    requires forall j :: 0 <= j < |comps| ==> SearchedFrom(graph, seeds[j], comps[j])
    requires SearchedFrom(graph, node, comp)
    ensures forall j, x :: 0 <= j < |comps| && x in comps[j] && x in comp ==> node in comps[j]
  {
    forall j, x | 0 <= j < |comps| && x in comps[j] && x in comp ensures node in comps[j] {
      SymmetricReachable(graph, node, x);
      ClosedContainsReachable(graph, comps[j], x, node);
    }
  }

  /** No barcode lies in two components. */
  ghost predicate Disjoint(comps: Components)
  {
    forall i, j, x :: 0 <= i < j < |comps| && x in comps[i] ==> x !in comps[j]
  }

  /** Each component is a search from the seed at the same position. */
  ghost predicate SeedsSearched(graph: AdjList, comps: Components, seeds: seq<Barcode>)
  {
    |seeds| == |comps| && forall j :: 0 <= j < |comps| ==> SearchedFrom(graph, seeds[j], comps[j])
  }

  /** No seed lies in an earlier component. */
  ghost predicate SeedsFresh(comps: Components, seeds: seq<Barcode>)
    requires |seeds| == |comps|
  {
    forall i', j :: 0 <= i' < j < |comps| ==> seeds[j] !in comps[i']
  }

  /**
   * Seeds come in non-increasing count order, and each counts at least as
   * much as every entry of `order` from position `i` on.
   */
  ghost predicate SeedsRanked(counts: Counts, order: seq<Barcode>, i: nat, seeds: seq<Barcode>)
    requires forall k :: 0 <= k < |order| ==> order[k] in counts
    requires forall j :: 0 <= j < |seeds| ==> seeds[j] in counts
  {
    (forall i', j :: 0 <= i' < j < |seeds| ==> counts[seeds[i']] >= counts[seeds[j]]) &&
    (forall j, k :: 0 <= j < |seeds| && i <= k < |order| ==> counts[seeds[j]] >= counts[order[k]])
  }

  /** `found` is the union of the components. */
  ghost predicate FoundUnion(found: set<Barcode>, comps: Components)
  {
    forall u :: u in found <==> exists j :: 0 <= j < |comps| && u in comps[j]
  }

  /** Every entry of `order` before position `i` was found. */
  ghost predicate Passed(order: seq<Barcode>, i: nat, found: set<Barcode>)
  {
    i <= |order| && forall k :: 0 <= k < i ==> order[k] in found
  }

  /**
   * What the component search keeps after the first `i` seeds of `order`:
   * each component is a search from its seed, no seed lies in an earlier
   * component, seeds come in non-increasing count order and count at least
   * as much as every seed still to come, `found` is the union of the
   * components and holds every seed already passed, and on a symmetric graph
   * the components are pairwise disjoint.
   */
  ghost predicate SearchInvariant(graph: AdjList, counts: Counts, order: seq<Barcode>, i: nat,
                                  found: set<Barcode>, comps: Components, seeds: seq<Barcode>)
  {
    graph.Keys <= counts.Keys &&
    (forall k :: 0 <= k < |order| ==> order[k] in graph) &&
    SeedsSearched(graph, comps, seeds) &&
    SeedsFresh(comps, seeds) &&
    SeedsRanked(counts, order, i, seeds) &&
    FoundUnion(found, comps) &&
    Passed(order, i, found) &&
    (Symmetric(graph) ==> Disjoint(comps))
  }

  /** A seed already found is skipped. */
  lemma SearchSkip(graph: AdjList, counts: Counts, order: seq<Barcode>, i: nat,
                   found: set<Barcode>, comps: Components, seeds: seq<Barcode>)
    requires SearchInvariant(graph, counts, order, i, found, comps, seeds)
    requires i < |order| && order[i] in found
    ensures SearchInvariant(graph, counts, order, i + 1, found, comps, seeds)
  {
  }

  /** A seed not yet found opens a new component. */
  lemma SearchExtend(graph: AdjList, counts: Counts, order: seq<Barcode>, i: nat,
                     found: set<Barcode>, comps: Components, seeds: seq<Barcode>, comp: set<Barcode>)
    requires SearchInvariant(graph, counts, order, i, found, comps, seeds)
    requires forall x :: x in order ==> x in counts
    requires NonIncreasing(order, counts)
    requires i < |order| && order[i] !in found && SearchedFrom(graph, order[i], comp)
    ensures SearchInvariant(graph, counts, order, i + 1, found + comp, comps + [comp], seeds + [order[i]])
  {
    var node := order[i];
    SearchedExtend(graph, comps, seeds, node, comp);
    FreshExtend(found, comps, seeds, node, comp);
    RankExtend(graph, counts, order, i, seeds);
    FoundExtend(found, comps, comp);
    if Symmetric(graph) {
      DisjointExtend(graph, found, comps, seeds, node, comp);
    }
  }

  lemma SearchedExtend(graph: AdjList, comps: Components, seeds: seq<Barcode>, node: Barcode, comp: set<Barcode>)
    requires SeedsSearched(graph, comps, seeds) && SearchedFrom(graph, node, comp)
    ensures SeedsSearched(graph, comps + [comp], seeds + [node])
  {
    var comps', seeds' := comps + [comp], seeds + [node];
    forall j | 0 <= j < |comps'| ensures SearchedFrom(graph, seeds'[j], comps'[j]) {
      if j < |comps| {
        assert comps'[j] == comps[j] && seeds'[j] == seeds[j];
      }
    }
  }

  lemma FreshExtend(found: set<Barcode>, comps: Components, seeds: seq<Barcode>, node: Barcode, comp: set<Barcode>)
    requires |seeds| == |comps| && SeedsFresh(comps, seeds)
    requires FoundUnion(found, comps) && node !in found
    ensures SeedsFresh(comps + [comp], seeds + [node])
  {
    var comps', seeds' := comps + [comp], seeds + [node];
    forall i', j | 0 <= i' < j < |comps'| ensures seeds'[j] !in comps'[i'] {
      assert comps'[i'] == comps[i'];
      if j < |comps| {
        assert seeds'[j] == seeds[j];
      }
    }
  }

  /** The seed taken at position `i` counts at least as much as every later one. */
  lemma RankExtend(graph: AdjList, counts: Counts, order: seq<Barcode>, i: nat, seeds: seq<Barcode>)
    requires i < |order| && (forall x :: x in order ==> x in counts)
    requires NonIncreasing(order, counts)
    requires forall j :: 0 <= j < |seeds| ==> seeds[j] in counts
    requires SeedsRanked(counts, order, i, seeds)
    ensures SeedsRanked(counts, order, i + 1, seeds + [order[i]])
  {
    var seeds' := seeds + [order[i]];
    forall j, k | 0 <= j < |seeds'| && i + 1 <= k < |order| ensures counts[seeds'[j]] >= counts[order[k]] {
      if j == |seeds| {
        assert seeds'[j] == order[i];
      } else {
        assert seeds'[j] == seeds[j];
      }
    }
    forall i', j | 0 <= i' < j < |seeds'| ensures counts[seeds'[i']] >= counts[seeds'[j]] {
      assert seeds'[i'] == seeds[i'];
      if j < |seeds| {
        assert seeds'[j] == seeds[j];
      }
    }
  }

  /** Adding a component to the union keeps `found` the union of the components. */
  lemma FoundExtend(found: set<Barcode>, comps: Components, comp: set<Barcode>)
    requires FoundUnion(found, comps)
    ensures FoundUnion(found + comp, comps + [comp])
  {
    var comps' := comps + [comp];
    forall u | u in found + comp ensures exists j :: 0 <= j < |comps'| && u in comps'[j] {
      if u !in comp {
        var j :| 0 <= j < |comps| && u in comps[j];
        assert comps'[j] == comps[j];
      } else {
        assert comps'[|comps|] == comp;
      }
    }
    forall u | exists j :: 0 <= j < |comps'| && u in comps'[j] ensures u in found + comp {
      var j :| 0 <= j < |comps'| && u in comps'[j];
      if j < |comps| {
        assert comps'[j] == comps[j];
      }
    }
  }

  /** On a symmetric graph the new component shares nothing with the earlier ones. */
  lemma DisjointExtend(graph: AdjList, found: set<Barcode>, comps: Components, seeds: seq<Barcode>,
                       node: Barcode, comp: set<Barcode>)
    requires Symmetric(graph) && Disjoint(comps) && SeedsSearched(graph, comps, seeds)
    requires FoundUnion(found, comps) && node !in found && SearchedFrom(graph, node, comp)
    ensures Disjoint(comps + [comp])
  {
    NewComponentDisjoint(graph, comps, seeds, node, comp);
    var comps' := comps + [comp];
    forall i', j, x | 0 <= i' < j < |comps'| && x in comps'[i'] ensures x !in comps'[j] {
      assert comps'[i'] == comps[i'];
      if j < |comps| {
        assert comps'[j] == comps[j];
      }
    }
  }

  /** Once every seed is passed, the components cover the graph. */
  lemma SearchComplete(graph: AdjList, counts: Counts, order: seq<Barcode>,
                       found: set<Barcode>, comps: Components, seeds: seq<Barcode>)
    requires SearchInvariant(graph, counts, order, |order|, found, comps, seeds)
    ensures forall j :: 0 <= j < |comps| ==> SearchedFrom(graph, seeds[j], comps[j])
    ensures forall j, v :: 0 <= j < |comps| && Reachable(graph, seeds[j], v) ==> v in comps[j]
    ensures forall i, j :: 0 <= i < j < |comps| ==> seeds[j] !in comps[i]
    ensures forall i, j :: 0 <= i < j < |comps| ==> counts[seeds[i]] >= counts[seeds[j]]
    ensures Symmetric(graph) ==> Disjoint(comps)
  {
    forall j, v | 0 <= j < |comps| && Reachable(graph, seeds[j], v) ensures v in comps[j] {
      ClosedContainsReachable(graph, comps[j], seeds[j], v);
    }
  }

  /** The seed order lists exactly the keys of the graph. */
  lemma SortedKeys(umis: seq<Barcode>, order: seq<Barcode>, keys: set<Barcode>)
    requires multiset(order) == multiset(umis) && keys == Elems(umis)
    ensures forall k :: 0 <= k < |order| ==> order[k] in keys
    ensures forall u :: u in keys ==> exists k :: 0 <= k < |order| && order[k] == u
  {
    forall k | 0 <= k < |order| ensures order[k] in keys {
      assert order[k] in multiset(umis);
    }
    forall u | u in keys ensures exists k :: 0 <= k < |order| && order[k] == u {
      assert u in multiset(order);
    }
  }

  /** Every barcode the search passed as a seed lies in some component. */
  lemma SearchCovers(umis: seq<Barcode>, graph: AdjList, counts: Counts, order: seq<Barcode>,
                     found: set<Barcode>, comps: Components, seeds: seq<Barcode>)
    requires graph.Keys == Elems(umis) && multiset(order) == multiset(umis)
    requires SearchInvariant(graph, counts, order, |order|, found, comps, seeds)
    ensures forall u :: u in graph ==> ClaimCount(comps, u) > 0
  {
    SortedKeys(umis, order, graph.Keys);
    forall u | u in graph ensures ClaimCount(comps, u) > 0 {
      var k :| 0 <= k < |order| && order[k] == u;
      assert u in found;
      var j :| 0 <= j < |comps| && u in comps[j];
      assert j in Claimants(comps, u);
    }
  }

  /** The search starts with nothing found and every seed still to come. */
  lemma SearchStart(umis: seq<Barcode>, graph: AdjList, counts: Counts, order: seq<Barcode>)
    requires graph.Keys == Elems(umis) && graph.Keys <= counts.Keys
    requires multiset(order) == multiset(umis)
    ensures SearchInvariant(graph, counts, order, 0, {}, [], [])
  {
    SortedKeys(umis, order, graph.Keys);
  }

  /**
   * What a finished component search promises: one seed per component, each
   * component exactly what its seed reaches, no seed inside an earlier
   * component, seeds in non-increasing count order, every node claimed, and
   * disjoint components when the adjacency is symmetric.
   */
  ghost predicate ComponentSearch(graph: AdjList, counts: Counts, comps: Components, seeds: seq<Barcode>)
  {
    SeedsSearched(graph, comps, seeds) &&
    (forall j, v :: 0 <= j < |comps| && Reachable(graph, seeds[j], v) ==> v in comps[j]) &&
    SeedsFresh(comps, seeds) &&
    (forall j :: 0 <= j < |comps| ==> seeds[j] in counts) &&
    (forall i, j :: 0 <= i < j < |comps| ==> counts[seeds[i]] >= counts[seeds[j]]) &&
    (forall u :: u in graph ==> ClaimCount(comps, u) > 0) &&
    (Symmetric(graph) ==> Disjoint(comps))
  }

  /** What the finished search promises about its components and seeds. */
  lemma SearchFinish(umis: seq<Barcode>, graph: AdjList, counts: Counts, order: seq<Barcode>,
                     found: set<Barcode>, comps: Components, seeds: seq<Barcode>)
    requires graph.Keys == Elems(umis) && multiset(order) == multiset(umis)
    requires SearchInvariant(graph, counts, order, |order|, found, comps, seeds)
    ensures ComponentSearch(graph, counts, comps, seeds)
  {
    SearchComplete(graph, counts, order, found, comps, seeds);
    SearchCovers(umis, graph, counts, order, found, comps, seeds);
  }

  /**
   * After the first `n` barcodes of `umis` were resolved, components have
   * only lost members, and only barcodes already handled.
   */
  ghost predicate OnlyHandledRemoved(umis: seq<Barcode>, components: Components, n: nat, result: Components)
  {
    n <= |umis| && |result| == |components| && (n == 0 ==> result == components) &&
    (forall k :: 0 <= k < |result| ==> result[k] <= components[k]) &&
    (forall k, x :: 0 <= k < |result| && x in components[k] && x !in umis[..n] ==> x in result[k])
  }

  /** Every barcode already handled that some component claimed is held exactly once. */
  ghost predicate HandledHeldOnce(umis: seq<Barcode>, components: Components, n: nat, result: Components)
    requires n <= |umis|
  {
    forall x :: x in umis[..n] && ClaimCount(components, x) > 0 ==> ClaimCount(result, x) == 1
  }

  /**
   * `history[m]` is the state `umis[m]` was resolved against: it starts from
   * the input, and each resolution removed nothing but its own barcode.
   */
  ghost predicate Recorded(umis: seq<Barcode>, components: Components, n: nat, result: Components,
                           history: seq<Components>)
    requires n <= |umis|
  {
    |history| == n && |result| == |components| && (n > 0 ==> history[0] == components) &&
    (forall m :: 0 <= m < n ==> (|history[m]| == |result| &&
      forall k :: 0 <= k < |result| ==> result[k] <= history[m][k] <= components[k])) &&
    (forall m, k :: 0 <= m < n - 1 && 0 <= k < |result| ==>
      history[m + 1][k] == history[m][k] || history[m + 1][k] == history[m][k] - {umis[m]}) &&
    (n > 0 ==> forall k :: 0 <= k < |result| ==>
      result[k] == history[n - 1][k] || result[k] == history[n - 1][k] - {umis[n - 1]})
  }

  /**
   * A component still holding a handled barcode had, when that barcode was
   * resolved, the greatest representative among the components claiming it.
   */
  ghost predicate KeptSoFar(umis: seq<Barcode>, counts: Counts, n: nat, result: Components, history: seq<Components>)
  {
    n <= |umis| && |history| == n &&
    forall m :: 0 <= m < n && ClaimCount(history[m], umis[m]) > 1 ==>
      KeptByGreatest(history[m], result, umis[m], counts)
  }

  /** The state of the directional reconciliation after the first `n` barcodes of `umis`. */
  ghost predicate DirectionalInvariant(umis: seq<Barcode>, components: Components, counts: Counts, n: nat,
                                       result: Components, history: seq<Components>)
  {
    (forall k :: 0 <= k < |components| ==> components[k] <= counts.Keys) &&
    OnlyHandledRemoved(umis, components, n, result) &&
    HandledHeldOnce(umis, components, n, result) &&
    Recorded(umis, components, n, result, history) &&
    KeptSoFar(umis, counts, n, result, history)
  }

  /**
   * What reconciling `components` over `umis` promises, `history[n]` being the
   * state `umis[n]` is resolved against: components only lose members, and
   * only barcodes of `umis`; every claimed barcode of `umis` ends in exactly
   * one component; the states shrink step by step; and whenever a barcode had
   * several claimants, the component that keeps it has the greatest
   * representative among them.
   */
  ghost predicate ReconciledClaims(umis: seq<Barcode>, components: Components, counts: Counts,
                                   result: Components, history: seq<Components>)
  {
    |result| == |components| &&
    (forall k :: 0 <= k < |result| ==> result[k] <= components[k]) &&
    (forall k, x :: 0 <= k < |result| && x in components[k] && x !in umis ==> x in result[k]) &&
    (forall x :: x in umis && ClaimCount(components, x) > 0 ==> ClaimCount(result, x) == 1) &&
    |history| == |umis| && (|umis| > 0 ==> history[0] == components) &&
    (forall n :: 0 <= n < |umis| ==> (|history[n]| == |result| &&
      forall k :: 0 <= k < |result| ==> result[k] <= history[n][k] <= components[k])) &&
    (forall n, k :: 0 <= n < |umis| - 1 && 0 <= k < |result| ==>
      history[n + 1][k] == history[n][k] || history[n + 1][k] == history[n][k] - {umis[n]}) &&
    (forall n :: 0 <= n < |umis| && ClaimCount(history[n], umis[n]) > 1 ==>
      KeptByGreatest(history[n], result, umis[n], counts))
  }

  /** The effect of resolving the claims on `umi`, as `ResolveClaims` promises it. */
  ghost predicate ResolvesClaims(before: Components, result: Components, umi: Barcode, counts: Counts)
  {
    |result| == |before| &&
    (forall k :: 0 <= k < |result| ==> result[k] == before[k] || result[k] == before[k] - {umi}) &&
    ClaimCount(result, umi) == (if ClaimCount(before, umi) > 1 then 1 else ClaimCount(before, umi)) &&
    (ClaimCount(before, umi) > 1 ==> KeptByGreatest(before, result, umi, counts))
  }

  lemma RemovedStep(umis: seq<Barcode>, components: Components, n: nat, before: Components, result: Components)
    requires n < |umis| && OnlyHandledRemoved(umis, components, n, before)
    requires |result| == |before|
    requires forall k :: 0 <= k < |result| ==> result[k] == before[k] || result[k] == before[k] - {umis[n]}
    ensures OnlyHandledRemoved(umis, components, n + 1, result)
  {
    assert umis[..n + 1] == umis[..n] + [umis[n]];
  }

  lemma HeldOnceStep(umis: seq<Barcode>, components: Components, counts: Counts, n: nat,
                     before: Components, result: Components)
    requires Distinct(umis) && n < |umis|
    requires OnlyHandledRemoved(umis, components, n, before) && HandledHeldOnce(umis, components, n, before)
    requires ResolvesClaims(before, result, umis[n], counts)
    ensures HandledHeldOnce(umis, components, n + 1, result)
  {
    var umi := umis[n];
    assert umi !in umis[..n];
    assert umis[..n + 1] == umis[..n] + [umi];
    ClaimantsAgree(before, components, umi);
    forall x | x in umis[..n + 1] && ClaimCount(components, x) > 0 ensures ClaimCount(result, x) == 1 {
      if x != umi {
        ClaimantsAgree(result, before, x);
      }
    }
  }

  lemma RecordedStep(umis: seq<Barcode>, components: Components, n: nat, before: Components, result: Components,
                     history: seq<Components>)
    requires n < |umis| && OnlyHandledRemoved(umis, components, n, before)
    requires Recorded(umis, components, n, before, history)
    requires |result| == |before|
    requires forall k :: 0 <= k < |result| ==> result[k] == before[k] || result[k] == before[k] - {umis[n]}
    ensures Recorded(umis, components, n + 1, result, history + [before])
  {
    var history' := history + [before];
    forall m, k | 0 <= m < n + 1 && 0 <= k < |result|
      ensures result[k] <= history'[m][k] <= components[k]
    {
      if m < n {
        assert before[k] <= history[m][k];
      }
    }
  }

  lemma KeptStep(umis: seq<Barcode>, counts: Counts, n: nat,
                 before: Components, result: Components, history: seq<Components>)
    requires n < |umis| && KeptSoFar(umis, counts, n, before, history)
    requires ResolvesClaims(before, result, umis[n], counts)
    ensures KeptSoFar(umis, counts, n + 1, result, history + [before])
  {
    var history' := history + [before];
    forall m | 0 <= m < n + 1 && ClaimCount(history'[m], umis[m]) > 1
      ensures KeptByGreatest(history'[m], result, umis[m], counts)
    {
      if m < n {
        assert history'[m] == history[m];
        KeptByGreatestShrinks(history[m], before, result, umis[m], counts);
      }
    }
  }

  /** Resolving the claims on `umis[n]` keeps the reconciliation invariant. */
  lemma DirectionalStep(umis: seq<Barcode>, components: Components, counts: Counts, n: nat,
                        before: Components, result: Components, history: seq<Components>)
    requires Distinct(umis) && n < |umis|
    requires DirectionalInvariant(umis, components, counts, n, before, history)
    requires ResolvesClaims(before, result, umis[n], counts)
    ensures DirectionalInvariant(umis, components, counts, n + 1, result, history + [before])
  {
    RemovedStep(umis, components, n, before, result);
    HeldOnceStep(umis, components, counts, n, before, result);
    RecordedStep(umis, components, n, before, result, history);
    KeptStep(umis, counts, n, before, result, history);
  }

  /** Once every barcode is resolved, the invariant is the promise of the reconciliation. */
  lemma DirectionalFinish(umis: seq<Barcode>, components: Components, counts: Counts,
                          result: Components, history: seq<Components>)
    requires DirectionalInvariant(umis, components, counts, |umis|, result, history)
    ensures ReconciledClaims(umis, components, counts, result, history)
  {
    assert umis[..|umis|] == umis;
  }

  /**
   * When every edge is a self-loop, each component holds only its seed, so
   * every cluster drawn from the components holds at most one barcode.
   */
  lemma IsolatedClusters(graph: AdjList, components: Components, seeds: seq<Barcode>, clusters: Components)
    requires forall u, v :: Edge(graph, u, v) ==> u == v
    requires |seeds| == |components|
    requires forall j, v :: 0 <= j < |components| && v in components[j] ==> Reachable(graph, seeds[j], v)
    requires forall c :: c in clusters ==> exists j :: 0 <= j < |components| && c <= components[j]
    ensures forall c :: c in clusters ==> |c| <= 1
  {
    forall j | 0 <= j < |components| ensures components[j] <= {seeds[j]} {
      assert Closed(graph, {seeds[j]});
      forall v | v in components[j] ensures v == seeds[j] {
        ClosedContainsReachable(graph, {seeds[j]}, seeds[j], v);
      }
    }
    forall c | c in clusters ensures |c| <= 1 {
      var j :| 0 <= j < |components| && c <= components[j];
      if c != {} {
        var x :| x in c;
        assert c == {x};
      }
    }
  }

  /**
   * Representative dominance, read off the emitted pairs: each pair maps a
   * read of some other barcode of the bundle to a representative with at
   * least as many reads.
   */
  lemma ReassignedShape<R>(bundle: Bundle<R>, clusters: Components, counts: Counts, reassigned: seq<(R, Barcode)>)
    requires CountsOf(bundle, counts) && forall c :: c in clusters ==> c <= bundle.Keys
    requires multiset(reassigned) == AllPairs(bundle, clusters, counts)
    ensures forall p :: p in reassigned ==>
      p.1 in bundle && exists u :: u in bundle && u != p.1 && p.0 in bundle[u] && |bundle[u]| <= |bundle[p.1]|
  {
    AllPairsShape(bundle, clusters, counts);
    forall p | p in reassigned
      ensures p.1 in bundle && exists u :: u in bundle && u != p.1 && p.0 in bundle[u] && |bundle[u]| <= |bundle[p.1]|
    {
      assert p in multiset(reassigned);
    }
  }

  class ClusterAndReducer {
    /** The adjacency and post-processing pair bound at construction. */
    const clusterMethod: ClusterMethod
    /** The sub-cluster finder of the k-means policy. */
    const findClusters: SubClusterFinder

    constructor (clusterMethod: ClusterMethod, findClusters: SubClusterFinder)
      ensures this.clusterMethod == clusterMethod
      ensures this.findClusters == findClusters
    {
      this.clusterMethod := clusterMethod;
      this.findClusters := findClusters;
    }

    /** Collects every node reachable from `node` along outgoing edges. */
    method BreadthFirstSearch(node: Barcode, adjList: AdjList) returns (found: set<Barcode>)
      requires node in adjList && KeysClosed(adjList)
      ensures node in found && found <= adjList.Keys
      ensures Closed(adjList, found)
      ensures forall v :: v in found ==> Reachable(adjList, node, v)
    {
      var searched: set<Barcode> := {};
      found := {node};
      var queue: set<Barcode> := {node};
      ghost var walks: map<Barcode, seq<Barcode>> := map[node := [node]];
      while queue != {}
        invariant queue <= found <= adjList.Keys
        invariant node in found
        invariant found == searched + queue && searched !! queue
        invariant forall u, v :: u in searched && v in adjList[u] ==> v in found
        invariant walks.Keys == found
        invariant forall v :: v in found ==> IsWalk(adjList, walks[v], node, v)
        decreases adjList.Keys - searched
      {
        var n :| n in queue;
        var next := Elems(adjList[n]);
        ghost var w := walks[n];
        ghost var extended := map v | v in walks.Keys + next :: if v in walks then walks[v] else w + [v];
        forall v | v in found + next ensures IsWalk(adjList, extended[v], node, v) {
          if v !in walks {
            WalkExtend(adjList, w, node, n, v);
          }
        }
        walks := extended;
        found := found + next;
        queue := queue + next;
        searched := searched + {n};
        queue := queue - searched;
      }
    }

    /** The adjacency of the bound policy. */
    function GetAdjList(umis: seq<Barcode>, counts: Counts, threshold: int): (adj: AdjList)
      requires SameLength(Elems(umis)) && Elems(umis) <= counts.Keys
      ensures adj.Keys == Elems(umis) && KeysClosed(adj)
      ensures forall u, v :: u in adj ==> (v in adj[u] <==> v in umis && Linked(clusterMethod, u, v, counts, threshold))
      ensures clusterMethod == KMeans ==> Symmetric(adj)
    {
      if clusterMethod == Directional then AdjListDirectional(umis, counts, threshold)
      else
        KMeansSymmetric(umis, counts, threshold);
        AdjListKMeans(umis, counts, threshold)
    }

    /**
     * One breadth-first search per seed, seeds taken in non-increasing count
     * order and skipped when an earlier component already holds them.
     */
    method GetConnectedComponents(umis: seq<Barcode>, graph: AdjList, counts: Counts)
      returns (components: Components, ghost seeds: seq<Barcode>)
      requires graph.Keys == Elems(umis) && KeysClosed(graph) && graph.Keys <= counts.Keys
      ensures ComponentSearch(graph, counts, components, seeds)
    {
      var found: set<Barcode> := {};
      components := [];
      seeds := [];
      var order := SortByCount(umis, counts);
      SearchStart(umis, graph, counts, order);
      for i := 0 to |order|
        invariant SearchInvariant(graph, counts, order, i, found, components, seeds)
      {
        var node := order[i];
        if node !in found {
          var component := BreadthFirstSearch(node, graph);
          SearchExtend(graph, counts, order, i, found, components, seeds, component);
          found := found + component;
          components := components + [component];
          seeds := seeds + [node];
        } else {
          SearchSkip(graph, counts, order, i, found, components, seeds);
        }
      }
      SearchFinish(umis, graph, counts, order, found, components, seeds);
    }

    /**
     * The body of the directional reconciliation for one barcode: when several
     * components claim `umi`, it stays only in a component whose representative
     * is the greatest string among the claimants' representatives. Each loser
     * is looked up again by value (`components.index`), so the removal lands
     * on the first component equal to it.
     */
    method ResolveClaims(components: Components, umi: Barcode, counts: Counts) returns (result: Components)
      requires forall k :: 0 <= k < |components| ==> components[k] <= counts.Keys
      ensures |result| == |components|
      ensures forall k :: 0 <= k < |result| ==> result[k] == components[k] || result[k] == components[k] - {umi}
      ensures ClaimCount(result, umi) == if ClaimCount(components, umi) > 1 then 1 else ClaimCount(components, umi)
      ensures ClaimCount(components, umi) > 1 ==> KeptByGreatest(components, result, umi, counts)
      ensures result == Reconcile(components, umi, counts)
    {
      result := components;
      var parents := Claimants(components, umi);
      if |parents| > 1 {
        var reps := Reps(components, parents, counts);
        var indexRep := IndexOfMax(reps);
        ghost var w;
        ClaimantsOrdered(components, umi);
        result, w := DropLosers(components, umi, parents, indexRep);
        SoleHolder(result, umi, w);
        WinnerIsGreatest(components, umi, counts, reps, indexRep, result, w);
      }
    }

    /**
     * The inner loop of the reconciliation: `umi` is removed, for every
     * claimant but the winner at `indexRep`, from the first component equal
     * to that claimant's current value. Exactly one component, equal to the
     * winner's, keeps `umi`.
     */
    method DropLosers(components: Components, umi: Barcode, parents: seq<nat>, indexRep: nat)
      returns (result: Components, ghost w: nat)
      requires ClaimsOrdered(components, umi, parents) && ClaimsCover(components, umi, parents)
      requires indexRep < |parents|
      ensures result == Resolved(components, umi, parents, indexRep, |parents|)
      ensures forall k :: 0 <= k < |result| ==> result[k] == components[k] || result[k] == components[k] - {umi}
      ensures w < |result| && umi in result[w] && components[w] == components[parents[indexRep]]
      ensures forall k :: 0 <= k < |result| && umi in result[k] ==> k == w
    {
      result := components;
      for i := 0 to |parents|
        invariant result == Resolved(components, umi, parents, indexRep, i)
      {
        if i != indexRep {
          var k := FirstIndexOf(result, result[parents[i]]);
          result := result[k := result[k] - {umi}];
        }
      }
      w := ResolvedOutcome(components, umi, parents, indexRep);
    }

    /**
     * `_post_process_components_directional_`: resolves the claims on every
     * barcode of `umis` in turn, each against the components as earlier
     * resolutions left them (`history[n]` is the state `umis[n]` is resolved
     * against).
     */
    method PostProcessDirectional(umis: seq<Barcode>, components: Components, adjList: AdjList, counts: Counts)
      returns (result: Components, ghost history: seq<Components>)
      requires Distinct(umis)
      requires forall k :: 0 <= k < |components| ==> components[k] <= counts.Keys
      ensures result == ReconcileAll(umis, components, counts)
      ensures ReconciledClaims(umis, components, counts, result, history)
    {
      result := components;
      history := [];
      for n := 0 to |umis|
        invariant DirectionalInvariant(umis, components, counts, n, result, history)
        invariant result == ReconcileAll(umis[..n], components, counts)
      {
        var before := result;
        ReconcileAllPrefix(umis, components, counts, n);
        result := ResolveClaims(before, umis[n], counts);
        DirectionalStep(umis, components, counts, n, before, result, history);
        history := history + [before];
      }
      DirectionalFinish(umis, components, counts, result, history);
      assert umis[..|umis|] == umis;
    }

    /** Appends `cluster` once per sub-cluster found. */
    method AppendPerSubCluster(acc: Components, cluster: set<Barcode>, newClusters: seq<set<Barcode>>)
      returns (r: Components)
      ensures r == acc + Repeat(cluster, |newClusters|)
    {
      r := acc;
      for j := 0 to |newClusters|
        invariant r == acc + Repeat(cluster, j)
      {
        r := r + [cluster];
      }
    }

    /**
     * `_post_process_components_kmeans_`: singletons pass through; every other
     * cluster is appended unchanged once per sub-cluster the finder returns.
     */
    method PostProcessKMeans(umis: seq<Barcode>, components: Components, adjList: AdjList, counts: Counts)
      returns (newComponents: Components)
      requires forall c :: c in components ==> c <= adjList.Keys && c <= counts.Keys
      ensures newComponents == Expand(components, adjList, counts, findClusters)
      ensures forall c :: c in newComponents ==> c in components
    {
      newComponents := [];
      for i := 0 to |components|
        invariant newComponents == Expand(components[..i], adjList, counts, findClusters)
      {
        var cluster := components[i];
        ExpandPrefix(components, i, adjList, counts, findClusters);
        if |cluster| == 1 {
          newComponents := newComponents + [cluster];
          assert [cluster] == Repeat(cluster, 1);
        } else {
          var countsRestricted := Restrict(counts, cluster);
          var adjListRestricted := Restrict(adjList, cluster);
          var newClusters := findClusters(adjListRestricted, countsRestricted, 1);
          newComponents := AppendPerSubCluster(newComponents, cluster, newClusters);
        }
      }
      ExpandAllOriginals(components, adjList, counts, findClusters);
    }

    /** The clusters the bound policy's post-processor makes of `components`. */
    function PostProcessed(umis: seq<Barcode>, components: Components, adjList: AdjList, counts: Counts): Components
      requires forall c :: c in components ==> c <= adjList.Keys && c <= counts.Keys
    {
      if clusterMethod == Directional then ReconcileAll(umis, components, counts)
      else Expand(components, adjList, counts, findClusters)
    }

    /** The post-processor of the bound policy. */
    method PostProcessComponents(umis: seq<Barcode>, components: Components, adjList: AdjList, counts: Counts)
      returns (clusters: Components, ghost history: seq<Components>)
      requires Distinct(umis)
      requires forall c :: c in components ==> c <= adjList.Keys && c <= counts.Keys
      ensures clusters == PostProcessed(umis, components, adjList, counts)
      ensures forall c :: c in clusters ==> exists j :: 0 <= j < |components| && c <= components[j]
      ensures clusterMethod == Directional ==> ReconciledClaims(umis, components, counts, clusters, history)
      ensures clusterMethod == KMeans ==> forall c :: c in clusters ==> c in components
    {
      if clusterMethod == Directional {
        clusters, history := PostProcessDirectional(umis, components, adjList, counts);
        forall c | c in clusters ensures exists j :: 0 <= j < |components| && c <= components[j] {
          var j :| 0 <= j < |clusters| && clusters[j] == c;
        }
      } else {
        history := [];
        clusters := PostProcessKMeans(umis, components, adjList, counts);
        forall c | c in clusters ensures exists j :: 0 <= j < |components| && c <= components[j] {
          var j :| 0 <= j < |components| && components[j] == c;
        }
      }
    }

    /**
     * The comprehension of `reduce_clusters` for one cluster: each read of
     * each member other than `parentUmi`, paired with `parentUmi`.
     */
    method ClusterReads<R>(bundle: Bundle<R>, cluster: set<Barcode>, parentUmi: Barcode)
      returns (emitted: seq<(R, Barcode)>)
      requires cluster <= bundle.Keys
      ensures multiset(emitted) == ClusterPairs(bundle, cluster, parentUmi)
    {
      emitted := [];
      var rest := cluster;
      while rest != {}
        invariant rest <= cluster
        invariant multiset(emitted) + ClusterPairs(bundle, rest, parentUmi) == ClusterPairs(bundle, cluster, parentUmi)
        decreases rest
      {
        var umi :| umi in rest;
        ClusterPairsPick(bundle, rest, parentUmi, umi);
        if umi != parentUmi {
          emitted := emitted + Tag(bundle[umi], parentUmi);
        }
        rest := rest - {umi};
      }
    }

    /**
     * `reduce_clusters`: for each cluster of more than one barcode, the reads
     * of every member other than the representative, paired with the
     * representative.
     */
    method ReduceClusters<R>(bundle: Bundle<R>, clusters: Components, counts: Counts)
      returns (reassigned: seq<(R, Barcode)>)
      requires forall c :: c in clusters ==> c <= bundle.Keys && c <= counts.Keys
      ensures multiset(reassigned) == AllPairs(bundle, clusters, counts)
    {
      reassigned := [];
      for i := 0 to |clusters|
        invariant multiset(reassigned) == AllPairs(bundle, clusters[..i], counts)
      {
        var cluster := clusters[i];
        AllPairsPrefix(bundle, clusters, counts, i);
        if |cluster| > 1 {
          var parentUmi := GetBest(cluster, counts);
          var emitted := ClusterReads(bundle, cluster, parentUmi);
          reassigned := reassigned + emitted;
        }
      }
      assert clusters[..|clusters|] == clusters;
    }

    /**
     * `clusters` is what the pipeline makes of `umis` at `threshold`: the
     * components of the bound policy's adjacency, found from `seeds`, then
     * post-processed.
     */
    ghost predicate Clustered(umis: seq<Barcode>, counts: Counts, threshold: int,
                              components: Components, seeds: seq<Barcode>, clusters: Components)
      requires SameLength(Elems(umis)) && Elems(umis) <= counts.Keys
    {
      var graph := GetAdjList(umis, counts, threshold);
      ComponentSearch(graph, counts, components, seeds) &&
      (forall c :: c in components ==> c <= graph.Keys && c <= counts.Keys) &&
      clusters == PostProcessed(umis, components, graph, counts)
    }

    /**
     * The clusters `__call__` hands to the reduction: adjacency, components
     * and post-processing. Each cluster is drawn from the bundle, and when no
     * two distinct barcodes are `threshold` apart every cluster holds at most
     * one barcode.
     */
    method GetClusters(umis: seq<Barcode>, counts: Counts, threshold: int)
      returns (clusters: Components, ghost components: Components, ghost seeds: seq<Barcode>)
      requires Distinct(umis) && SameLength(Elems(umis)) && Elems(umis) <= counts.Keys
      ensures Clustered(umis, counts, threshold, components, seeds, clusters)
      ensures forall c :: c in clusters ==> c <= Elems(umis)
      ensures clusterMethod == Directional ==> forall u :: u in umis ==> ClaimCount(clusters, u) == 1
      ensures (forall u, v :: u in umis && v in umis && u != v ==> Hamming(u, v) != threshold) ==>
        forall c :: c in clusters ==> |c| <= 1
    {
      var adjList := GetAdjList(umis, counts, threshold);
      var comps;
      comps, seeds := GetConnectedComponents(umis, adjList, counts);
      components := comps;
      forall c | c in comps ensures c <= adjList.Keys && c <= counts.Keys {
        var j :| 0 <= j < |comps| && comps[j] == c;
      }
      ghost var history;
      clusters, history := PostProcessComponents(umis, comps, adjList, counts);
      if forall u, v :: u in umis && v in umis && u != v ==> Hamming(u, v) != threshold {
        forall u, v | Edge(adjList, u, v) ensures u == v {
          assert v in umis && Linked(clusterMethod, u, v, counts, threshold);
        }
        IsolatedClusters(adjList, components, seeds, clusters);
      }
    }

    /**
     * The stages of `__call__` once the lengths are checked: the read counts,
     * the clusters, then their reduction to (read, representative) pairs.
     */
    method ReadsToModify<R>(bundle: Bundle<R>, umis: seq<Barcode>, threshold: int)
      returns (reassigned: seq<(R, Barcode)>,
               ghost components: Components, ghost seeds: seq<Barcode>, ghost clusters: Components)
      requires Elems(umis) == bundle.Keys && Distinct(umis) && SameLength(bundle.Keys)
      ensures Clustered(umis, ReadCounts(bundle), threshold, components, seeds, clusters)
      ensures forall c :: c in clusters ==> c <= bundle.Keys
      ensures multiset(reassigned) == AllPairs(bundle, clusters, ReadCounts(bundle))
      ensures clusterMethod == Directional ==> forall u :: u in bundle ==> ClaimCount(clusters, u) == 1
      ensures forall p :: p in reassigned ==>
        p.1 in bundle && exists u :: u in bundle && u != p.1 && p.0 in bundle[u] && |bundle[u]| <= |bundle[p.1]|
      ensures (forall u, v :: u in bundle && v in bundle && u != v ==> Hamming(u, v) != threshold) ==>
        reassigned == []
    {
      var counts := ReadCounts(bundle);
      ReadCountsOf(bundle);
      var found;
      found, components, seeds := GetClusters(umis, counts, threshold);
      clusters := found;
      reassigned := ReduceClusters(bundle, found, counts);
      ReassignedShape(bundle, clusters, counts, reassigned);
      if forall u, v :: u in bundle && v in bundle && u != v ==> Hamming(u, v) != threshold {
        AllPairsOfSingletons(bundle, clusters, counts);
        assert multiset(reassigned) == multiset{};
      }
    }

    /**
     * `__call__`: checks the barcode lengths, derives the counts, and runs the
     * adjacency, component, post-processing and reduction stages.
     */
    method Call<R>(bundle: Bundle<R>, threshold: int)
      returns (result: Result<seq<(R, Barcode)>>, ghost umis: seq<Barcode>,
               ghost components: Components, ghost seeds: seq<Barcode>, ghost clusters: Components)
      ensures result.Failure? && result.error == EmptyBundle <==> |bundle| == 0
      ensures result.Failure? && result.error.LengthMismatch? <==> |bundle| > 0 && !SameLength(bundle.Keys)
      ensures result.Failure? && result.error.LengthMismatch? ==>
        (exists a :: a in bundle && |a| == result.error.shortest) &&
        (exists b :: b in bundle && |b| == result.error.longest) &&
        forall u :: u in bundle ==> result.error.shortest <= |u| <= result.error.longest
      ensures result.Success? ==> forall p :: p in result.value ==>
        p.1 in bundle && exists u :: u in bundle && u != p.1 && p.0 in bundle[u] && |bundle[u]| <= |bundle[p.1]|
      ensures (result.Success? &&
        forall u, v :: u in bundle && v in bundle && u != v && |u| == |v| ==> Hamming(u, v) != threshold) ==>
          result.value == []
      ensures result.Success? && threshold == 0 ==> result.value == []
      ensures result.Success? ==>
        Elems(umis) == bundle.Keys && Distinct(umis) && SameLength(bundle.Keys) &&
        (forall c :: c in clusters ==> c <= bundle.Keys) &&
        Clustered(umis, ReadCounts(bundle), threshold, components, seeds, clusters) &&
        multiset(result.value) == AllPairs(bundle, clusters, ReadCounts(bundle))
      ensures result.Success? && clusterMethod == Directional ==>
        forall u :: u in bundle ==> ClaimCount(clusters, u) == 1
    {
      var keys := KeyList(bundle);
      umis, components, seeds, clusters := keys, [], [], [];
      if |keys| == 0 {
        assert bundle.Keys == {};
        result := Failure(EmptyBundle);
        return;
      }
      assert keys[0] in bundle;
      var lenUmis := Lengths(keys);
      UniformWhenMaxIsMin(keys);
      LengthBounds(keys, bundle.Keys);
      if MaxOf(lenUmis) != MinOf(lenUmis) {
        result := Failure(LengthMismatch(MinOf(lenUmis), MaxOf(lenUmis)));
        return;
      }
      var reassigned;
      reassigned, components, seeds, clusters := ReadsToModify(bundle, keys, threshold);
      result := Success(reassigned);
      if threshold == 0 {
        ZeroThresholdIsolated(keys);
      }
    }
  }
}
