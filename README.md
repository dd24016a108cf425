# UMI error-correction clustering engine, modelled in Dafny

This project models `ClusterAndReducer` in `lib/sequence_error.py`. It is the
UMI error-correction engine of a read-deduplication tool. The engine takes one
bundle: the reads at one genomic position, grouped by their UMI barcode. It
then does the following:

1. It checks that all barcodes have the same length.
2. It counts the reads per barcode.
3. It builds an adjacency list under the policy chosen at construction:
   - directional: `v` is listed under `u` when the Hamming distance equals
     the threshold and `count(u) >= 2 * count(v) - 1`;
   - k-means: the Hamming condition alone.
4. It finds components by breadth-first search, seeding in descending count
   order.
5. It post-processes them:
   - directional: each barcode claimed by several components stays only in
     one of them;
   - k-means: each multi-member cluster is handed to an external sub-cluster
     finder.
6. Finally it emits, for every cluster of more than one barcode, one
   (read, representative) pair per read of every other member.

Modules, one per concern:

- `Barcodes`: barcodes as strings, Hamming distance, Python's string order,
  the length check.
- `Graph`: adjacency lists, directed walks, reachability, closed sets.
- `Adjacency`: the two adjacency policies.
- `Ranking`: the representative (`get_best`), the first position of the
  greatest representative, and the stable descending-count sort.
- `Claims`: which components hold a barcode. Also the by-value lookup
  `list.index`.
- `Resolution`: the inner loop of the directional reconciliation. Its proof
  tracks which position stands for which claimant.
- `Reassignment`: the pairs the reducer emits, as a multiset.
- `SequenceError`: the engine itself. It is the class `ClusterAndReducer`,
  whose methods are the source's methods. The loops in those methods are
  loops here.
- `WorkedExample`: the directional policy on the bundle AAAA:10, AAAT:1,
  TTTT:8 at threshold 1, derived from the contract of `Call` alone.

`Call` returns, besides its result, the key order, components, seeds and
clusters behind it as ghost values. On success they satisfy
`ClusterAndReducer.Clustered`: the components are what the component search
promises over the policy's adjacency (`ComponentSearch`), and the clusters
are their post-processing (`PostProcessed`: the fold `ReconcileAll` under the
directional policy, `Expand` under k-means). The emitted pairs are, as a
multiset, exactly `AllPairs` of those clusters.

The model follows the code where it does something other than its comments
and names suggest:

- The directional reconciliation keeps the claimant whose representative is
  the greatest string (`max` over barcodes). The comment beside it speaks of
  the highest count. `Resolution.WinnerIsGreatest` states what the code does.
- Components are found by following outgoing edges only. They cover every
  barcode (`ClaimCount > 0`). They are guaranteed to be pairwise disjoint
  when the adjacency is symmetric, as under the k-means policy. Under the directional
  policy a barcode can lie in several components; the reconciliation then
  leaves it in exactly one.
- The k-means post-processor never splits a cluster. It appends the original
  cluster once per sub-cluster found, and drops it when none is found.
- At threshold 0 the k-means policy lists every barcode under itself; the
  directional policy does so only for a barcode with at most one read (see
  `Adjacency.ZeroThresholdSelfLoops`). No two distinct barcodes are adjacent,
  so the call emits nothing.
- An empty bundle fails: the maximum of an empty list of lengths raises.
  This is the `EmptyBundle` error of `Call`.

The reconciliation removes a loser's barcode from `components[components.index(c)]`:
the first component equal to `c`, which is not always `c` itself. The model
keeps this by-value lookup. `Resolution.ResolveStep` shows that the removal
always finds the barcode, so `.remove` never raises. `Resolution.ResolvedOutcome`
shows that exactly one component keeps it, and that this component equals the
winner's.

## Model

| member | source | states |
|---|---|---|
| Barcodes.HammingSymmetric | lib/sequence_error.py:48-50 | the Hamming distance of two equal-length barcodes does not depend on their order |
| Barcodes.MinOf | lib/sequence_error.py:157-159 | `min` of a non-empty list is an element of it and no greater than any element |
| Barcodes.MaxOf | lib/sequence_error.py:157-159 | `max` of a non-empty list is an element of it and no smaller than any element |
| Barcodes.UniformWhenMaxIsMin | lib/sequence_error.py:156-157 | the length check passes exactly when all barcodes of the bundle have the same length |
| Barcodes.LengthBounds | lib/sequence_error.py:157-159 | the two lengths in the failure message are taken by barcodes of the bundle and bound every barcode's length |
| Adjacency.Neighbours | lib/sequence_error.py:48-51 | a barcode's list holds exactly the candidates satisfying the policy's condition, and is no longer than the candidate list |
| Adjacency.AdjListDirectional | lib/sequence_error.py:44-51 | one list per barcode; `v` is listed under `u` iff `v` is a barcode, the Hamming distance equals the threshold and `count(u) >= 2*count(v) - 1`; every listed barcode is a key |
| Adjacency.AdjListKMeans | lib/sequence_error.py:53-59 | one list per barcode; `v` is listed under `u` iff the Hamming distance equals the threshold; every listed barcode is a key |
| Adjacency.KMeansSymmetric | lib/sequence_error.py:57-59 | the k-means adjacency is symmetric |
| Adjacency.DirectionalAsymmetric | lib/sequence_error.py:48-51 | with counts 3 and 1 one step apart, the abundant barcode lists the rare one and not the other way round |
| Adjacency.IsolatedAdjacency | lib/sequence_error.py:44-59 | when no two distinct barcodes are exactly `threshold` apart, every edge of either policy is a self-loop |
| Adjacency.ZeroThresholdIsolated | lib/sequence_error.py:48-50 | at threshold 0, no two distinct barcodes of equal length are at the threshold distance |
| Adjacency.ZeroThresholdSelfLoops | lib/sequence_error.py:48-59 | at threshold 0 the k-means policy lists every barcode under itself, and the directional policy does so exactly when its count is at most 1 |
| Graph.ClosedContainsReachable | lib/sequence_error.py:31-36 | a set closed under outgoing edges contains everything reachable from its members |
| Graph.SymmetricReachable | lib/sequence_error.py:103-115 | on a symmetric graph reachability runs both ways |
| Ranking.GetBest | lib/sequence_error.py:117-124 | the representative is a member of the cluster whose count is at least that of every member |
| Ranking.GetBestSingleton | lib/sequence_error.py:119-120 | a singleton's representative is its only member |
| Ranking.IndexOfMax | lib/sequence_error.py:71-72 | the chosen index is the first position holding the greatest string of the representatives |
| Ranking.InsertByCount | lib/sequence_error.py:109 | inserting keeps the list a permutation plus the new element and keeps counts non-increasing |
| Ranking.SortByCount | lib/sequence_error.py:109 | the seed order is a permutation of the barcodes with non-increasing counts |
| Claims.Claimants | lib/sequence_error.py:68 | the parent clusters of a barcode are exactly the positions holding it, in increasing order |
| Claims.ClaimantsAgree | lib/sequence_error.py:68 | the parent clusters depend only on which positions hold the barcode |
| Claims.SoleHolder | lib/sequence_error.py:68-69 | a barcode held at one position only has exactly that one parent cluster |
| Claims.FirstIndexOf | lib/sequence_error.py:75 | `components.index(c)` is a position holding a set equal to `c` |
| Claims.FirstIndexOfFirst | lib/sequence_error.py:75 | no earlier position holds a set equal to `c` |
| Resolution.ClassOfEqual | lib/sequence_error.py:75 | two positions are looked up to the same first position exactly when they hold equal sets |
| Resolution.StripRemove | lib/sequence_error.py:75 | removing the barcode at one more position extends the set of stripped positions by that position |
| Resolution.KeptByGreatestShrinks | lib/sequence_error.py:65-77 | later removals keep "only components with the greatest representative hold the barcode" true |
| Resolution.WinnerIsGreatest | lib/sequence_error.py:70-72 | the component that keeps the barcode has a representative no smaller, as a string, than any claimant's |
| Resolution.ResolveOne | lib/sequence_error.py:74-75 | handling one claimant keeps the number of components |
| Resolution.Resolved | lib/sequence_error.py:73-75 | handling the first `i` claimants keeps the number of components |
| Resolution.ResolveStep | lib/sequence_error.py:75 | the component looked up for a loser still holds the barcode, so `.remove` never fails, and the bookkeeping invariant is kept |
| Resolution.ResolveSkip | lib/sequence_error.py:74 | skipping the winner keeps the invariant |
| Resolution.ResolveNext | lib/sequence_error.py:73-75 | one iteration of the inner loop advances the resolution by one claimant and keeps the invariant |
| Resolution.ResolveFinish | lib/sequence_error.py:73-75 | after the loop, exactly one position holds the barcode; it holds a set equal to the winner's, and every other component lost at most that barcode |
| Resolution.ResolvedOutcome | lib/sequence_error.py:71-75 | after the inner loop every component lost at most the barcode, and exactly one position, equal to the winner's component, still holds it |
| Resolution.ResolvedShrinks | lib/sequence_error.py:73-75 | handling claimants only ever removes members of components |
| Resolution.Reconcile | lib/sequence_error.py:67-75 | resolving one barcode's claims keeps the number of components and only removes members |
| Resolution.ReconcileAll | lib/sequence_error.py:65-77 | resolving each barcode of `umis` in turn keeps the number of components and only removes members |
| Resolution.ReconcileAllPrefix | lib/sequence_error.py:67-75 | resolving one more barcode extends the fold by one resolution step |
| Resolution.ReconcileAllIdle | lib/sequence_error.py:67-69 | when every barcode of `umis` is claimed at most once, the reconciliation leaves the components unchanged |
| Reassignment.ClusterPairsPick | lib/sequence_error.py:135 | the pairs of a cluster do not depend on the order its members are visited in |
| Reassignment.ClusterPairsSize | lib/sequence_error.py:133-135 | a cluster emits as many pairs as the members other than the representative have reads |
| Reassignment.ClusterPairsShape | lib/sequence_error.py:135 | every pair names the representative and a read of another member of the cluster |
| Reassignment.AllPairsPrefix | lib/sequence_error.py:131-135 | the pairs of one more cluster are appended to those of the clusters before it |
| Reassignment.AllPairsShape | lib/sequence_error.py:126-137 | every pair maps a read of a member of a multi-member cluster to that cluster's representative, which is another barcode with at least as many reads |
| Reassignment.AllPairsOfSingletons | lib/sequence_error.py:131-135 | clusters of at most one barcode emit nothing |
| Reassignment.ReadCountsOf | lib/sequence_error.py:161 | the derived counts have the bundle's barcodes as keys and give each its number of reads |
| SequenceError.ExpandPrefix | lib/sequence_error.py:83-95 | one loop step of the k-means post-processor appends the current cluster's copies to the output so far |
| SequenceError.ExpandSnoc | lib/sequence_error.py:83-95 | expanding one more cluster appends its copies |
| SequenceError.ExpandOnlyOriginals | lib/sequence_error.py:79-97 | the k-means post-processor outputs only clusters it was given |
| SequenceError.ExpandAllOriginals | lib/sequence_error.py:79-97 | every output cluster of the k-means post-processor is an input cluster |
| SequenceError.ExpandMultiplicity | lib/sequence_error.py:79-97 | each cluster is output as often as it occurs times its number of copies: once for a singleton, once per sub-cluster found otherwise |
| SequenceError.RepeatMultiplicity | lib/sequence_error.py:94-95 | `n` copies of `d` contain `c` `n` times if `c == d`, else never |
| SequenceError.KeyList | lib/sequence_error.py:154 | the keys of the bundle, each exactly once |
| SequenceError.NewComponentDisjoint | lib/sequence_error.py:110-113 | on a symmetric graph, a search that meets an earlier component was seeded inside it |
| SequenceError.SearchStart | lib/sequence_error.py:106-109 | the search invariant holds before the first seed |
| SequenceError.SearchSkip | lib/sequence_error.py:110 | a seed already found is skipped and the invariant is kept |
| SequenceError.SearchExtend | lib/sequence_error.py:110-113 | a new seed opens a component searched from it, seeds stay in descending count order, and disjointness is kept on a symmetric graph |
| SequenceError.SearchComplete | lib/sequence_error.py:103-115 | once all seeds are passed, each component is exactly the set reachable from its seed, and no seed lies in an earlier component |
| SequenceError.SortedKeys | lib/sequence_error.py:109 | the seed order lists exactly the barcodes of the graph |
| SequenceError.SearchCovers | lib/sequence_error.py:103-115 | every barcode of the graph lies in some component |
| SequenceError.SearchFinish | lib/sequence_error.py:103-115 | the finished search meets `ComponentSearch`, the promise listed under `GetConnectedComponents` |
| SequenceError.DirectionalStep | lib/sequence_error.py:67-75 | resolving one more barcode keeps the reconciliation invariant: only handled barcodes are removed, each handled barcode is held exactly once, and the removals keep the greatest representative |
| SequenceError.DirectionalFinish | lib/sequence_error.py:65-77 | once every barcode is resolved, the loop invariant gives the whole promise of the reconciliation |
| SequenceError.IsolatedClusters | lib/sequence_error.py:163-165 | when every edge is a self-loop, every cluster holds at most one barcode |
| SequenceError.ReassignedShape | lib/sequence_error.py:126-137 | every emitted pair maps a read of another barcode of the bundle to a representative with at least as many reads |
| SequenceError.ClusterAndReducer.constructor | lib/sequence_error.py:140-149 | the engine is bound to the chosen policy and sub-cluster finder |
| SequenceError.ClusterAndReducer.BreadthFirstSearch | lib/sequence_error.py:24-38 | the result holds the start node, is closed under outgoing edges, and holds only nodes reachable from the start |
| SequenceError.ClusterAndReducer.GetAdjList | lib/sequence_error.py:143-149 | the adjacency of the bound policy; symmetric under k-means |
| SequenceError.ClusterAndReducer.GetConnectedComponents | lib/sequence_error.py:103-115 | `ComponentSearch`: each component is exactly the set reachable from its seed; no seed lies in an earlier component; seeds come in non-increasing count order; every barcode lies in some component; on a symmetric graph the components are disjoint |
| SequenceError.ClusterAndReducer.ResolveClaims | lib/sequence_error.py:67-75 | the result is `Reconcile` of the input; a barcode claimed by several components ends up in exactly one, and only components with the greatest representative keep it; nothing else changes; a barcode with at most one claim is left alone |
| SequenceError.ClusterAndReducer.DropLosers | lib/sequence_error.py:73-75 | the inner loop's result is the step-by-step resolution; exactly one component, equal to the winner's, keeps the barcode; every other component lost at most that barcode |
| SequenceError.ClusterAndReducer.PostProcessDirectional | lib/sequence_error.py:65-77 | the result is the fold `ReconcileAll` over `umis`; components only shrink, and only by barcodes of `umis`; every barcode of `umis` that was claimed ends up in exactly one component; each barcode's resolution keeps only components with the greatest representative |
| SequenceError.ClusterAndReducer.AppendPerSubCluster | lib/sequence_error.py:94-95 | the cluster is appended once per sub-cluster |
| SequenceError.ClusterAndReducer.PostProcessKMeans | lib/sequence_error.py:79-97 | the output is each input cluster repeated by its number of copies, in order; only input clusters are output |
| SequenceError.ClusterAndReducer.PostProcessComponents | lib/sequence_error.py:145-149 | the result is `PostProcessed`: the directional fold or the k-means expansion; every output cluster lies inside some component; under directional the whole promise of `PostProcessDirectional` holds (pointwise shrinking, one holder per claimed barcode, greatest representative kept); under k-means only input clusters are output |
| SequenceError.ClusterAndReducer.ClusterReads | lib/sequence_error.py:135 | the pairs of one cluster: every read of every member other than the representative, paired with the representative |
| SequenceError.ClusterAndReducer.ReduceClusters | lib/sequence_error.py:126-137 | the emitted pairs are, as a multiset, those of every multi-member cluster |
| SequenceError.ClusterAndReducer.GetClusters | lib/sequence_error.py:163-165 | the clusters, with the components and seeds behind them, satisfy `Clustered`: the components meet the search promise over the policy's adjacency and the clusters are their post-processing; under directional every barcode lies in exactly one cluster; every cluster is drawn from the bundle's barcodes; when no two distinct barcodes are `threshold` apart every cluster holds at most one barcode |
| SequenceError.ClusterAndReducer.ReadsToModify | lib/sequence_error.py:161-166 | with the bundle's read counts, the clusters behind the result satisfy `Clustered` and the pairs are, as a multiset, exactly `AllPairs` of them; under directional every barcode lies in exactly one cluster; every pair maps a read of another barcode to a representative with at least as many reads; no pairs when no two distinct barcodes are `threshold` apart |
| SequenceError.ClusterAndReducer.Call | lib/sequence_error.py:152-168 | fails on an empty bundle and on mixed lengths, with the shortest and longest length; on success the key order, components, seeds and clusters behind the result satisfy `Clustered` for the bundle's read counts and the pairs are exactly `AllPairs` of those clusters; under directional every barcode lies in exactly one cluster; every pair maps a read to a barcode with at least as many reads; nothing is emitted when no barcodes are `threshold` apart, in particular at threshold 0 |
| WorkedExample.ExampleDistances | lib/sequence_error.py:48-50 | the Hamming distances between AAAA, AAAT and TTTT: 1, 4 and 3 |
| WorkedExample.ExampleLinked | lib/sequence_error.py:48-51 | of the nine ordered pairs only AAAA -> AAAT meets the directional condition (10 >= 2*1 - 1, but not 1 >= 2*10 - 1) |
| WorkedExample.ExampleEdges | lib/sequence_error.py:44-51 | the directional adjacency of the example has the single edge AAAA -> AAAT, whatever the key order |
| WorkedExample.ExampleReach | lib/sequence_error.py:24-38 | from AAAA nothing but AAAA and AAAT is reachable; from any other barcode nothing but itself |
| WorkedExample.ExampleSearch | lib/sequence_error.py:24-38 | a search from AAAA collects {AAAA, AAAT}; a search from any other barcode collects only that barcode |
| WorkedExample.ExampleComponentShape | lib/sequence_error.py:103-115 | each component is the set its seed reaches |
| WorkedExample.ExampleSeeds | lib/sequence_error.py:109-113 | every seed is AAAA or TTTT and no seed repeats: AAAT lies in AAAA's component and has fewer reads |
| WorkedExample.ExampleOrder | lib/sequence_error.py:109 | the seeds are AAAA then TTTT, in descending count order |
| WorkedExample.ExampleComponents | lib/sequence_error.py:103-115 | the components are [{AAAA, AAAT}, {TTTT}] with seeds AAAA and TTTT |
| WorkedExample.ExampleReadCounts | lib/sequence_error.py:161 | the example's read counts are 10, 1 and 8 |
| WorkedExample.ExampleClaims | lib/sequence_error.py:68 | no barcode lies in both components |
| WorkedExample.ExamplePairs | lib/sequence_error.py:126-137 | the two clusters emit exactly one pair: AAAT's read, reassigned to AAAA |
| WorkedExample.DirectionalExample | lib/sequence_error.py:152-168 | whatever the key order, any outcome that a successful directional call at threshold 1 on the example promises (`Clustered`) leaves the components as clusters and emits exactly the one pair (read of AAAT, AAAA) |

## Left out

- The k-means module (`find_clusters`, `hamming`) is not part of this model. `find_clusters` is a function value given to the constructor, and only the length of its result is used. `hamming` is modelled as the number of differing positions of two equal-length strings.
- UTF-8 encoding before the distance: barcodes are modelled as strings of characters, compared position by position.
- A `cluster_method` other than "directional" or "kmeans" leaves the engine without methods. The model's policy is an enumeration of the two, so that case cannot arise.
- Ranking.GetBest: the source returns the first member of a stable descending-count sort over the set's iteration order. The model breaks equal-count ties by taking the greatest string, and its contract promises only a member of maximal count.
- Dictionary and set iteration order is unspecified. `KeyList` picks the key order with `:|`, and the search picks the next queue element with `:|`. The reducer's pairs are specified as a multiset, not a list.
- Mutation in place: the component list is passed in and returned as a sequence value. The model does not capture that the caller's list and its sets are altered. Lookup by value is kept, including removals that land on an earlier equal set.
- The threshold is any integer. The default value 1 of `__call__` is not modelled.
- The constructor's default `cluster_method="kmeans"` (lib/sequence_error.py:140) is not modelled: the policy is always passed explicitly.
- The caller `dedup.py` is not part of this model. Neither is the unused `imap` import.
