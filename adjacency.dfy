/**
 * The two adjacency policies of the clustering engine. Both compare every
 * ordered pair of barcodes of the bundle (including a barcode with itself)
 * and keep the second one in the first one's list, in the order of `umis`.
 */
module Adjacency {
  import opened Barcodes
  import opened Graph

  /** Read count per barcode. */
  type Counts = map<Barcode, nat>

  /** The policy chosen when the engine is constructed. */
  datatype ClusterMethod = Directional | KMeans

  /**
   * The condition under which `v` is listed as adjacent to `u`: the Hamming
   * distance equals the threshold and, for the directional policy only, the
   * count of `u` is at least twice the count of `v` minus one.
   */
  predicate Linked(policy: ClusterMethod, u: Barcode, v: Barcode, counts: Counts, threshold: int)
    requires |u| == |v| && u in counts && v in counts
  {
    Hamming(u, v) == threshold && (policy == KMeans || counts[u] >= 2 * (counts[v] as int) - 1)
  }

  /** The list comprehension over `candidates` for one barcode `u`. */
  function Neighbours(policy: ClusterMethod, u: Barcode, candidates: seq<Barcode>, counts: Counts, threshold: int): (r: seq<Barcode>)
    requires u in counts
    requires forall v :: v in candidates ==> v in counts && |v| == |u|
    ensures |r| <= |candidates|
    ensures forall v :: v in r <==> v in candidates && Linked(policy, u, v, counts, threshold)
  {
    if candidates == [] then []
    else
      var rest := Neighbours(policy, u, candidates[1..], counts, threshold);
      assert forall v :: v in candidates <==> v == candidates[0] || v in candidates[1..];
      if Linked(policy, u, candidates[0], counts, threshold) then [candidates[0]] + rest else rest
  }

  /** Directional adjacency: an edge from the more abundant barcode only. */
  function AdjListDirectional(umis: seq<Barcode>, counts: Counts, threshold: int): (adj: AdjList)
    requires SameLength(Elems(umis)) && Elems(umis) <= counts.Keys
    ensures adj.Keys == Elems(umis)
    ensures KeysClosed(adj)
    ensures forall u, v :: u in adj ==>
      (v in adj[u] <==> v in umis && Hamming(u, v) == threshold && counts[u] >= 2 * (counts[v] as int) - 1)
  {
    map u | u in umis :: Neighbours(Directional, u, umis, counts, threshold)
  }

  /** Count-agnostic adjacency, the coarse input of the k-means refinement. */
  function AdjListKMeans(umis: seq<Barcode>, counts: Counts, threshold: int): (adj: AdjList)
    requires SameLength(Elems(umis)) && Elems(umis) <= counts.Keys
    ensures adj.Keys == Elems(umis)
    ensures KeysClosed(adj)
    ensures forall u, v :: u in adj ==> (v in adj[u] <==> v in umis && Hamming(u, v) == threshold)
  {
    map u | u in umis :: Neighbours(KMeans, u, umis, counts, threshold)
  }

  /** The k-means adjacency is symmetric, because the Hamming distance is. */
  lemma KMeansSymmetric(umis: seq<Barcode>, counts: Counts, threshold: int)
    requires SameLength(Elems(umis)) && Elems(umis) <= counts.Keys
    ensures Symmetric(AdjListKMeans(umis, counts, threshold))
  {
    var adj := AdjListKMeans(umis, counts, threshold);
    forall u, v | Edge(adj, u, v) ensures Edge(adj, v, u) {
      HammingSymmetric(u, v);
    }
  }

  /**
   * The directional adjacency is not symmetric in general: with counts 3 and 1
   * one Hamming step apart, the abundant barcode lists the rare one but not
   * the other way round.
   */
  lemma DirectionalAsymmetric()
    ensures var adj := AdjListDirectional(["AA", "AT"], map["AA" := 3, "AT" := 1], 1);
      Edge(adj, "AA", "AT") && !Edge(adj, "AT", "AA")
  {
    var umis := ["AA", "AT"];
    var adj := AdjListDirectional(umis, map["AA" := 3, "AT" := 1], 1);
    assert "AA" in umis && "AT" in umis;
    assert Hamming("AA", "AT") == 1 by {
      assert "AA"[1..] == "A" && "AT"[1..] == "T";
      assert "A"[1..] == [] && "T"[1..] == [];
    }
  }

  /**
   * When no two distinct barcodes are exactly `threshold` apart, a barcode can
   * be adjacent to nothing but itself. With threshold 0 this always holds.
   */
  lemma IsolatedAdjacency(policy: ClusterMethod, umis: seq<Barcode>, counts: Counts, threshold: int)
    requires SameLength(Elems(umis)) && Elems(umis) <= counts.Keys
    requires forall u, v :: u in umis && v in umis && u != v ==> Hamming(u, v) != threshold
    ensures var adj := if policy == Directional then AdjListDirectional(umis, counts, threshold)
                       else AdjListKMeans(umis, counts, threshold);
      forall u, v :: Edge(adj, u, v) ==> u == v
  {
  }

  lemma ZeroThresholdIsolated(umis: seq<Barcode>)
    requires SameLength(Elems(umis))
    ensures forall u, v :: u in umis && v in umis && u != v ==> Hamming(u, v) != 0
  {
  }

  /**
   * With threshold 0 the lists are not free of self-loops: every barcode is at
   * distance 0 from itself, so the k-means policy lists it, and the directional
   * policy lists it exactly when its count is at most 1.
   */
  lemma ZeroThresholdSelfLoops(umis: seq<Barcode>, counts: Counts, u: Barcode)
    requires SameLength(Elems(umis)) && Elems(umis) <= counts.Keys && u in umis
    ensures Edge(AdjListKMeans(umis, counts, 0), u, u)
    ensures Edge(AdjListDirectional(umis, counts, 0), u, u) <==> counts[u] <= 1
  {
  }
}
