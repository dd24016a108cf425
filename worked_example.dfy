/**
 * The directional policy on a small bundle at threshold 1: barcodes AAAA,
 * AAAT and TTTT with 10, 1 and 8 reads. AAAT is one substitution away from
 * AAAA and rare enough to be absorbed by it; TTTT is far from both. Whatever
 * the key order, `Call` then reassigns exactly one read: AAAT's, to AAAA.
 */
module WorkedExample {
  import opened Barcodes
  import opened Graph
  import opened Adjacency
  import opened Ranking
  import opened Claims
  import opened Resolution
  import opened Reassignment
  import opened SequenceError

  /** The read counts of the example. */
  ghost predicate ExampleCounts(counts: Counts)
  {
    counts.Keys == {"AAAA", "AAAT", "TTTT"} &&
    counts["AAAA"] == 10 && counts["AAAT"] == 1 && counts["TTTT"] == 8
  }

  lemma ExampleDistances()
    ensures Hamming("AAAA", "AAAT") == 1 && Hamming("AAAT", "AAAA") == 1
    ensures Hamming("AAAA", "TTTT") == 4 && Hamming("TTTT", "AAAA") == 4
    ensures Hamming("AAAT", "TTTT") == 3 && Hamming("TTTT", "AAAT") == 3
  {
    assert "AAAA"[1..] == "AAA" && "AAAT"[1..] == "AAT" && "TTTT"[1..] == "TTT";
    assert "AAA"[1..] == "AA" && "AAT"[1..] == "AT" && "TTT"[1..] == "TT";
    assert "AA"[1..] == "A" && "AT"[1..] == "T" && "TT"[1..] == "T";
    assert "A"[1..] == [] && "T"[1..] == [];
  }

  /** Of the nine ordered pairs, only AAAA -> AAAT meets the directional condition. */
  lemma ExampleLinked(counts: Counts, u: Barcode, v: Barcode)
    requires ExampleCounts(counts) && u in counts && v in counts
    ensures |u| == |v|
    ensures Linked(Directional, u, v, counts, 1) <==> u == "AAAA" && v == "AAAT"
  {
    ExampleDistances();
  }

  /** The only edge of the directional adjacency runs from AAAA to AAAT. */
  lemma ExampleEdges(e: ClusterAndReducer, umis: seq<Barcode>, counts: Counts)
    requires e.clusterMethod == Directional
    requires Elems(umis) == {"AAAA", "AAAT", "TTTT"} && ExampleCounts(counts)
    ensures SameLength(Elems(umis))
    ensures forall u, v :: Edge(e.GetAdjList(umis, counts, 1), u, v) <==> u == "AAAA" && v == "AAAT"
  {
    forall a, b | a in Elems(umis) && b in Elems(umis) ensures |a| == |b| {
      ExampleLinked(counts, a, b);
    }
    var graph := e.GetAdjList(umis, counts, 1);
    forall u, v | Edge(graph, u, v) ensures u == "AAAA" && v == "AAAT" {
      assert v in umis;
      ExampleLinked(counts, u, v);
    }
    assert "AAAT" in umis;
    ExampleLinked(counts, "AAAA", "AAAT");
  }

  /** From AAAA one reaches AAAT; from anywhere else, nothing but the start. */
  lemma ExampleReach(graph: AdjList, s: Barcode)
    requires forall u, v :: Edge(graph, u, v) <==> u == "AAAA" && v == "AAAT"
    ensures forall v :: Reachable(graph, s, v) ==> v == s || (s == "AAAA" && v == "AAAT")
  {
    var reach := if s == "AAAA" then {"AAAA", "AAAT"} else {s};
    assert Closed(graph, reach);
    forall v | Reachable(graph, s, v) ensures v == s || (s == "AAAA" && v == "AAAT") {
      ClosedContainsReachable(graph, reach, s, v);
    }
  }

  /** A search from AAAA collects AAAT along; a search from any other barcode stays alone. */
  lemma ExampleSearch(graph: AdjList, seed: Barcode, comp: set<Barcode>)
    requires forall u, v :: Edge(graph, u, v) <==> u == "AAAA" && v == "AAAT"
    requires SearchedFrom(graph, seed, comp)
    ensures comp == if seed == "AAAA" then {"AAAA", "AAAT"} else {seed}
  {
    var target := if seed == "AAAA" then {"AAAA", "AAAT"} else {seed};
    ExampleReach(graph, seed);
    forall x | x in comp ensures x in target {
      assert Reachable(graph, seed, x);
    }
    if seed == "AAAA" {
      assert Edge(graph, "AAAA", "AAAT");
    }
  }

  /** Each component is what its seed reaches. */
  lemma ExampleComponentShape(graph: AdjList, counts: Counts, comps: Components, seeds: seq<Barcode>)
    requires forall u, v :: Edge(graph, u, v) <==> u == "AAAA" && v == "AAAT"
    requires SeedsSearched(graph, comps, seeds)
    ensures forall j :: 0 <= j < |comps| ==>
      comps[j] == if seeds[j] == "AAAA" then {"AAAA", "AAAT"} else {seeds[j]}
  {
    forall j | 0 <= j < |comps|
      ensures comps[j] == if seeds[j] == "AAAA" then {"AAAA", "AAAT"} else {seeds[j]}
    {
      ExampleSearch(graph, seeds[j], comps[j]);
    }
  }

  /** Seeds are AAAA or TTTT, never twice the same. */
  lemma ExampleSeeds(counts: Counts, comps: Components, seeds: seq<Barcode>, j0: nat)
    requires ExampleCounts(counts) && |seeds| == |comps| && SeedsFresh(comps, seeds)
    requires forall j :: 0 <= j < |comps| ==> seeds[j] in counts
    requires forall i, j :: 0 <= i < j < |comps| ==> counts[seeds[i]] >= counts[seeds[j]]
    requires forall j :: 0 <= j < |comps| ==>
      comps[j] == if seeds[j] == "AAAA" then {"AAAA", "AAAT"} else {seeds[j]}
    requires j0 < |comps| && seeds[j0] == "AAAA"
    ensures forall j :: 0 <= j < |comps| ==> seeds[j] == "AAAA" || seeds[j] == "TTTT"
    ensures forall i, j :: 0 <= i < j < |comps| ==> seeds[i] != seeds[j]
  {
    assert "AAAA"[3] != "AAAT"[3];
    forall j | 0 <= j < |comps| ensures seeds[j] == "AAAA" || seeds[j] == "TTTT" {
      // AAAT is neither inside AAAA's earlier component nor ranked above it.
      assert j0 < j ==> seeds[j] !in comps[j0];
      assert j < j0 ==> counts[seeds[j]] >= counts[seeds[j0]];
    }
    forall i, j | 0 <= i < j < |comps| ensures seeds[i] != seeds[j] {
      assert seeds[i] in comps[i];
    }
  }

  /**
   * The component search can only seed AAAA, then TTTT: AAAT is reached from
   * AAAA, which outranks it, and AAAA and TTTT are reached from nowhere else.
   */
  lemma ExampleComponents(graph: AdjList, counts: Counts, comps: Components, seeds: seq<Barcode>)
    requires graph.Keys == {"AAAA", "AAAT", "TTTT"} && ExampleCounts(counts)
    requires forall u, v :: Edge(graph, u, v) <==> u == "AAAA" && v == "AAAT"
    requires ComponentSearch(graph, counts, comps, seeds)
    ensures seeds == ["AAAA", "TTTT"] && comps == [{"AAAA", "AAAT"}, {"TTTT"}]
  {
    ExampleComponentShape(graph, counts, comps, seeds);
    var j0 := Holder(comps, "AAAA");
    var j1 := Holder(comps, "TTTT");
    assert "AAAA"[0] != "TTTT"[0] && "AAAT"[0] != "TTTT"[0];
    assert seeds[j0] == "AAAA" && seeds[j1] == "TTTT";
    ExampleSeeds(counts, comps, seeds, j0);
    ExampleOrder(counts, comps, seeds, j0, j1);
  }

  /** Two distinct seeds, AAAA and TTTT, ranked by count: AAAA comes first. */
  lemma ExampleOrder(counts: Counts, comps: Components, seeds: seq<Barcode>, j0: nat, j1: nat)
    requires ExampleCounts(counts) && |seeds| == |comps|
    requires forall j :: 0 <= j < |comps| ==> seeds[j] == "AAAA" || seeds[j] == "TTTT"
    requires forall i, j :: 0 <= i < j < |comps| ==> seeds[i] != seeds[j]
    requires forall i, j :: 0 <= i < j < |comps| ==> counts[seeds[i]] >= counts[seeds[j]]
    requires forall j :: 0 <= j < |comps| ==>
      comps[j] == if seeds[j] == "AAAA" then {"AAAA", "AAAT"} else {seeds[j]}
    requires j0 < |comps| && seeds[j0] == "AAAA" && j1 < |comps| && seeds[j1] == "TTTT"
    ensures seeds == ["AAAA", "TTTT"] && comps == [{"AAAA", "AAAT"}, {"TTTT"}]
  {
    assert "AAAA"[0] != "TTTT"[0];
    var n := |comps|;
    // Three positions, clamped into range: pairwise distinct seeds if n > 2.
    var k1, k2 := if 1 < n then 1 else n - 1, if 2 < n then 2 else n - 1;
    ghost var s0, s1, s2 := seeds[0], seeds[k1], seeds[k2];
    if n > 2 {
      assert false;
    }
    assert n == 2;
    assert counts[seeds[0]] >= counts[seeds[1]];
  }

  /** A position holding a barcode the search covers. */
  lemma Holder(comps: Components, u: Barcode) returns (j: nat)
    requires ClaimCount(comps, u) > 0
    ensures j < |comps| && u in comps[j]
  {
    j := Claimants(comps, u)[0];
  }

  /**
   * Every outcome `Call` promises for the example bundle under the
   * directional policy at threshold 1: two clusters, left as the components
   * were, and a single pair, AAAT's read reassigned to AAAA.
   */
  lemma DirectionalExample<R>(e: ClusterAndReducer, bundle: Bundle<R>, r: R, umis: seq<Barcode>,
                              components: Components, seeds: seq<Barcode>, clusters: Components)
    requires e.clusterMethod == Directional
    requires bundle.Keys == {"AAAA", "AAAT", "TTTT"}
    requires |bundle["AAAA"]| == 10 && bundle["AAAT"] == [r] && |bundle["TTTT"]| == 8
    requires Elems(umis) == bundle.Keys && Distinct(umis) && SameLength(bundle.Keys)
    requires forall c :: c in clusters ==> c <= bundle.Keys
    requires e.Clustered(umis, ReadCounts(bundle), 1, components, seeds, clusters)
    ensures components == [{"AAAA", "AAAT"}, {"TTTT"}] && clusters == components
    ensures AllPairs(bundle, clusters, ReadCounts(bundle)) == multiset{(r, "AAAA")}
  {
    var counts := ReadCounts(bundle);
    ExampleReadCounts(bundle);
    ExampleEdges(e, umis, counts);
    var graph := e.GetAdjList(umis, counts, 1);
    ExampleComponents(graph, counts, components, seeds);
    ExampleClaims(components);
    ReconcileAllIdle(umis, components, counts);
    assert clusters == e.PostProcessed(umis, components, graph, counts);
    assert e.PostProcessed(umis, components, graph, counts) == ReconcileAll(umis, components, counts);
    ExamplePairs(bundle, r, counts);
  }

  lemma ExampleReadCounts<R>(bundle: Bundle<R>)
    requires bundle.Keys == {"AAAA", "AAAT", "TTTT"}
    requires |bundle["AAAA"]| == 10 && |bundle["AAAT"]| == 1 && |bundle["TTTT"]| == 8
    ensures ExampleCounts(ReadCounts(bundle))
  {
  }

  /** No barcode lies in both clusters. */
  lemma ExampleClaims(components: Components)
    requires components == [{"AAAA", "AAAT"}, {"TTTT"}]
    ensures forall u :: ClaimCount(components, u) <= 1
    ensures forall k :: 0 <= k < |components| ==> components[k] <= {"AAAA", "AAAT", "TTTT"}
  {
    forall u ensures ClaimCount(components, u) <= 1 {
      assert "AAAA"[0] != "TTTT"[0] && "AAAT"[0] != "TTTT"[0];
      if u in components[0] {
        SoleHolder(components, u, 0);
      } else if u in components[1] {
        SoleHolder(components, u, 1);
      } else {
        Unclaimed(components, u);
      }
    }
  }

  /** The two clusters emit one pair between them. */
  lemma ExamplePairs<R>(bundle: Bundle<R>, r: R, counts: Counts)
    requires bundle.Keys == {"AAAA", "AAAT", "TTTT"} && bundle["AAAT"] == [r]
    requires ExampleCounts(counts)
    ensures AllPairs(bundle, [{"AAAA", "AAAT"}, {"TTTT"}], counts) == multiset{(r, "AAAA")}
  {
    var ab: set<Barcode> := {"AAAA", "AAAT"};
    assert "AAAA"[3] != "AAAT"[3];
    assert |ab| == 2;
    var best := GetBest(ab, counts);
    assert best == "AAAA";
    ClusterPairsPick(bundle, ab, best, "AAAT");
    assert ab - {"AAAT"} == {"AAAA"};
    ClusterPairsPick(bundle, {"AAAA"}, best, "AAAA");
    assert {"AAAA"} - {"AAAA"} == {};
    assert Tag(bundle["AAAT"], best) == [(r, "AAAA")];
    assert Emitted(bundle, ab, counts) == multiset{(r, "AAAA")};
    var cs := [ab, {"TTTT"}];
    assert cs[..1] == [ab] && [ab][..0] == [];
    assert AllPairs(bundle, [ab], counts) == Emitted(bundle, ab, counts);
    assert Emitted(bundle, {"TTTT"}, counts) == multiset{};
    assert AllPairs(bundle, cs, counts) == AllPairs(bundle, [ab], counts) + Emitted(bundle, {"TTTT"}, counts);
  }
}
