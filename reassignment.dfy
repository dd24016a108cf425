/**
 * What the cluster reducer emits: for every cluster of more than one
 * barcode, one (read, representative) pair per read filed under each
 * member other than the representative. Sets are iterated in no particular
 * order, so the emitted pairs are described as a multiset.
 */
module Reassignment {
  import opened Barcodes
  import opened Adjacency
  import opened Ranking

  /** Barcode -> the reads observed with exactly that barcode. */
  type Bundle<R> = map<Barcode, seq<R>>

  /** The read count of every barcode of the bundle. */
  function ReadCounts<R>(bundle: Bundle<R>): Counts
  {
    map u | u in bundle :: |bundle[u]|
  }

  /** The counts derived from a bundle: the number of reads per barcode. */
  ghost predicate CountsOf<R>(bundle: Bundle<R>, counts: Counts)
  {
    counts.Keys == bundle.Keys && forall u :: u in bundle ==> counts[u] == |bundle[u]|
  }

  lemma ReadCountsOf<R>(bundle: Bundle<R>)
    ensures CountsOf(bundle, ReadCounts(bundle))
  {
  }

  /** Each read of `filed`, paired with `parent`. */
  function Tag<R>(filed: seq<R>, parent: Barcode): (r: seq<(R, Barcode)>)
    ensures |r| == |filed|
    ensures forall i :: 0 <= i < |filed| ==> r[i] == (filed[i], parent)
  {
    seq(|filed|, i requires 0 <= i < |filed| => (filed[i], parent))
  }

  /** The pairs one member of a cluster contributes. */
  ghost function MemberPairs<R>(bundle: Bundle<R>, u: Barcode, parent: Barcode): multiset<(R, Barcode)>
    requires u in bundle
  {
    if u == parent then multiset{} else multiset(Tag(bundle[u], parent))
  }

  /** The pairs a set of members contributes. */
  ghost function ClusterPairs<R>(bundle: Bundle<R>, members: set<Barcode>, parent: Barcode): multiset<(R, Barcode)>
    requires members <= bundle.Keys
    decreases members
  {
    if members == {} then multiset{}
    else
      var u :| u in members;
      ClusterPairs(bundle, members - {u}, parent) + MemberPairs(bundle, u, parent)
  }

  /** Any member may be taken first. */
  lemma {:induction false} ClusterPairsPick<R>(bundle: Bundle<R>, members: set<Barcode>, parent: Barcode, x: Barcode)
    requires members <= bundle.Keys && x in members
    ensures ClusterPairs(bundle, members, parent)
         == ClusterPairs(bundle, members - {x}, parent) + MemberPairs(bundle, x, parent)
    decreases members
  {
    var y :| y in members && ClusterPairs(bundle, members, parent)
                           == ClusterPairs(bundle, members - {y}, parent) + MemberPairs(bundle, y, parent);
    if y != x {
      ClusterPairsPick(bundle, members - {y}, parent, x);
      ClusterPairsPick(bundle, members - {x}, parent, y);
      assert members - {y} - {x} == members - {x} - {y};
    }
  }

  /** Sum of the counts of a set of barcodes. */
  ghost function CountSum(counts: Counts, members: set<Barcode>): nat
    requires members <= counts.Keys
    decreases members
  {
    if members == {} then 0
    else
      var u :| u in members;
      CountSum(counts, members - {u}) + counts[u]
  }

  lemma {:induction false} CountSumPick(counts: Counts, members: set<Barcode>, x: Barcode)
    requires members <= counts.Keys && x in members
    ensures CountSum(counts, members) == CountSum(counts, members - {x}) + counts[x]
    decreases members
  {
    var y :| y in members && CountSum(counts, members) == CountSum(counts, members - {y}) + counts[y];
    if y != x {
      CountSumPick(counts, members - {y}, x);
      CountSumPick(counts, members - {x}, y);
      assert members - {y} - {x} == members - {x} - {y};
    }
  }

  /**
   * A cluster emits exactly as many pairs as its members other than the
   * representative have reads.
   */
  lemma {:induction false} ClusterPairsSize<R>(bundle: Bundle<R>, counts: Counts, members: set<Barcode>, parent: Barcode)
    requires CountsOf(bundle, counts) && members <= bundle.Keys
    ensures |ClusterPairs(bundle, members, parent)| == CountSum(counts, members - {parent})
    decreases members
  {
    if members != {} {
      var x :| x in members;
      ClusterPairsPick(bundle, members, parent, x);
      ClusterPairsSize(bundle, counts, members - {x}, parent);
      if x == parent {
        assert members - {x} - {parent} == members - {parent};
      } else {
        CountSumPick(counts, members - {parent}, x);
        assert members - {parent} - {x} == members - {x} - {parent};
      }
    }
  }

  /**
   * Every pair a cluster emits names the representative and a read filed
   * under some other member of the cluster; none comes from the
   * representative's own reads.
   */
  lemma {:induction false} ClusterPairsShape<R>(bundle: Bundle<R>, members: set<Barcode>, parent: Barcode)
    requires members <= bundle.Keys
    ensures forall p :: p in ClusterPairs(bundle, members, parent) ==>
      p.1 == parent && exists u :: u in members && u != parent && p.0 in bundle[u]
    decreases members
  {
    if members != {} {
      var x :| x in members;
      ClusterPairsPick(bundle, members, parent, x);
      ClusterPairsShape(bundle, members - {x}, parent);
      forall p | p in MemberPairs(bundle, x, parent)
        ensures p.1 == parent && x != parent && p.0 in bundle[x]
      {
        var t := Tag(bundle[x], parent);
        assert p in t;
        var i :| 0 <= i < |t| && t[i] == p;
      }
    }
  }

  /** The pairs emitted for one cluster: nothing for a singleton or an empty set. */
  ghost function Emitted<R>(bundle: Bundle<R>, cluster: set<Barcode>, counts: Counts): multiset<(R, Barcode)>
    requires cluster <= bundle.Keys && cluster <= counts.Keys
  {
    if |cluster| > 1 then ClusterPairs(bundle, cluster, GetBest(cluster, counts)) else multiset{}
  }

  /** The pairs emitted for a list of clusters. */
  ghost function AllPairs<R>(bundle: Bundle<R>, clusters: seq<set<Barcode>>, counts: Counts): multiset<(R, Barcode)>
    requires forall c :: c in clusters ==> c <= bundle.Keys && c <= counts.Keys
  {
    if clusters == [] then multiset{}
    else
      var n := |clusters| - 1;
      assert forall c :: c in clusters[..n] ==> c in clusters;
      AllPairs(bundle, clusters[..n], counts) + Emitted(bundle, clusters[n], counts)
  }

  /** The loop step of the reduction: one more cluster's pairs. */
  lemma AllPairsPrefix<R>(bundle: Bundle<R>, clusters: seq<set<Barcode>>, counts: Counts, i: nat)
    requires i < |clusters|
    requires forall c :: c in clusters ==> c <= bundle.Keys && c <= counts.Keys
    ensures forall c :: c in clusters[..i + 1] ==> c <= bundle.Keys && c <= counts.Keys
    ensures AllPairs(bundle, clusters[..i + 1], counts)
         == AllPairs(bundle, clusters[..i], counts) + Emitted(bundle, clusters[i], counts)
  {
    assert forall c :: c in clusters[..i + 1] ==> c in clusters;
    assert clusters[..i + 1][..i] == clusters[..i];
  }

  /**
   * Representative dominance: every emitted pair maps a read of some member
   * `u` of a multi-member cluster to that cluster's representative, which is
   * a different barcode whose count is at least that of `u`.
   */
  lemma {:induction false} AllPairsShape<R>(bundle: Bundle<R>, clusters: seq<set<Barcode>>, counts: Counts)
    requires CountsOf(bundle, counts)
    requires forall c :: c in clusters ==> c <= bundle.Keys
    ensures forall p :: p in AllPairs(bundle, clusters, counts) ==>
      exists c, u :: c in clusters && |c| > 1 && p.1 == GetBest(c, counts) &&
        u in c && u != p.1 && p.0 in bundle[u] && counts[u] <= counts[p.1]
  {
    if clusters != [] {
      var n := |clusters| - 1;
      assert forall c :: c in clusters[..n] ==> c in clusters;
      AllPairsShape(bundle, clusters[..n], counts);
      var c := clusters[n];
      if |c| > 1 {
        ClusterPairsShape(bundle, c, GetBest(c, counts));
      }
    }
  }

  /** Clusters of at most one barcode emit nothing at all. */
  lemma {:induction false} AllPairsOfSingletons<R>(bundle: Bundle<R>, clusters: seq<set<Barcode>>, counts: Counts)
    requires forall c :: c in clusters ==> c <= bundle.Keys && c <= counts.Keys && |c| <= 1
    ensures AllPairs(bundle, clusters, counts) == multiset{}
  {
    if clusters != [] {
      var n := |clusters| - 1;
      assert forall c :: c in clusters[..n] ==> c in clusters;
      AllPairsOfSingletons(bundle, clusters[..n], counts);
    }
  }
}
