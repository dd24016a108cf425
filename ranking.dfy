/**
 * Orderings used by the engine: the representative of a cluster
 * (`get_best`), the first position of the greatest representative among a
 * barcode's parent clusters, and the seed order of the component search
 * (most reads first).
 */
module Ranking {
  import opened Barcodes
  import opened Adjacency

  /**
   * `b` is a member of maximal count. Among members of equal count the
   * greatest string is taken, so that the choice is a function of the set.
   */
  predicate IsBest(b: Barcode, cluster: set<Barcode>, counts: Counts)
    requires cluster <= counts.Keys
  {
    b in cluster &&
    forall m :: m in cluster ==> counts[m] < counts[b] || (counts[m] == counts[b] && StrLe(m, b))
  }

  lemma {:induction false} BestExists(cluster: set<Barcode>, counts: Counts)
    requires cluster != {} && cluster <= counts.Keys
    ensures exists b :: IsBest(b, cluster, counts)
    decreases cluster
  {
    var x :| x in cluster;
    var rest := cluster - {x};
    StrLeTotal(x, x);
    if rest == {} {
      assert cluster == {x};
      assert IsBest(x, cluster, counts);
    } else {
      BestExists(rest, counts);
      var b :| IsBest(b, rest, counts);
      StrLeTotal(x, b);
      if counts[x] > counts[b] || (counts[x] == counts[b] && StrLe(b, x)) {
        forall m | m in cluster
          ensures counts[m] < counts[x] || (counts[m] == counts[x] && StrLe(m, x))
        {
          if m != x && counts[m] == counts[x] {
            StrLeTransitive(m, b, x);
          }
        }
        assert IsBest(x, cluster, counts);
      } else {
        assert IsBest(b, cluster, counts);
      }
    }
  }

  lemma BestUnique(cluster: set<Barcode>, counts: Counts, b1: Barcode, b2: Barcode)
    requires cluster <= counts.Keys && IsBest(b1, cluster, counts) && IsBest(b2, cluster, counts)
    ensures b1 == b2
  {
    if counts[b1] == counts[b2] {
      StrLeAntisymmetric(b1, b2);
    }
  }

  /**
   * `get_best`: a member of the cluster whose count is at least that of every
   * member; a singleton's only member.
   */
  function GetBest(cluster: set<Barcode>, counts: Counts): (best: Barcode)
    requires cluster != {} && cluster <= counts.Keys
    ensures best in cluster
    ensures forall m :: m in cluster ==> counts[m] <= counts[best]
  {
    BestExists(cluster, counts);
    assert forall b1, b2 :: IsBest(b1, cluster, counts) && IsBest(b2, cluster, counts) ==> b1 == b2 by {
      forall b1, b2 | IsBest(b1, cluster, counts) && IsBest(b2, cluster, counts) ensures b1 == b2 {
        BestUnique(cluster, counts, b1, b2);
      }
    }
    var b :| IsBest(b, cluster, counts);
    b
  }

  lemma GetBestSingleton(x: Barcode, counts: Counts)
    requires x in counts
    ensures GetBest({x}, counts) == x
  {
  }

  /**
   * The first position holding the greatest string of a non-empty list of
   * representatives (Python's `max` on strings, then `list.index`).
   */
  function IndexOfMax(reps: seq<Barcode>): (k: nat)
    requires |reps| > 0
    ensures k < |reps|
    ensures forall j :: 0 <= j < |reps| ==> StrLe(reps[j], reps[k])
    ensures forall j :: 0 <= j < k ==> reps[j] != reps[k]
  {
    if |reps| == 1 then StrLeTotal(reps[0], reps[0]); 0
    else
      var n := |reps| - 1;
      var k := IndexOfMax(reps[..n]);
      assert forall j :: 0 <= j < n ==> reps[..n][j] == reps[j];
      StrLeTotal(reps[n], reps[k]);
      if StrLe(reps[n], reps[k]) then k
      else
        assert forall j :: 0 <= j < n ==> StrLe(reps[j], reps[n]) && reps[j] != reps[n] by {
          forall j | 0 <= j < n ensures StrLe(reps[j], reps[n]) && reps[j] != reps[n] {
            StrLeTransitive(reps[j], reps[k], reps[n]);
          }
        }
        StrLeTotal(reps[n], reps[n]);
        n
  }

  /** Counts do not increase along `s`. */
  ghost predicate NonIncreasing(s: seq<Barcode>, counts: Counts)
    requires forall x :: x in s ==> x in counts
  {
    forall i, j :: 0 <= i < j < |s| ==> counts[s[i]] >= counts[s[j]]
  }

  lemma ConsNonIncreasing(y: Barcode, s: seq<Barcode>, counts: Counts)
    requires y in counts && forall z :: z in s ==> z in counts
    requires NonIncreasing(s, counts)
    requires forall z :: z in s ==> counts[z] <= counts[y]
    ensures NonIncreasing([y] + s, counts)
  {
    var r := [y] + s;
    forall i, j | 0 <= i < j < |r| ensures counts[r[i]] >= counts[r[j]] {
      assert r[j] == s[j - 1];
      if i > 0 {
        assert r[i] == s[i - 1];
      }
    }
  }

  /** Everything inserted behind the head of a sorted list counts no more than it. */
  lemma HeadDominates(x: Barcode, s: seq<Barcode>, rest: seq<Barcode>, counts: Counts)
    requires |s| > 0 && x in counts && forall y :: y in s ==> y in counts
    requires NonIncreasing(s, counts) && counts[x] < counts[s[0]]
    requires multiset(rest) == multiset(s[1..]) + multiset{x}
    ensures forall y :: y in rest ==> y in counts && counts[y] <= counts[s[0]]
  {
    forall y | y in rest ensures y in counts && counts[y] <= counts[s[0]] {
      assert y in multiset(rest);
      if y != x {
        assert y in multiset(s[1..]);
        var j :| 0 <= j < |s[1..]| && s[1..][j] == y;
        assert s[j + 1] == y;
      }
    }
  }

  /** A barcode counting at least as much as the head of a sorted list may lead it. */
  lemma PrependLargest(x: Barcode, s: seq<Barcode>, counts: Counts)
    requires x in counts && forall y :: y in s ==> y in counts
    requires NonIncreasing(s, counts) && (s == [] || counts[s[0]] <= counts[x])
    ensures forall y :: y in [x] + s ==> y in counts
    ensures NonIncreasing([x] + s, counts)
  {
    forall z | z in s ensures counts[z] <= counts[x] {
      var j :| 0 <= j < |s| && s[j] == z;
      assert counts[s[0]] >= counts[s[j]];
    }
    ConsNonIncreasing(x, s, counts);
  }

  /** The tail of a sorted list is sorted. */
  lemma TailNonIncreasing(s: seq<Barcode>, counts: Counts)
    requires s != [] && forall y :: y in s ==> y in counts
    requires NonIncreasing(s, counts)
    ensures forall y :: y in s[1..] ==> y in counts
    ensures NonIncreasing(s[1..], counts)
  {
    var t := s[1..];
    forall i, j | 0 <= i < j < |t| ensures counts[t[i]] >= counts[t[j]] {
      assert t[i] == s[i + 1] && t[j] == s[j + 1];
    }
  }

  /** The head of a sorted list stays ahead of `x` inserted behind it. */
  lemma KeepHead(x: Barcode, s: seq<Barcode>, rest: seq<Barcode>, counts: Counts)
    requires s != [] && x in counts && forall y :: y in s ==> y in counts
    requires NonIncreasing(s, counts) && counts[x] < counts[s[0]]
    requires multiset(rest) == multiset(s[1..]) + multiset{x}
    requires forall y :: y in rest ==> y in counts
    requires NonIncreasing(rest, counts)
    ensures multiset([s[0]] + rest) == multiset(s) + multiset{x}
    ensures forall y :: y in [s[0]] + rest ==> y in counts
    ensures NonIncreasing([s[0]] + rest, counts)
  {
    assert s == [s[0]] + s[1..];
    HeadDominates(x, s, rest, counts);
    ConsNonIncreasing(s[0], rest, counts);
  }

  /** Inserts `x` before the first element whose count is not above its own. */
  function InsertByCount(x: Barcode, s: seq<Barcode>, counts: Counts): (r: seq<Barcode>)
    requires x in counts && forall y :: y in s ==> y in counts
    requires NonIncreasing(s, counts)
    ensures multiset(r) == multiset(s) + multiset{x}
    ensures forall y :: y in r ==> y in counts
    ensures NonIncreasing(r, counts)
  {
    if s == [] || counts[s[0]] <= counts[x] then
      PrependLargest(x, s, counts);
      [x] + s
    else
      TailNonIncreasing(s, counts);
      var rest := InsertByCount(x, s[1..], counts);
      KeepHead(x, s, rest, counts);
      [s[0]] + rest
  }

  /**
   * Python's stable sort by descending count: a permutation of `s` whose
   * counts do not increase.
   */
  function SortByCount(s: seq<Barcode>, counts: Counts): (r: seq<Barcode>)
    requires forall y :: y in s ==> y in counts
    ensures multiset(r) == multiset(s)
    ensures forall y :: y in r ==> y in counts
    ensures NonIncreasing(r, counts)
  {
    if s == [] then []
    else
      assert s == [s[0]] + s[1..];
      InsertByCount(s[0], SortByCount(s[1..], counts), counts)
  }
}
