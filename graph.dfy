/**
 * Adjacency lists over barcodes and directed reachability along them.
 * The traversal follows only the outgoing list of each node, so a path
 * here is a path along directed edges.
 */
module Graph {
  import opened Barcodes

  /** Barcode -> the barcodes listed as adjacent to it. */
  type AdjList = map<Barcode, seq<Barcode>>

  predicate Edge(adj: AdjList, u: Barcode, v: Barcode)
  {
    u in adj && v in adj[u]
  }

  /** Every adjacency list names only keys of the map (no lookup can fail). */
  predicate KeysClosed(adj: AdjList)
  {
    forall u, v :: u in adj && v in adj[u] ==> v in adj
  }

  /** Every edge has its reverse. */
  ghost predicate Symmetric(adj: AdjList)
  {
    forall u, v :: Edge(adj, u, v) ==> Edge(adj, v, u)
  }

  /** `s` contains every out-neighbour of each of its members. */
  ghost predicate Closed(adj: AdjList, s: set<Barcode>)
  {
    forall u, v :: u in s && Edge(adj, u, v) ==> v in s
  }

  /** Consecutive elements of `p` are joined by directed edges. */
  ghost predicate IsPath(adj: AdjList, p: seq<Barcode>)
  {
    forall i {:trigger Edge(adj, p[i], p[i + 1])} :: 0 <= i < |p| - 1 ==> Edge(adj, p[i], p[i + 1])
  }

  /** `p` is a directed path from `a` to `b`. */
  ghost predicate IsWalk(adj: AdjList, p: seq<Barcode>, a: Barcode, b: Barcode)
  {
    |p| > 0 && p[0] == a && p[|p| - 1] == b && IsPath(adj, p)
  }

  ghost predicate Reachable(adj: AdjList, a: Barcode, b: Barcode)
  {
    exists p :: IsWalk(adj, p, a, b)
  }

  lemma WalkExtend(adj: AdjList, p: seq<Barcode>, a: Barcode, b: Barcode, c: Barcode)
    requires IsWalk(adj, p, a, b) && Edge(adj, b, c)
    ensures IsWalk(adj, p + [c], a, c)
  {
    var q := p + [c];
    forall i | 0 <= i < |q| - 1 ensures Edge(adj, q[i], q[i + 1]) {
      if i < |p| - 1 {
        assert q[i] == p[i] && q[i + 1] == p[i + 1];
      }
    }
  }

  /** A set closed under out-edges contains everything reachable from its members. */
  lemma {:induction false} ClosedContainsReachable(adj: AdjList, s: set<Barcode>, a: Barcode, b: Barcode)
    requires Closed(adj, s) && a in s && Reachable(adj, a, b)
    ensures b in s
  {
    var p :| IsWalk(adj, p, a, b);
    WalkStaysIn(adj, s, p);
  }

  lemma {:induction false} WalkStaysIn(adj: AdjList, s: set<Barcode>, p: seq<Barcode>)
    requires Closed(adj, s) && |p| > 0 && p[0] in s && IsPath(adj, p)
    ensures p[|p| - 1] in s
  {
    if |p| > 1 {
      var q := p[..|p| - 1];
      assert IsPath(adj, q) by {
        forall i | 0 <= i < |q| - 1 ensures Edge(adj, q[i], q[i + 1]) {
          assert q[i] == p[i] && q[i + 1] == p[i + 1];
        }
      }
      WalkStaysIn(adj, s, q);
      var k := |p| - 2;
      assert Edge(adj, p[k], p[k + 1]);
    }
  }

  function Reverse(p: seq<Barcode>): (r: seq<Barcode>)
    ensures |r| == |p|
    ensures forall i :: 0 <= i < |p| ==> r[i] == p[|p| - 1 - i]
  {
    seq(|p|, i requires 0 <= i < |p| => p[|p| - 1 - i])
  }

  /** Over a symmetric adjacency, reachability is symmetric. */
  lemma SymmetricReachable(adj: AdjList, a: Barcode, b: Barcode)
    requires Symmetric(adj) && Reachable(adj, a, b)
    ensures Reachable(adj, b, a)
  {
    var p :| IsWalk(adj, p, a, b);
    var r := Reverse(p);
    forall i | 0 <= i < |r| - 1 ensures Edge(adj, r[i], r[i + 1]) {
      var j := |p| - 2 - i;
      assert Edge(adj, p[j], p[j + 1]);
      assert r[i] == p[j + 1] && r[i + 1] == p[j];
    }
    assert IsWalk(adj, r, b, a);
  }
}
