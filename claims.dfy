/**
 * Which components claim a barcode. Components are a list of barcode sets
 * that the directional post-processor edits in place; a component is found
 * again by `list.index`, that is by value, the first equal set winning.
 */
module Claims {
  import opened Barcodes

  type Components = seq<set<Barcode>>

  /**
   * Positions of the components holding `umi`, in list order: the parent
   * clusters of `umi`, identified by position.
   */
  function Claimants(comps: Components, umi: Barcode): (ps: seq<nat>)
    ensures forall j :: 0 <= j < |ps| ==> ps[j] < |comps| && umi in comps[ps[j]]
    ensures forall k :: 0 <= k < |comps| && umi in comps[k] ==> k in ps
    ensures forall i, j :: 0 <= i < j < |ps| ==> ps[i] < ps[j]
  {
    if comps == [] then []
    else
      var n := |comps| - 1;
      var ps := Claimants(comps[..n], umi);
      assert forall k :: 0 <= k < n ==> comps[..n][k] == comps[k];
      if umi in comps[n] then ps + [n] else ps
  }

  /** Number of components holding `umi`. */
  function ClaimCount(comps: Components, umi: Barcode): nat
  {
    |Claimants(comps, umi)|
  }

  /** The claims on `umi` depend only on which positions hold it. */
  lemma {:induction false} ClaimantsAgree(a: Components, b: Components, umi: Barcode)
    requires |a| == |b|
    requires forall k :: 0 <= k < |a| ==> (umi in a[k] <==> umi in b[k])
    ensures Claimants(a, umi) == Claimants(b, umi)
  {
    if a != [] {
      var n := |a| - 1;
      ClaimantsAgree(a[..n], b[..n], umi);
    }
  }

  /** `umi` is claimed exactly once when precisely one position holds it. */
  lemma {:induction false} SoleHolder(comps: Components, umi: Barcode, k: nat)
    requires k < |comps| && umi in comps[k]
    requires forall j :: 0 <= j < |comps| && umi in comps[j] ==> j == k
    ensures Claimants(comps, umi) == [k]
  {
    var n := |comps| - 1;
    if k == n {
      Unclaimed(comps[..n], umi);
    } else {
      SoleHolder(comps[..n], umi, k);
    }
  }

  /** A barcode held nowhere is claimed by no component. */
  lemma {:induction false} Unclaimed(comps: Components, umi: Barcode)
    requires forall j :: 0 <= j < |comps| ==> umi !in comps[j]
    ensures Claimants(comps, umi) == []
  {
    if comps != [] {
      Unclaimed(comps[..|comps| - 1], umi);
    }
  }

  /** `components.index(c)`: the first position holding a set equal to `c`. */
  function FirstIndexOf(comps: Components, c: set<Barcode>): (k: nat)
    requires c in comps
    ensures k < |comps| && comps[k] == c
  {
    if comps[0] == c then 0
    else
      assert c in comps[1..];
      1 + FirstIndexOf(comps[1..], c)
  }

  /** No position before `components.index(c)` holds `c`. */
  lemma {:induction false} FirstIndexOfFirst(comps: Components, c: set<Barcode>, j: nat)
    requires j < |comps| && comps[j] == c
    ensures FirstIndexOf(comps, c) <= j
  {
    if comps[0] != c {
      assert comps[1..][j - 1] == c;
      FirstIndexOfFirst(comps[1..], c, j - 1);
    }
  }
}
