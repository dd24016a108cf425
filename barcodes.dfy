/**
 * Barcodes (UMI sequences): the Hamming distance used by both adjacency
 * policies, the ordering Python applies to strings (used by `max` over
 * representatives), and the length bookkeeping of the call's precondition.
 */
module Barcodes {

  type Barcode = string

  /** The set of elements of a sequence. */
  function Elems(s: seq<Barcode>): (r: set<Barcode>)
    ensures forall x :: x in r <==> x in s
  {
    set x | x in s
  }

  /** No element occurs twice (the keys of a dictionary). */
  predicate Distinct<T(==)>(s: seq<T>)
  {
    forall i, j :: 0 <= i < j < |s| ==> s[i] != s[j]
  }

  /** Number of positions at which two equal-length barcodes differ. */
  function Hamming(a: Barcode, b: Barcode): (d: nat)
    requires |a| == |b|
    ensures d <= |a|
    ensures d == 0 <==> a == b
  {
    if |a| == 0 then 0
    else
      assert a == [a[0]] + a[1..] && b == [b[0]] + b[1..];
      (if a[0] != b[0] then 1 else 0) + Hamming(a[1..], b[1..])
  }

  lemma {:induction false} HammingSymmetric(a: Barcode, b: Barcode)
    requires |a| == |b|
    ensures Hamming(a, b) == Hamming(b, a)
  {
    if |a| > 0 {
      HammingSymmetric(a[1..], b[1..]);
    }
  }

  /**
   * `a <= b` in Python's string order: the first differing character decides,
   * and a proper prefix is smaller than the string it starts.
   */
  predicate StrLe(a: Barcode, b: Barcode)
  {
    if a == [] then true
    else if b == [] then false
    else if a[0] != b[0] then a[0] < b[0]
    else StrLe(a[1..], b[1..])
  }

  lemma {:induction false} StrLeTotal(a: Barcode, b: Barcode)
    ensures StrLe(a, b) || StrLe(b, a)
  {
    if a != [] && b != [] && a[0] == b[0] {
      StrLeTotal(a[1..], b[1..]);
    }
  }

  lemma {:induction false} StrLeAntisymmetric(a: Barcode, b: Barcode)
    requires StrLe(a, b) && StrLe(b, a)
    ensures a == b
  {
    if a != [] && b != [] {
      StrLeAntisymmetric(a[1..], b[1..]);
      assert a == [a[0]] + a[1..] && b == [b[0]] + b[1..];
    }
  }

  lemma {:induction false} StrLeTransitive(a: Barcode, b: Barcode, c: Barcode)
    requires StrLe(a, b) && StrLe(b, c)
    ensures StrLe(a, c)
  {
    if a != [] && b != [] && c != [] && a[0] == b[0] && b[0] == c[0] {
      StrLeTransitive(a[1..], b[1..], c[1..]);
    }
  }

  /** Every pair of barcodes in `s` has the same length. */
  predicate SameLength(s: set<Barcode>)
  {
    forall a, b :: a in s && b in s ==> |a| == |b|
  }

  /** Python's `min` over a non-empty list of lengths. */
  function MinOf(xs: seq<nat>): (m: nat)
    requires |xs| > 0
    ensures m in xs
    ensures forall i :: 0 <= i < |xs| ==> m <= xs[i]
  {
    if |xs| == 1 then xs[0]
    else
      var rest := MinOf(xs[1..]);
      if xs[0] <= rest then xs[0] else rest
  }

  /** Python's `max` over a non-empty list of lengths. */
  function MaxOf(xs: seq<nat>): (m: nat)
    requires |xs| > 0
    ensures m in xs
    ensures forall i :: 0 <= i < |xs| ==> xs[i] <= m
  {
    if |xs| == 1 then xs[0]
    else
      var rest := MaxOf(xs[1..]);
      if xs[0] >= rest then xs[0] else rest
  }

  /** The length of each barcode, in the order of `umis`. */
  function Lengths(umis: seq<Barcode>): (r: seq<nat>)
    ensures |r| == |umis|
    ensures forall i :: 0 <= i < |umis| ==> r[i] == |umis[i]|
  {
    seq(|umis|, i requires 0 <= i < |umis| => |umis[i]|)
  }

  /**
   * The length check of the call: the longest and the shortest barcode agree
   * exactly when all barcodes have the same length.
   */
  lemma UniformWhenMaxIsMin(umis: seq<Barcode>)
    requires |umis| > 0
    ensures MaxOf(Lengths(umis)) == MinOf(Lengths(umis)) <==> SameLength(Elems(umis))
  {
    var ls := Lengths(umis);
    if MaxOf(ls) == MinOf(ls) {
      forall a, b | a in umis && b in umis ensures |a| == |b| {
        var i :| 0 <= i < |umis| && umis[i] == a;
        var j :| 0 <= j < |umis| && umis[j] == b;
        assert MinOf(ls) <= ls[i] <= MaxOf(ls) && MinOf(ls) <= ls[j] <= MaxOf(ls);
      }
    } else {
      var i :| 0 <= i < |ls| && ls[i] == MaxOf(ls);
      var j :| 0 <= j < |ls| && ls[j] == MinOf(ls);
      assert umis[i] in Elems(umis) && umis[j] in Elems(umis) && |umis[i]| != |umis[j]|;
    }
  }

  /**
   * The values in the length-check message: the shortest and the longest
   * length of a barcode of `keys`, both taken by some barcode.
   */
  lemma LengthBounds(umis: seq<Barcode>, keys: set<Barcode>)
    requires |umis| > 0 && keys == Elems(umis)
    ensures exists a :: a in keys && |a| == MinOf(Lengths(umis))
    ensures exists b :: b in keys && |b| == MaxOf(Lengths(umis))
    ensures forall u :: u in keys ==> MinOf(Lengths(umis)) <= |u| <= MaxOf(Lengths(umis))
  {
    var ls := Lengths(umis);
    var i :| 0 <= i < |ls| && ls[i] == MinOf(ls);
    var j :| 0 <= j < |ls| && ls[j] == MaxOf(ls);
    assert umis[i] in keys && umis[j] in keys;
    forall u | u in keys ensures MinOf(ls) <= |u| <= MaxOf(ls) {
      var k :| 0 <= k < |umis| && umis[k] == u;
      assert ls[k] == |u|;
    }
  }
}
