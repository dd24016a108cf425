/**
 * The bookkeeping behind the directional reconciliation of one barcode's
 * claims: which position currently stands for which claimant, as removals
 * land on the first component equal to a loser rather than on the loser
 * itself.
 */
module Resolution {
  import opened Barcodes
  import opened Adjacency
  import opened Ranking
  import opened Claims

  /** The first position at or after `from` holding `c`, or `|comps|`. */
  ghost function Find(comps: Components, c: set<Barcode>, from: nat): nat
    decreases |comps| - from
  {
    if from >= |comps| then from
    else if comps[from] == c then from
    else Find(comps, c, from + 1)
  }

  lemma {:induction false} FindFirst(comps: Components, c: set<Barcode>, from: nat, x: nat)
    requires from <= x < |comps| && comps[x] == c
    ensures from <= Find(comps, c, from) <= x && comps[Find(comps, c, from)] == c
    decreases x - from
  {
    if comps[from] != c {
      FindFirst(comps, c, from + 1, x);
    }
  }

  /** Positions holding equal sets share the first position holding that set. */
  ghost function ClassOf(comps: Components, x: nat): nat
    requires x < |comps|
  {
    Find(comps, comps[x], 0)
  }

  lemma ClassOfEqual(comps: Components, x: nat, y: nat)
    requires x < |comps| && y < |comps|
    ensures ClassOf(comps, x) == ClassOf(comps, y) <==> comps[x] == comps[y]
  {
    FindFirst(comps, comps[x], 0, x);
    FindFirst(comps, comps[y], 0, y);
  }

  /** `comps` with `umi` removed at every position of `dropped`. */
  ghost function Strip(comps: Components, umi: Barcode, dropped: set<nat>): (r: Components)
    ensures |r| == |comps|
    ensures forall k :: 0 <= k < |comps| ==> r[k] == if k in dropped then comps[k] - {umi} else comps[k]
  {
    seq(|comps|, k requires 0 <= k < |comps| => if k in dropped then comps[k] - {umi} else comps[k])
  }

  lemma StripRemove(comps: Components, umi: Barcode, dropped: set<nat>, k: nat)
    requires k < |comps|
    ensures Strip(comps, umi, dropped)[k := Strip(comps, umi, dropped)[k] - {umi}] == Strip(comps, umi, dropped + {k})
  {
    var a := Strip(comps, umi, dropped)[k := Strip(comps, umi, dropped)[k] - {umi}];
    var b := Strip(comps, umi, dropped + {k});
    forall x | 0 <= x < |comps| ensures a[x] == b[x] {
      if x == k {
        assert a[x] == comps[k] - {umi};
      }
    }
  }

  /** Claimant positions hold `umi` and are listed in increasing order. */
  ghost predicate ClaimsOrdered(components: Components, umi: Barcode, parents: seq<nat>)
  {
    (forall j :: 0 <= j < |parents| ==> parents[j] < |components| && umi in components[parents[j]]) &&
    (forall j1, j2 :: 0 <= j1 < j2 < |parents| ==> parents[j1] < parents[j2])
  }

  /** Every position holding `umi` is a claimant. */
  ghost predicate ClaimsCover(components: Components, umi: Barcode, parents: seq<nat>)
  {
    forall k :: 0 <= k < |components| && umi in components[k] ==> k in parents
  }

  /** The claimant positions of `Claimants` are ordered and complete. */
  lemma ClaimantsOrdered(components: Components, umi: Barcode)
    ensures ClaimsOrdered(components, umi, Claimants(components, umi))
    ensures ClaimsCover(components, umi, Claimants(components, umi))
  {
  }

  /**
   * `who[j]` is the position currently standing for claimant `j`: a distinct
   * position holding a set equal to claimant `j`'s original set.
   */
  ghost predicate StandIns(components: Components, umi: Barcode, parents: seq<nat>, who: seq<nat>)
  {
    |who| == |parents| &&
    (forall j :: 0 <= j < |parents| ==> parents[j] < |components|) &&
    (forall j :: 0 <= j < |parents| ==>
      who[j] < |components| && umi in components[who[j]] &&
      ClassOf(components, who[j]) == ClassOf(components, parents[j])) &&
    (forall j1, j2 :: 0 <= j1 < j2 < |parents| ==> who[j1] != who[j2])
  }

  /** Claimants still to come, and the winner, are untouched so far. */
  ghost predicate Untouched(parents: seq<nat>, indexRep: nat, i: nat, who: seq<nat>, dropped: set<nat>)
  {
    |who| == |parents| &&
    (forall j :: i <= j < |parents| ==> parents[j] !in dropped) &&
    (forall j :: 0 <= j < |parents| && (i <= j || j == indexRep) ==> who[j] !in dropped)
  }

  /**
   * Every position still holding `umi` stands for the winner or for a
   * claimant still to come; `owner` names that claimant.
   */
  ghost predicate Owned(components: Components, umi: Barcode, parents: seq<nat>, indexRep: nat, i: nat,
                        who: seq<nat>, dropped: set<nat>, owner: map<nat, nat>)
  {
    |who| == |parents| &&
    forall k :: 0 <= k < |components| && k !in dropped && umi in components[k] ==>
      k in owner && owner[k] < |parents| && (i <= owner[k] || owner[k] == indexRep) && who[owner[k]] == k
  }

  /**
   * The state of one claim resolution after the first `i` claimants of
   * `umi` (positions `parents`, listed in order; the winner at `indexRep`)
   * were handled:
   * `umi` has been removed at the positions of `dropped`. A removal meant for
   * claimant `j` lands on the first component equal to it, which may be
   * another position holding an equal set; the two positions then swap the
   * claimants they stand for.
   */
  ghost predicate ResolveInvariant(components: Components, umi: Barcode, parents: seq<nat>, indexRep: nat,
                                   i: nat, result: Components, who: seq<nat>, dropped: set<nat>,
                                   owner: map<nat, nat>)
  {
    indexRep < |parents| && i <= |parents| && |result| == |components| &&
    result == Strip(components, umi, dropped) &&
    StandIns(components, umi, parents, who) &&
    Untouched(parents, indexRep, i, who, dropped) &&
    Owned(components, umi, parents, indexRep, i, who, dropped, owner)
  }

  /**
   * Before any claimant is handled every claimant stands for itself and
   * owns its own position.
   */
  lemma ResolveInit(components: Components, umi: Barcode, parents: seq<nat>, indexRep: nat)
    returns (owner: map<nat, nat>)
    requires ClaimsOrdered(components, umi, parents) && ClaimsCover(components, umi, parents)
    requires indexRep < |parents|
    ensures ResolveInvariant(components, umi, parents, indexRep, 0, components, parents, {}, owner)
  {
    owner := map j | 0 <= j < |parents| :: parents[j] := j;
    assert components == Strip(components, umi, {});
    forall k | 0 <= k < |components| && umi in components[k]
      ensures k in owner && owner[k] < |parents| && parents[owner[k]] == k
    {
      assert k in parents;
      var j :| 0 <= j < |parents| && parents[j] == k;
      assert owner[k] == j by {
        forall j' | 0 <= j' < |parents| && parents[j'] == k ensures j' == j {
        }
      }
    }
  }

  /** Claimant `i` and the claimant `jk` its removal lands on swap stand-ins. */
  lemma StandInsSwap(components: Components, umi: Barcode, parents: seq<nat>, who: seq<nat>, i: nat, jk: nat)
    requires StandIns(components, umi, parents, who)
    requires i < |parents| && jk < |parents|
    requires ClassOf(components, who[jk]) == ClassOf(components, parents[i])
    ensures StandIns(components, umi, parents, who[jk := who[i]][i := who[jk]])
  {
    SwapInjective(who, jk, i);
  }

  lemma UntouchedStep(components: Components, umi: Barcode, parents: seq<nat>, indexRep: nat, i: nat,
                      who: seq<nat>, dropped: set<nat>, jk: nat)
    requires ClaimsOrdered(components, umi, parents) && StandIns(components, umi, parents, who)
    requires Untouched(parents, indexRep, i, who, dropped)
    requires i < |parents| && i != indexRep && jk < |parents| && who[jk] <= parents[i]
    ensures Untouched(parents, indexRep, i + 1, who[jk := who[i]][i := who[jk]], dropped + {who[jk]})
  {
    var k := who[jk];
    var who' := who[jk := who[i]][i := k];
    forall j | i + 1 <= j < |parents| ensures parents[j] !in dropped + {k} {
      assert parents[j] > parents[i];
    }
    forall j | 0 <= j < |parents| && (i + 1 <= j || j == indexRep) ensures who'[j] !in dropped + {k} {
      if j != jk {
        assert who'[j] == who[j] != k;
      } else {
        assert who'[j] == who[i] != k;
      }
    }
  }

  lemma OwnedStep(components: Components, umi: Barcode, parents: seq<nat>, indexRep: nat, i: nat,
                  who: seq<nat>, dropped: set<nat>, owner: map<nat, nat>, k: nat)
    requires Owned(components, umi, parents, indexRep, i, who, dropped, owner)
    requires i < |parents| && i != indexRep && k < |components| && k !in dropped && umi in components[k]
    requires forall j1, j2 :: 0 <= j1 < j2 < |parents| ==> who[j1] != who[j2]
    ensures k in owner && owner[k] < |parents|
    ensures Owned(components, umi, parents, indexRep, i + 1, who[owner[k] := who[i]][i := who[owner[k]]],
                  dropped + {k}, owner[who[i] := owner[k]])
  {
    var jk := owner[k];
    var who' := who[jk := who[i]][i := k];
    var owner' := owner[who[i] := jk];
    forall k' | 0 <= k' < |components| && k' !in dropped + {k} && umi in components[k']
      ensures k' in owner' && owner'[k'] < |parents| && (i + 1 <= owner'[k'] || owner'[k'] == indexRep) &&
              who'[owner'[k']] == k'
    {
      if k' != who[i] {
        var j := owner[k'];
        assert j != i && j != jk;
        assert owner'[k'] == j && who'[j] == k';
      } else {
        assert owner'[k'] == jk && jk != i;
      }
    }
  }

  /** Exchanging two entries keeps a sequence free of repetitions. */
  lemma SwapInjective(s: seq<nat>, a: nat, b: nat)
    requires a < |s| && b < |s|
    requires forall x, y :: 0 <= x < y < |s| ==> s[x] != s[y]
    ensures var t := s[a := s[b]][b := s[a]]; forall x, y :: 0 <= x < y < |t| ==> t[x] != t[y]
  {
  }

  /**
   * Every component of `before` claiming `umi` has a representative no greater
   * (as a string) than that of any component still holding `umi` in `after`.
   */
  ghost predicate KeptByGreatest(before: Components, after: Components, umi: Barcode, counts: Counts)
  {
    |after| == |before| && (forall k :: 0 <= k < |before| ==> before[k] <= counts.Keys) &&
    forall j, k ::
      (0 <= j < |before| && 0 <= k < |before| && umi in before[j] && umi in before[k] && umi in after[k]) ==>
      StrLe(GetBest(before[j], counts), GetBest(before[k], counts))
  }

  /** Removing more members from the later state keeps the property. */
  lemma KeptByGreatestShrinks(before: Components, mid: Components, after: Components, umi: Barcode, counts: Counts)
    requires KeptByGreatest(before, mid, umi, counts)
    requires |after| == |mid| && forall k :: 0 <= k < |after| ==> after[k] <= mid[k]
    ensures KeptByGreatest(before, after, umi, counts)
  {
  }

  /**
   * The claimant kept is one whose representative is the greatest string
   * among all claimants' representatives.
   */
  lemma WinnerIsGreatest(components: Components, umi: Barcode, counts: Counts, reps: seq<Barcode>,
                         indexRep: nat, result: Components, w: nat)
    requires forall k :: 0 <= k < |components| ==> components[k] <= counts.Keys
    requires |reps| == |Claimants(components, umi)| && indexRep < |reps|
    requires forall n :: 0 <= n < |reps| ==>
      reps[n] == GetBest(components[Claimants(components, umi)[n]], counts)
    requires forall n :: 0 <= n < |reps| ==> StrLe(reps[n], reps[indexRep])
    requires |result| == |components| && w < |components|
    requires components[w] == components[Claimants(components, umi)[indexRep]]
    requires forall k :: 0 <= k < |result| && umi in result[k] ==> k == w
    ensures KeptByGreatest(components, result, umi, counts)
  {
    var parents := Claimants(components, umi);
    forall j, k | 0 <= j < |components| && 0 <= k < |components| &&
                  umi in components[j] && umi in components[k] && umi in result[k]
      ensures StrLe(GetBest(components[j], counts), GetBest(components[k], counts))
    {
      var n :| 0 <= n < |parents| && parents[n] == j;
      assert reps[n] == GetBest(components[j], counts);
    }
  }

  /**
   * Handles claimant `i`: unless it is the winner, `umi` is removed from the
   * first component equal to that claimant's current set.
   */
  function ResolveOne(r: Components, umi: Barcode, parents: seq<nat>, indexRep: nat, i: nat): (r': Components)
    requires i < |parents| && parents[i] < |r|
    ensures |r'| == |r|
  {
    if i == indexRep then r
    else
      var k := FirstIndexOf(r, r[parents[i]]);
      r[k := r[k] - {umi}]
  }

  /** The components after the first `i` claimants were handled. */
  function Resolved(components: Components, umi: Barcode, parents: seq<nat>, indexRep: nat, i: nat): (r: Components)
    requires i <= |parents| && forall j :: 0 <= j < |parents| ==> parents[j] < |components|
    ensures |r| == |components|
    decreases i
  {
    if i == 0 then components
    else ResolveOne(Resolved(components, umi, parents, indexRep, i - 1), umi, parents, indexRep, i - 1)
  }

  /** Handling claimants only ever removes members. */
  lemma {:induction false} ResolvedShrinks(components: Components, umi: Barcode, parents: seq<nat>, indexRep: nat, i: nat)
    requires i <= |parents| && forall j :: 0 <= j < |parents| ==> parents[j] < |components|
    ensures var r := Resolved(components, umi, parents, indexRep, i);
      forall k :: 0 <= k < |r| ==> r[k] <= components[k]
    decreases i
  {
    if i > 0 {
      ResolvedShrinks(components, umi, parents, indexRep, i - 1);
    }
  }

  /**
   * Handling claimant `i`, not the winner, keeps the invariant: the removal
   * lands on the first position `k` equal to it, which stands for some
   * claimant `owner[k]` not yet handled (or for the winner, holding an equal
   * set); the two claimants then swap stand-ins.
   */
  lemma ResolveStep(components: Components, umi: Barcode, parents: seq<nat>, indexRep: nat, i: nat,
                    result: Components, who: seq<nat>, dropped: set<nat>, owner: map<nat, nat>)
    returns (k: nat)
    requires ClaimsOrdered(components, umi, parents)
    requires ResolveInvariant(components, umi, parents, indexRep, i, result, who, dropped, owner)
    requires i < |parents| && i != indexRep
    ensures parents[i] < |result| && k == FirstIndexOf(result, result[parents[i]])
    ensures umi in result[k]
    ensures k in owner && owner[k] < |who|
    ensures ResolveInvariant(components, umi, parents, indexRep, i + 1, result[k := result[k] - {umi}],
                             who[owner[k] := who[i]][i := who[owner[k]]], dropped + {k}, owner[who[i] := owner[k]])
  {
    var p := parents[i];
    k := FirstIndexOf(result, result[p]);
    FirstIndexOfFirst(result, result[p], p);
    assert p !in dropped && result[p] == components[p];
    assert umi in result[k];
    assert k !in dropped;
    assert components[k] == components[p] by {
      assert result[k] == components[k];
    }
    ClassOfEqual(components, k, p);
    OwnedStep(components, umi, parents, indexRep, i, who, dropped, owner, k);
    var jk := owner[k];
    StandInsSwap(components, umi, parents, who, i, jk);
    UntouchedStep(components, umi, parents, indexRep, i, who, dropped, jk);
    StripRemove(components, umi, dropped, k);
  }

  /** Handling the winner changes nothing and keeps the invariant. */
  lemma ResolveSkip(components: Components, umi: Barcode, parents: seq<nat>, indexRep: nat,
                    result: Components, who: seq<nat>, dropped: set<nat>, owner: map<nat, nat>)
    requires ResolveInvariant(components, umi, parents, indexRep, indexRep, result, who, dropped, owner)
    ensures ResolveInvariant(components, umi, parents, indexRep, indexRep + 1, result, who, dropped, owner)
  {
  }

  /**
   * Once every claimant is handled, `umi` is held at exactly one position,
   * holding a set equal to the winner's, and it left no other set.
   */
  lemma ResolvedOutcome(components: Components, umi: Barcode, parents: seq<nat>, indexRep: nat) returns (w: nat)
    requires ClaimsOrdered(components, umi, parents) && ClaimsCover(components, umi, parents)
    requires indexRep < |parents|
    ensures var result := Resolved(components, umi, parents, indexRep, |parents|);
      (forall k :: 0 <= k < |result| ==> result[k] == components[k] || result[k] == components[k] - {umi}) &&
      w < |result| && umi in result[w] && components[w] == components[parents[indexRep]] &&
      (forall k :: 0 <= k < |result| && umi in result[k] ==> k == w)
  {
    var result, who, dropped := components, parents, {};
    var owner := ResolveInit(components, umi, parents, indexRep);
    var i := 0;
    while i < |parents|
      invariant i <= |parents|
      invariant result == Resolved(components, umi, parents, indexRep, i)
      invariant ResolveInvariant(components, umi, parents, indexRep, i, result, who, dropped, owner)
    {
      result, who, dropped, owner := ResolveNext(components, umi, parents, indexRep, i, result, who, dropped, owner);
      i := i + 1;
    }
    assert i == |parents|;
    w := ResolveFinish(components, umi, parents, indexRep, result, who, dropped, owner);
  }

  /** Handling claimant `i` advances the resolution by one step and keeps the invariant. */
  lemma ResolveNext(components: Components, umi: Barcode, parents: seq<nat>, indexRep: nat, i: nat,
                    result: Components, who: seq<nat>, dropped: set<nat>, owner: map<nat, nat>)
    returns (result': Components, who': seq<nat>, dropped': set<nat>, owner': map<nat, nat>)
    requires ClaimsOrdered(components, umi, parents) && i < |parents|
    requires result == Resolved(components, umi, parents, indexRep, i)
    requires ResolveInvariant(components, umi, parents, indexRep, i, result, who, dropped, owner)
    ensures result' == Resolved(components, umi, parents, indexRep, i + 1)
    ensures ResolveInvariant(components, umi, parents, indexRep, i + 1, result', who', dropped', owner')
  {
    if i == indexRep {
      ResolveSkip(components, umi, parents, indexRep, result, who, dropped, owner);
      result', who', dropped', owner' := result, who, dropped, owner;
    } else {
      var k := ResolveStep(components, umi, parents, indexRep, i, result, who, dropped, owner);
      var jk := owner[k];
      result', dropped' := result[k := result[k] - {umi}], dropped + {k};
      who', owner' := who[jk := who[i]][i := who[jk]], owner[who[i] := jk];
    }
  }

  /**
   * Once every claimant is handled, only the winner's stand-in still holds
   * `umi`; every other component lost at most `umi`.
   */
  lemma ResolveFinish(components: Components, umi: Barcode, parents: seq<nat>, indexRep: nat,
                      result: Components, who: seq<nat>, dropped: set<nat>, owner: map<nat, nat>)
    returns (w: nat)
    requires ResolveInvariant(components, umi, parents, indexRep, |parents|, result, who, dropped, owner)
    ensures forall k :: 0 <= k < |result| ==> result[k] == components[k] || result[k] == components[k] - {umi}
    ensures w < |result| && umi in result[w] && components[w] == components[parents[indexRep]]
    ensures forall k :: 0 <= k < |result| && umi in result[k] ==> k == w
  {
    w := who[indexRep];
    ClassOfEqual(components, w, parents[indexRep]);
    forall k | 0 <= k < |result| && umi in result[k] ensures k == w {
      assert k !in dropped;
    }
  }

  /** The representative of each claimant of a barcode, in claim order. */
  function Reps(components: Components, parents: seq<nat>, counts: Counts): seq<Barcode>
    requires forall j :: 0 <= j < |parents| ==>
      parents[j] < |components| && components[parents[j]] != {} && components[parents[j]] <= counts.Keys
  {
    seq(|parents|, i requires 0 <= i < |parents| => GetBest(components[parents[i]], counts))
  }

  /**
   * The components after the claims on `umi` are resolved: unchanged unless
   * several components claim it, otherwise every claimant but the one whose
   * representative is the greatest string gives it up.
   */
  function Reconcile(components: Components, umi: Barcode, counts: Counts): (r: Components)
    requires forall k :: 0 <= k < |components| ==> components[k] <= counts.Keys
    ensures |r| == |components|
    ensures forall k :: 0 <= k < |r| ==> r[k] <= components[k]
  {
    var parents := Claimants(components, umi);
    if |parents| > 1 then
      var indexRep := IndexOfMax(Reps(components, parents, counts));
      ResolvedShrinks(components, umi, parents, indexRep, |parents|);
      Resolved(components, umi, parents, indexRep, |parents|)
    else components
  }

  /** The components after the claims on each barcode of `umis` are resolved in turn. */
  function ReconcileAll(umis: seq<Barcode>, components: Components, counts: Counts): (r: Components)
    requires forall k :: 0 <= k < |components| ==> components[k] <= counts.Keys
    ensures |r| == |components|
    ensures forall k :: 0 <= k < |r| ==> r[k] <= components[k]
    decreases |umis|
  {
    if umis == [] then components
    else
      var n := |umis| - 1;
      Reconcile(ReconcileAll(umis[..n], components, counts), umis[n], counts)
  }

  /** Resolving one more barcode extends the fold by one step. */
  lemma ReconcileAllPrefix(umis: seq<Barcode>, components: Components, counts: Counts, n: nat)
    requires n < |umis|
    requires forall k :: 0 <= k < |components| ==> components[k] <= counts.Keys
    ensures ReconcileAll(umis[..n + 1], components, counts)
         == Reconcile(ReconcileAll(umis[..n], components, counts), umis[n], counts)
  {
    assert umis[..n + 1][..n] == umis[..n];
  }

  /**
   * A barcode claimed by at most one component costs nothing to resolve: the
   * components come back unchanged.
   */
  lemma {:induction false} ReconcileAllIdle(umis: seq<Barcode>, components: Components, counts: Counts)
    requires forall k :: 0 <= k < |components| ==> components[k] <= counts.Keys
    requires forall u :: u in umis ==> ClaimCount(components, u) <= 1
    ensures ReconcileAll(umis, components, counts) == components
    decreases |umis|
  {
    if umis != [] {
      var n := |umis| - 1;
      forall u | u in umis[..n] ensures ClaimCount(components, u) <= 1 {
        assert u in umis;
      }
      ReconcileAllIdle(umis[..n], components, counts);
      assert ClaimCount(components, umis[n]) <= 1;
    }
  }
}
