/** compareWithExistingData, as a specification: which observed bounties are reported as
    differences, and what each reported difference holds. The per-bounty link fetch is the
    oracle `links`, from bounty id to the link list the bounty page yields. */
module Compare {
  import opened Slices
  import opened Records

  /** `list[i]` is the last bounty of `list` whose project is `p`. */
  ghost predicate LastWith(list: seq<Bounty>, i: int, p: string)
  {
    0 <= i < |list| && list[i].project == p && forall j :: i < j < |list| ==> list[j].project != p
  }

  /** The stored rows keyed by project; a later row overwrites an earlier one of the same project. */
  function ExistingByProject(list: seq<Bounty>): (m: map<string, Bounty>)
    ensures forall p :: p in m <==> exists i :: 0 <= i < |list| && list[i].project == p
    ensures forall p :: p in m ==> exists i :: LastWith(list, i, p) && list[i] == m[p]
  {
    if |list| == 0 then map[]
    else
      var init, last := list[..|list| - 1], list[|list| - 1];
      var m := ExistingByProject(init);
      ExistingStep(init, last, m);
      assert list == init + [last];
      m[last.project := last]
  }

  lemma ExistingStep(init: seq<Bounty>, last: Bounty, m: map<string, Bounty>)
    requires forall p :: p in m <==> exists i :: 0 <= i < |init| && init[i].project == p
    requires forall p :: p in m ==> exists i :: LastWith(init, i, p) && init[i] == m[p]
    ensures var list, m' := init + [last], m[last.project := last];
      && (forall p :: p in m' <==> exists i :: 0 <= i < |list| && list[i].project == p)
      && (forall p :: p in m' ==> exists i :: LastWith(list, i, p) && list[i] == m'[p])
  {
    var list, m' := init + [last], m[last.project := last];
    forall p ensures p in m' <==> exists i :: 0 <= i < |list| && list[i].project == p {
      if p == last.project {
        assert list[|init|].project == p;
      } else if p in m {
        var i :| 0 <= i < |init| && init[i].project == p;
        assert list[i] == init[i];
      }
      if exists i :: 0 <= i < |list| && list[i].project == p {
        var i :| 0 <= i < |list| && list[i].project == p;
        if i < |init| {
          assert init[i] == list[i];
        }
      }
    }
    forall p | p in m' ensures exists i :: LastWith(list, i, p) && list[i] == m'[p] {
      if p == last.project {
        assert LastWith(list, |init|, p);
      } else {
        var i :| LastWith(init, i, p) && init[i] == m[p];
        assert list[i] == init[i];
        assert LastWith(list, i, p);
      }
    }
  }

  /** The stored record and the fresh observation disagree: another date, or another link list
      (compared position by position, so a reordering counts). */
  predicate Changed(stored: Bounty, item: Bounty, fetched: seq<string>)
  {
    stored.updatedDate != item.updatedDate || stored.assetLinks != fetched
  }

  /** The observed bounty is reported: its project is stored and the stored record changed. */
  ghost predicate Reported(item: Bounty, existing: map<string, Bounty>, links: string -> seq<string>)
  {
    item.project in existing && Changed(existing[item.project], item, links(item.id))
  }

  /** What a reported difference holds for an observed bounty and its stored record. */
  ghost predicate Describes(d: Difference, item: Bounty, stored: Bounty, fetched: seq<string>)
  {
    && d.id == item.id
    && d.project == item.project
    && d.existingUpdatedDate == stored.updatedDate
    && d.newUpdatedDate == item.updatedDate
    && d.linkDiff == Minus(fetched, stored.assetLinks)
  }

  /** The differences compareWithExistingData appends, in the order of `newData`. */
  function Reconcile(newData: seq<Bounty>, existing: map<string, Bounty>, links: string -> seq<string>)
    : (r: seq<Difference>)
    ensures |r| <= |newData|
    ensures forall k :: 0 <= k < |r| ==> r[k].project in existing
  {
    if |newData| == 0 then []
    else
      var item := newData[|newData| - 1];
      var fetched := links(item.id);
      Reconcile(newData[..|newData| - 1], existing, links)
        + if item.project in existing && Changed(existing[item.project], item, fetched)
          then [Difference(item.id, item.project, existing[item.project].updatedDate, item.updatedDate,
                           Minus(fetched, existing[item.project].assetLinks))]
          else []
  }

  ghost predicate Increasing(idx: seq<nat>)
  {
    forall k, l :: 0 <= k < l < |idx| ==> idx[k] < idx[l]
  }

  /** `idx` lists, in increasing order, the positions of the reported bounties of `newData`,
      and difference k of `r` describes bounty idx[k]. */
  ghost predicate Selects(newData: seq<Bounty>, existing: map<string, Bounty>, links: string -> seq<string>,
                          r: seq<Difference>, idx: seq<nat>)
  {
    && |idx| == |r|
    && Increasing(idx)
    && (forall k :: 0 <= k < |idx| ==>
          && idx[k] < |newData|
          && Reported(newData[idx[k]], existing, links)
          && Describes(r[k], newData[idx[k]], existing[newData[idx[k]].project], links(newData[idx[k]].id)))
    && (forall i :: 0 <= i < |newData| ==> (i in idx <==> Reported(newData[i], existing, links)))
  }

  /** The differences are, in input order, exactly one per reported observed bounty. */
  lemma {:induction false} ReconcileSelects(newData: seq<Bounty>, existing: map<string, Bounty>,
                                            links: string -> seq<string>)
    returns (idx: seq<nat>)
    ensures Selects(newData, existing, links, Reconcile(newData, existing, links), idx)
  {
    if |newData| == 0 {
      idx := [];
    } else {
      var n := |newData| - 1;
      var pre := ReconcileSelects(newData[..n], existing, links);
      idx := SelectsStep(newData, existing, links, pre);
    }
  }

  lemma SelectsStep(newData: seq<Bounty>, existing: map<string, Bounty>, links: string -> seq<string>,
                    pre: seq<nat>)
    returns (idx: seq<nat>)
    requires |newData| > 0
    requires Selects(newData[..|newData| - 1], existing, links,
                     Reconcile(newData[..|newData| - 1], existing, links), pre)
    ensures Selects(newData, existing, links, Reconcile(newData, existing, links), idx)
  {
    var n := |newData| - 1;
    if Reported(newData[n], existing, links) {
      idx := pre + [n];
      SelectsAppend(newData, existing, links, pre);
    } else {
      idx := pre;
      SelectsKeep(newData, existing, links, pre);
    }
  }

  /** The last observed bounty is reported: its difference is appended, with its position. */
  lemma SelectsAppend(newData: seq<Bounty>, existing: map<string, Bounty>, links: string -> seq<string>,
                      pre: seq<nat>)
    requires |newData| > 0 && Reported(newData[|newData| - 1], existing, links)
    requires Selects(newData[..|newData| - 1], existing, links,
                     Reconcile(newData[..|newData| - 1], existing, links), pre)
    ensures Selects(newData, existing, links, Reconcile(newData, existing, links), pre + [|newData| - 1])
  {
    var n := |newData| - 1;
    var init, item := newData[..n], newData[n];
    var r, r0 := Reconcile(newData, existing, links), Reconcile(init, existing, links);
    assert forall i :: 0 <= i < n ==> init[i] == newData[i];
    var stored := existing[item.project];
    var d := Difference(item.id, item.project, stored.updatedDate, item.updatedDate,
                        Minus(links(item.id), stored.assetLinks));
    assert r == r0 + [d];
    var idx := pre + [n];
    forall k | 0 <= k < |idx|
      ensures && idx[k] < |newData| && Reported(newData[idx[k]], existing, links)
              && Describes(r[k], newData[idx[k]], existing[newData[idx[k]].project], links(newData[idx[k]].id))
    {
      if k < |pre| {
        assert r[k] == r0[k] && idx[k] == pre[k];
      } else {
        assert r[k] == d && idx[k] == n;
      }
    }
    forall i | 0 <= i < |newData| ensures i in idx <==> Reported(newData[i], existing, links) {
      if i < n {
        assert i in idx <==> i in pre;
      }
    }
  }

  /** The last observed bounty is not reported: the differences and positions stay as they were. */
  lemma SelectsKeep(newData: seq<Bounty>, existing: map<string, Bounty>, links: string -> seq<string>,
                    pre: seq<nat>)
    requires |newData| > 0 && !Reported(newData[|newData| - 1], existing, links)
    requires Selects(newData[..|newData| - 1], existing, links,
                     Reconcile(newData[..|newData| - 1], existing, links), pre)
    ensures Selects(newData, existing, links, Reconcile(newData, existing, links), pre)
  {
    var n := |newData| - 1;
    var init := newData[..n];
    var r := Reconcile(newData, existing, links);
    assert r == Reconcile(init, existing, links);
    forall k | 0 <= k < |pre|
      ensures && pre[k] < |newData| && Reported(newData[pre[k]], existing, links)
              && Describes(r[k], newData[pre[k]], existing[newData[pre[k]].project], links(newData[pre[k]].id))
    {
      assert newData[pre[k]] == init[pre[k]];
    }
    forall i | 0 <= i < |newData| ensures i in pre <==> Reported(newData[i], existing, links) {
      if i < n {
        assert newData[i] == init[i];
      } else {
        forall k | 0 <= k < |pre| ensures pre[k] != i {
        }
      }
    }
  }

  /** No difference is reported exactly when no observed bounty is reported. */
  lemma ReconcileEmptyIff(newData: seq<Bounty>, existing: map<string, Bounty>, links: string -> seq<string>)
    ensures Reconcile(newData, existing, links) == [] <==>
            forall i :: 0 <= i < |newData| ==> !Reported(newData[i], existing, links)
  {
    var idx := ReconcileSelects(newData, existing, links);
    if exists i :: 0 <= i < |newData| && Reported(newData[i], existing, links) {
      var i :| 0 <= i < |newData| && Reported(newData[i], existing, links);
      assert i in idx;
    }
  }

  /** Links that only changed order, with an unchanged date, are still reported, but the
      reported link delta is empty. */
  lemma ReorderedLinksReported(item: Bounty, existing: map<string, Bounty>, links: string -> seq<string>)
    requires item.project in existing
    requires existing[item.project].updatedDate == item.updatedDate
    requires multiset(links(item.id)) == multiset(existing[item.project].assetLinks)
    requires links(item.id) != existing[item.project].assetLinks
    ensures Reconcile([item], existing, links)
            == [Difference(item.id, item.project, item.updatedDate, item.updatedDate, [])]
  {
    var fetched, stored := links(item.id), existing[item.project].assetLinks;
    forall x | x in fetched ensures x in stored {
      assert x in multiset(fetched);
    }
    MinusEmptyIff(fetched, stored);
    assert [item][..0] == [];
  }
}
