/** What one cycle leaves for the next: the stored records after seeding and after the update,
    as compareWithExistingData reads them back. The update's keys are read into the same fields
    as the inserted ones. When no two observed bounties share a project, no two stored records
    share a project and no write fails, a cycle that observes the same bounties again finds
    nothing (`CycleConverges`). With two stored records of one project, a reported difference is
    found again by the next cycle (`DuplicateRowsRereported`). */
module Convergence {
  import opened Options
  import opened Records
  import opened Compare
  import opened Store

  /** With distinct projects, the row of a project is the record compareWithExistingData keeps. */
  lemma ExistingDistinct(list: seq<Bounty>, j: int)
    requires DistinctProjects(list) && 0 <= j < |list|
    ensures list[j].project in ExistingByProject(list)
    ensures ExistingByProject(list)[list[j].project] == list[j]
  {
    var m := ExistingByProject(list);
    var p := list[j].project;
    var i :| LastWith(list, i, p) && list[i] == m[p];
  }

  /** The filter on a well-formed document is a test of its decoded project. */
  lemma MatchesDecoded(doc: Document, p: string)
    requires WellFormed(doc)
    ensures Matches(doc, p) <==> Decode(doc).project == p
  {
  }

  /** The update reads back as the record with the new date and links. */
  lemma UpdateDecodes(docs: seq<Document>, batch: seq<Difference>, links: string -> seq<string>, j: int)
    requires AllWellFormed(docs) && 0 <= j < |docs|
    ensures AllWellFormed(Updated(docs, batch, links))
    ensures var b := Decode(docs[j]);
            Decode(Updated(docs, batch, links)[j])
            == if FirstOfProject(docs, j) && LastFor(batch, b.project).Some?
               then b.(updatedDate := LastFor(batch, b.project).value.newUpdatedDate,
                       assetLinks := links(LastFor(batch, b.project).value.id))
               else b
  {
    UpdateWellFormed(docs, batch, links);
    var b := Decode(docs[j]);
    if FirstOfProject(docs, j) && LastFor(batch, b.project).Some? {
      var d := LastFor(batch, b.project).value;
      DecodeAfterSet(docs[j], d.newUpdatedDate, links(d.id));
    }
  }

  /** Seeding then comparing in the same cycle finds nothing when the observed projects are distinct. */
  lemma SeededBaselineReportsNothing(observed: seq<Bounty>, links: string -> seq<string>)
    requires DistinctProjects(observed)
    ensures var seeded := EncodeAll(WithFetchedLinks(observed, links));
            AllWellFormed(seeded) && Reconcile(observed, ExistingByProject(DecodeAll(seeded)), links) == []
  {
    var fetched := WithFetchedLinks(observed, links);
    var seeded := EncodeAll(fetched);
    assert DecodeAll(seeded) == fetched by {
      forall i | 0 <= i < |fetched| ensures Decode(seeded[i]) == fetched[i] {
        DecodeEncode(fetched[i], map[]);
        assert map[] + Encode(fetched[i]) == Encode(fetched[i]);
      }
    }
    var existing := ExistingByProject(fetched);
    forall i | 0 <= i < |observed| ensures !Reported(observed[i], existing, links) {
      ExistingDistinct(fetched, i);
    }
    ReconcileEmptyIff(observed, existing, links);
  }

  /** The update keeps every record's project, hence distinct projects stay distinct. */
  lemma UpdateKeepsProjects(docs: seq<Document>, batch: seq<Difference>, links: string -> seq<string>)
    requires AllWellFormed(docs)
    ensures AllWellFormed(Updated(docs, batch, links))
    ensures forall j :: 0 <= j < |docs| ==>
      DecodeAll(Updated(docs, batch, links))[j].project == DecodeAll(docs)[j].project
    ensures DistinctProjects(DecodeAll(docs)) ==> DistinctProjects(DecodeAll(Updated(docs, batch, links)))
  {
    UpdateWellFormed(docs, batch, links);
    forall j | 0 <= j < |docs|
      ensures DecodeAll(Updated(docs, batch, links))[j].project == DecodeAll(docs)[j].project
    {
      UpdateDecodes(docs, batch, links, j);
    }
  }

  /** With distinct observed projects, the batch's entry for the project of an observed bounty
      carries that bounty's id and date, and a bounty with no entry was not reported. */
  lemma EntryOfObserved(observed: seq<Bounty>, existing: map<string, Bounty>, links: string -> seq<string>, i: int)
    requires DistinctProjects(observed) && 0 <= i < |observed|
    ensures var found, p := Reconcile(observed, existing, links), observed[i].project;
            && (LastFor(found, p).None? ==> !Reported(observed[i], existing, links))
            && (LastFor(found, p).Some? ==>
                  && LastFor(found, p).value.id == observed[i].id
                  && LastFor(found, p).value.newUpdatedDate == observed[i].updatedDate)
  {
    var found, p := Reconcile(observed, existing, links), observed[i].project;
    var idx := ReconcileSelects(observed, existing, links);
    match LastFor(found, p)
    case Some(d) =>
      var k :| 0 <= k < |found| && found[k] == d;
      assert observed[idx[k]].project == p;
      assert idx[k] == i;
    case None =>
      forall k | 0 <= k < |idx| ensures idx[k] != i {
        assert found[k].project == observed[idx[k]].project != p;
      }
  }

  /** The stored record of a project after the update, seen through compareWithExistingData. */
  lemma StoredAfterUpdate(docs: seq<Document>, batch: seq<Difference>, links: string -> seq<string>, p: string)
    requires AllWellFormed(docs)
    requires DistinctProjects(DecodeAll(docs))
    ensures AllWellFormed(Updated(docs, batch, links))
    ensures var existing, existing' := ExistingByProject(DecodeAll(docs)),
                                      ExistingByProject(DecodeAll(Updated(docs, batch, links)));
            && (p in existing' <==> p in existing)
            && (p in existing' ==>
                  existing'[p] == if LastFor(batch, p).Some?
                                  then existing[p].(updatedDate := LastFor(batch, p).value.newUpdatedDate,
                                                    assetLinks := links(LastFor(batch, p).value.id))
                                  else existing[p])
  {
    var stored := DecodeAll(docs);
    UpdateKeepsProjects(docs, batch, links);
    var stored' := DecodeAll(Updated(docs, batch, links));
    var existing, existing' := ExistingByProject(stored), ExistingByProject(stored');
    if p in existing' || p in existing {
      var j :| 0 <= j < |stored| && stored[j].project == p;
      ExistingDistinct(stored', j);
      ExistingDistinct(stored, j);
      forall k | 0 <= k < j ensures !Matches(docs[k], p) {
        MatchesDecoded(docs[k], p);
      }
      MatchesDecoded(docs[j], p);
      assert FirstOfProject(docs, j);
      UpdateDecodes(docs, batch, links, j);
    }
  }

  /** One observed bounty is not reported again after the update by its own cycle's differences. */
  lemma SettledAfterUpdate(docs: seq<Document>, observed: seq<Bounty>, links: string -> seq<string>, i: int)
    requires AllWellFormed(docs)
    requires DistinctProjects(DecodeAll(docs))
    requires DistinctProjects(observed)
    requires 0 <= i < |observed|
    ensures var found := Reconcile(observed, ExistingByProject(DecodeAll(docs)), links);
            var after := Updated(docs, found, links);
            AllWellFormed(after) && !Reported(observed[i], ExistingByProject(DecodeAll(after)), links)
  {
    var existing := ExistingByProject(DecodeAll(docs));
    var found := Reconcile(observed, existing, links);
    EntryOfObserved(observed, existing, links, i);
    StoredAfterUpdate(docs, found, links, observed[i].project);
  }

  /** With distinct projects on both sides and no failed write, updating the stored records by a
      cycle's differences makes the next cycle over the same observation find nothing. */
  lemma CycleConverges(docs: seq<Document>, observed: seq<Bounty>, links: string -> seq<string>)
    requires AllWellFormed(docs)
    requires DistinctProjects(DecodeAll(docs))
    requires DistinctProjects(observed)
    ensures var found := Reconcile(observed, ExistingByProject(DecodeAll(docs)), links);
            var after := Updated(docs, found, links);
            AllWellFormed(after) && Reconcile(observed, ExistingByProject(DecodeAll(after)), links) == []
  {
    var found := Reconcile(observed, ExistingByProject(DecodeAll(docs)), links);
    var after := Updated(docs, found, links);
    UpdateKeepsProjects(docs, found, links);
    var existing' := ExistingByProject(DecodeAll(after));
    forall i | 0 <= i < |observed| ensures !Reported(observed[i], existing', links) {
      SettledAfterUpdate(docs, observed, links, i);
    }
    ReconcileEmptyIff(observed, existing', links);
  }

  /** A stored "acme" record of 2024-01-01 without links, observed again on 2024-02-01 with one
      GitHub link: one difference with that link as its delta, and nothing in the next cycle. */
  lemma AcmeFoundThenSettled()
    ensures var stored := Bounty("7", "acme", "2024-01-01", []);
            var item := Bounty("7", "acme", "2024-02-01", []);
            var links := (id: string) => ["https://github.com/acme/x"];
            var docs := [Encode(stored)];
            var found := Reconcile([item], ExistingByProject(DecodeAll(docs)), links);
            var after := Updated(docs, found, links);
            && found == [Difference("7", "acme", "2024-01-01", "2024-02-01", ["https://github.com/acme/x"])]
            && AllWellFormed(after)
            && Reconcile([item], ExistingByProject(DecodeAll(after)), links) == []
  {
    var stored := Bounty("7", "acme", "2024-01-01", []);
    var item := Bounty("7", "acme", "2024-02-01", []);
    var links := (id: string) => ["https://github.com/acme/x"];
    var docs := [Encode(stored)];
    assert DecodeAll(docs) == [stored];
    assert [stored][..0] == [] && [item][..0] == [];
    assert "2024-01-01"[6] != "2024-02-01"[6];
    var found := Reconcile([item], ExistingByProject(DecodeAll(docs)), links);
    assert found == [Difference("7", "acme", "2024-01-01", "2024-02-01", Slices.Minus(links("7"), []))];
    assert Slices.Minus(["https://github.com/acme/x"], []) == ["https://github.com/acme/x"] by {
      assert ["https://github.com/acme/x"][..0] == [];
    }
    CycleConverges(docs, [item], links);
  }

  /** Two stored rows of one project: the update changes the first, but compareWithExistingData
      keeps the last, so the same difference is found again by the next cycle. */
  lemma DuplicateRowsRereported(links: string -> seq<string>)
    requires links("1") == []
    ensures var docs := [Encode(Bounty("1", "acme", "d0", [])), Encode(Bounty("2", "acme", "d0", []))];
            var item := Bounty("1", "acme", "d1", []);
            var found := Reconcile([item], ExistingByProject(DecodeAll(docs)), links);
            var after := Updated(docs, found, links);
            && found == [Difference("1", "acme", "d0", "d1", [])]
            && AllWellFormed(after)
            && Reconcile([item], ExistingByProject(DecodeAll(after)), links) == found
  {
    var first, second := Bounty("1", "acme", "d0", []), Bounty("2", "acme", "d0", []);
    var docs := [Encode(first), Encode(second)];
    var item := Bounty("1", "acme", "d1", []);
    var found := [Difference("1", "acme", "d0", "d1", [])];
    assert DecodeAll(docs) == [first, second];
    DuplicateRowsReported(first, second, item, links);
    DuplicateRowsDecodedAfter(docs, found, links);
    DuplicateRowsReported(first.(updatedDate := "d1"), second, item, links);
  }

  /** Against two rows of project acme whose last has date d0, the acme bounty of date d1 is reported. */
  lemma DuplicateRowsReported(row0: Bounty, second: Bounty, item: Bounty, links: string -> seq<string>)
    requires second == Bounty("2", "acme", "d0", [])
    requires row0.project == "acme" && item == Bounty("1", "acme", "d1", []) && links("1") == []
    ensures Reconcile([item], ExistingByProject([row0, second]), links)
            == [Difference("1", "acme", "d0", "d1", [])]
  {
    assert [row0, second][..1] == [row0];
    assert ExistingByProject([row0, second])["acme"] == second;
    assert [item][..0] == [];
    assert "d0"[1] != "d1"[1];
  }

  /** After the update, the first acme row reads back with date d1 and the second is untouched. */
  lemma DuplicateRowsDecodedAfter(docs: seq<Document>, found: seq<Difference>, links: string -> seq<string>)
    requires docs == [Encode(Bounty("1", "acme", "d0", [])), Encode(Bounty("2", "acme", "d0", []))]
    requires found == [Difference("1", "acme", "d0", "d1", [])] && links("1") == []
    ensures AllWellFormed(Updated(docs, found, links))
    ensures DecodeAll(Updated(docs, found, links))
            == [Bounty("1", "acme", "d1", []), Bounty("2", "acme", "d0", [])]
  {
    assert Matches(docs[0], "acme");
    UpdateDecodes(docs, found, links, 0);
    UpdateDecodes(docs, found, links, 1);
  }
}
