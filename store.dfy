/** The two collections the scraper writes, and the writes themselves: insertIntoDiffTable
    (an upsert by project), updateBountiesTable (an update of an existing record, no upsert)
    and initializeBountiesTableIfEmpty (a bulk insert into an empty table). A failed driver call
    is logged and skipped by the source; here it is an input saying which calls fail. */
module Store {
  import opened Options
  import opened Records
  import opened Compare

  /** The entries of a batch whose write succeeds; entry i fails when i is in `failed`. */
  function Surviving(batch: seq<Difference>, failed: set<nat>): seq<Difference>
  {
    if |batch| == 0 then []
    else Surviving(batch[..|batch| - 1], failed)
         + if |batch| - 1 in failed then [] else [batch[|batch| - 1]]
  }

  lemma SurvivingStep(batch: seq<Difference>, i: int, failed: set<nat>)
    requires 0 <= i < |batch|
    ensures i in failed ==> Surviving(batch[..i + 1], failed) == Surviving(batch[..i], failed)
    ensures i !in failed ==> Surviving(batch[..i + 1], failed) == Surviving(batch[..i], failed) + [batch[i]]
  {
    assert batch[..i + 1][..i] == batch[..i];
  }

  /** The last entry of the batch for project `p`, if any. */
  function LastFor(batch: seq<Difference>, p: string): (r: Option<Difference>)
    ensures r.None? <==> forall k :: 0 <= k < |batch| ==> batch[k].project != p
    ensures r.Some? ==> r.value.project == p
    ensures r.Some? ==>
      exists k :: 0 <= k < |batch| && batch[k] == r.value && forall l :: k < l < |batch| ==> batch[l].project != p
  {
    if |batch| == 0 then None
    else if batch[|batch| - 1].project == p then Some(batch[|batch| - 1])
    else
      var r := LastFor(batch[..|batch| - 1], p);
      assert forall k :: 0 <= k < |batch| - 1 ==> batch[..|batch| - 1][k] == batch[k];
      r
  }

  // ---------------------------------------------------------------- the differences table

  /** The differences table: each record is stored under its own project. */
  ghost predicate KeyedByProject(table: map<string, Difference>)
  {
    forall p :: p in table ==> table[p].project == p
  }

  /** The differences table after upserting the batch's entries by project, one after another. */
  function UpsertAll(table: map<string, Difference>, batch: seq<Difference>): map<string, Difference>
  {
    if |batch| == 0 then table
    else
      var d := batch[|batch| - 1];
      UpsertAll(table, batch[..|batch| - 1])[d.project := d]
  }

  /** After the upserts a project holds the batch's last entry for it; projects the batch does
      not mention keep their record, or stay absent. */
  lemma {:induction false} UpsertAllLookup(table: map<string, Difference>, batch: seq<Difference>, p: string)
    ensures p in UpsertAll(table, batch) <==> p in table || LastFor(batch, p).Some?
    ensures p in UpsertAll(table, batch) ==>
      UpsertAll(table, batch)[p] == if LastFor(batch, p).Some? then LastFor(batch, p).value else table[p]
  {
    if |batch| > 0 {
      UpsertAllLookup(table, batch[..|batch| - 1], p);
    }
  }

  lemma UpsertAllKeyed(table: map<string, Difference>, batch: seq<Difference>)
    requires KeyedByProject(table)
    ensures KeyedByProject(UpsertAll(table, batch))
  {
    forall p | p in UpsertAll(table, batch) ensures UpsertAll(table, batch)[p].project == p {
      UpsertAllLookup(table, batch, p);
    }
  }

  /** One more upsert, or a failed one, extends the batch applied so far. */
  lemma UpsertSurvivingStep(table: map<string, Difference>, batch: seq<Difference>, i: int, failed: set<nat>)
    requires 0 <= i < |batch|
    ensures UpsertAll(table, Surviving(batch[..i + 1], failed))
            == if i in failed then UpsertAll(table, Surviving(batch[..i], failed))
               else UpsertAll(table, Surviving(batch[..i], failed))[batch[i].project := batch[i]]
  {
    SurvivingStep(batch, i, failed);
    if i !in failed {
      var applied := Surviving(batch[..i], failed);
      assert (applied + [batch[i]])[..|applied|] == applied;
    }
  }

  /** Upserting the same batch a second time changes nothing. */
  lemma UpsertAllIdempotent(table: map<string, Difference>, batch: seq<Difference>)
    ensures UpsertAll(UpsertAll(table, batch), batch) == UpsertAll(table, batch)
  {
    var once := UpsertAll(table, batch);
    var twice := UpsertAll(once, batch);
    forall p ensures (p in twice <==> p in once) && (p in once ==> twice[p] == once[p]) {
      UpsertAllLookup(table, batch, p);
      UpsertAllLookup(once, batch, p);
    }
    assert twice.Keys == once.Keys;
  }

  // ---------------------------------------------------------------- the bounties table

  /** The filter {"project": p}. */
  predicate Matches(doc: Document, p: string)
  {
    ProjectKey in doc && doc[ProjectKey] == Text(p)
  }

  /** No document before position i matches the filter {"project": p}. */
  ghost predicate NoEarlierMatch(docs: seq<Document>, p: string, i: int)
  {
    forall j :: 0 <= j < i && j < |docs| ==> !Matches(docs[j], p)
  }

  /** One UpdateOne without upsert: the first document that matches the filter is changed. */
  function UpdateFirst(docs: seq<Document>, p: string, date: string, links: seq<string>)
    : (r: seq<Document>)
    ensures |r| == |docs|
    ensures forall i :: 0 <= i < |docs| ==>
      r[i] == if Matches(docs[i], p) && NoEarlierMatch(docs, p, i)
              then SetDateAndLinks(docs[i], date, links) else docs[i]
  {
    if |docs| == 0 then []
    else if Matches(docs[0], p) then
      assert forall i :: 0 < i < |docs| ==> !NoEarlierMatch(docs, p, i);
      [SetDateAndLinks(docs[0], date, links)] + docs[1..]
    else
      NoEarlierMatchShift(docs, p);
      [docs[0]] + UpdateFirst(docs[1..], p, date, links)
  }

  /** Past a first document that does not match, the earlier documents are those of the tail. */
  lemma NoEarlierMatchShift(docs: seq<Document>, p: string)
    requires |docs| > 0 && !Matches(docs[0], p)
    ensures forall i :: 0 < i <= |docs| ==> (NoEarlierMatch(docs, p, i) <==> NoEarlierMatch(docs[1..], p, i - 1))
  {
    forall i | 0 < i <= |docs| ensures NoEarlierMatch(docs, p, i) <==> NoEarlierMatch(docs[1..], p, i - 1) {
      if NoEarlierMatch(docs, p, i) {
        forall j | 0 <= j < i - 1 && j < |docs[1..]| ensures !Matches(docs[1..][j], p) {
          assert docs[1..][j] == docs[j + 1];
        }
      }
      if NoEarlierMatch(docs[1..], p, i - 1) {
        forall j | 0 <= j < i && j < |docs| ensures !Matches(docs[j], p) {
          if j > 0 {
            assert docs[j] == docs[1..][j - 1];
          }
        }
      }
    }
  }

  /** docs[i] is the first document whose project is the one it names. */
  ghost predicate FirstOfProject(docs: seq<Document>, i: int)
    requires 0 <= i < |docs|
  {
    ProjectKey in docs[i] && docs[i][ProjectKey].Text? && NoEarlierMatch(docs, docs[i][ProjectKey].text, i)
  }

  /** The bounties table after updating by the batch one entry after another, stated per
      document: the first document of a project takes the date of the batch's last entry for
      that project and the links then fetched for that entry's id; every other document is kept. */
  ghost function Updated(docs: seq<Document>, batch: seq<Difference>, links: string -> seq<string>): (r: seq<Document>)
    ensures |r| == |docs|
  {
    seq(|docs|, i requires 0 <= i < |docs| => UpdatedDoc(docs, i, batch, links))
  }

  ghost function UpdatedDoc(docs: seq<Document>, i: int, batch: seq<Difference>,
                            links: string -> seq<string>): Document
    requires 0 <= i < |docs|
  {
    if FirstOfProject(docs, i) && LastFor(batch, docs[i][ProjectKey].text).Some? then
      var d := LastFor(batch, docs[i][ProjectKey].text).value;
      SetDateAndLinks(docs[i], d.newUpdatedDate, links(d.id))
    else docs[i]
  }

  /** One more UpdateOne extends the batch by its entry. */
  lemma UpdatedStep(docs: seq<Document>, batch: seq<Difference>, d: Difference,
                    links: string -> seq<string>)
    ensures UpdateFirst(Updated(docs, batch, links), d.project, d.newUpdatedDate, links(d.id))
            == Updated(docs, batch + [d], links)
  {
    var lhs := UpdateFirst(Updated(docs, batch, links), d.project, d.newUpdatedDate, links(d.id));
    var rhs := Updated(docs, batch + [d], links);
    forall i | 0 <= i < |docs| ensures lhs[i] == rhs[i] {
      UpdatedStepAt(docs, batch, d, links, i);
    }
  }

  /** The update keeps the key the filter selects on. */
  lemma UpdatedKeepsProject(docs: seq<Document>, batch: seq<Difference>, links: string -> seq<string>, i: int)
    requires 0 <= i < |docs|
    ensures ProjectKey in Updated(docs, batch, links)[i] <==> ProjectKey in docs[i]
    ensures ProjectKey in docs[i] ==> Updated(docs, batch, links)[i][ProjectKey] == docs[i][ProjectKey]
  {
  }

  lemma UpdatedStepAt(docs: seq<Document>, batch: seq<Difference>, d: Difference,
                      links: string -> seq<string>, i: int)
    requires 0 <= i < |docs|
    ensures UpdateFirst(Updated(docs, batch, links), d.project, d.newUpdatedDate, links(d.id))[i]
            == Updated(docs, batch + [d], links)[i]
  {
    var p := d.project;
    var u := Updated(docs, batch, links);
    UpdatedKeepsProject(docs, batch, links, i);
    UpdatedNoEarlierMatch(docs, batch, links, p, i);
    if Matches(docs[i], p) && NoEarlierMatch(docs, p, i) {
      assert LastFor(batch + [d], p) == Some(d);
      SetTwice(docs[i], d.newUpdatedDate, links(d.id));
    } else if FirstOfProject(docs, i) {
      var q := docs[i][ProjectKey].text;
      assert q != p;
      LastForOther(batch, d, q);
    }
  }

  /** Whether an earlier document matches is the same before and after the update. */
  lemma UpdatedNoEarlierMatch(docs: seq<Document>, batch: seq<Difference>, links: string -> seq<string>, p: string, i: int)
    requires 0 <= i < |docs|
    ensures NoEarlierMatch(Updated(docs, batch, links), p, i) <==> NoEarlierMatch(docs, p, i)
  {
    var u := Updated(docs, batch, links);
    forall j | 0 <= j < i ensures Matches(u[j], p) <==> Matches(docs[j], p) {
      UpdatedKeepsProject(docs, batch, links, j);
    }
  }

  /** A second `$set` of the same two keys wins over the first. */
  lemma SetTwice(doc: Document, date: string, links: seq<string>)
    ensures forall date0, links0 ::
      SetDateAndLinks(SetDateAndLinks(doc, date0, links0), date, links)
      == SetDateAndLinks(doc, date, links)
  {
    forall date0, links0 ensures SetDateAndLinks(SetDateAndLinks(doc, date0, links0), date, links)
                                 == SetDateAndLinks(doc, date, links) {
      var twice := SetDateAndLinks(SetDateAndLinks(doc, date0, links0), date, links);
      var once := SetDateAndLinks(doc, date, links);
      assert twice.Keys == once.Keys;
    }
  }

  /** An entry for another project leaves the last entry for `q` as it was. */
  lemma LastForOther(batch: seq<Difference>, d: Difference, q: string)
    requires d.project != q
    ensures LastFor(batch + [d], q) == LastFor(batch, q)
  {
    assert (batch + [d])[..|batch|] == batch;
  }

  /** Every stored record still decodes after the update. */
  lemma UpdateWellFormed(docs: seq<Document>, batch: seq<Difference>, links: string -> seq<string>)
    requires AllWellFormed(docs)
    ensures AllWellFormed(Updated(docs, batch, links))
  {
    var after := Updated(docs, batch, links);
    forall i | 0 <= i < |docs| ensures WellFormed(after[i]) {
      if FirstOfProject(docs, i) && LastFor(batch, docs[i][ProjectKey].text).Some? {
        var d := LastFor(batch, docs[i][ProjectKey].text).value;
        DecodeAfterSet(docs[i], d.newUpdatedDate, links(d.id));
      }
    }
  }

  /** Updating by the same batch a second time changes nothing (the link source being fixed). */
  lemma UpdatedIdempotent(docs: seq<Document>, batch: seq<Difference>, links: string -> seq<string>)
    ensures Updated(Updated(docs, batch, links), batch, links) == Updated(docs, batch, links)
  {
    var once := Updated(docs, batch, links);
    var twice := Updated(once, batch, links);
    assert forall i :: 0 <= i < |docs| ==> (ProjectKey in once[i] <==> ProjectKey in docs[i]);
    assert forall i :: 0 <= i < |docs| && ProjectKey in docs[i] ==> once[i][ProjectKey] == docs[i][ProjectKey];
    forall i | 0 <= i < |docs| ensures twice[i] == once[i] {
      assert FirstOfProject(once, i) <==> FirstOfProject(docs, i);
    }
  }

  /** The update neither adds nor removes documents, and in each document it touches only the
      date key and the links key: the id, the project and every other field are kept. */
  lemma UpdatedTouchesOnlyDateAndLinks(docs: seq<Document>, batch: seq<Difference>,
                                       links: string -> seq<string>, i: int, k: string)
    requires 0 <= i < |docs|
    requires k != SetDateKey && k != SetLinksKey
    ensures |Updated(docs, batch, links)| == |docs|
    ensures k in Updated(docs, batch, links)[i] <==> k in docs[i]
    ensures k in docs[i] ==> Updated(docs, batch, links)[i][k] == docs[i][k]
  {
  }

  /** A project no entry of the batch names keeps all its documents as they were. */
  lemma UpdatedOnlyNamedProjects(docs: seq<Document>, batch: seq<Difference>,
                                 links: string -> seq<string>, i: int, p: string)
    requires 0 <= i < |docs| && Matches(docs[i], p)
    requires forall k :: 0 <= k < |batch| ==> batch[k].project != p
    ensures Updated(docs, batch, links)[i] == docs[i]
  {
  }

  // ---------------------------------------------------------------- the collections

  /** The failures of the store calls of one cycle. */
  datatype Faults = Faults(
    countFails: bool,           // CountDocuments returns an error
    insertManyFails: bool,      // InsertMany returns an error
    loadFails: bool,            // Find or cursor.All returns an error
    diffWritesFailed: set<nat>, // positions of the batch whose differences upsert fails
    bountyWritesFailed: set<nat>) // positions of the batch whose bounties update fails

  /** The bounties table after initializeBountiesTableIfEmpty: the observed bounties with their
      fetched links when the count succeeds and is 0 and the insert succeeds, else unchanged. */
  function Seeded(table: seq<Document>, observed: seq<Bounty>, links: string -> seq<string>,
                  countFails: bool, insertFails: bool): seq<Document>
  {
    if !countFails && |table| == 0 && !insertFails then EncodeAll(WithFetchedLinks(observed, links))
    else table
  }

  /** The database with its two collections: `bounties` holds the documents of the bounties
      collection in natural order; `differences` holds the differences collection, which only
      the upsert by project writes, keyed by project. */
  class Database {
    var bounties: seq<Document>
    var differences: map<string, Difference>

    ghost predicate Valid()
      reads this
    {
      AllWellFormed(bounties) && KeyedByProject(differences)
    }

    constructor ()
      ensures Valid() && bounties == [] && differences == map[]
    {
      bounties := [];
      differences := map[];
    }

    /** insertIntoDiffTable: each entry upserted under its project, failed writes skipped. */
    method InsertIntoDiffTable(batch: seq<Difference>, failed: set<nat>)
      requires Valid()
      modifies this
      ensures Valid()
      ensures differences == UpsertAll(old(differences), Surviving(batch, failed))
      ensures bounties == old(bounties)
    {
      for i := 0 to |batch|
        invariant bounties == old(bounties)
        invariant differences == UpsertAll(old(differences), Surviving(batch[..i], failed))
      {
        var d := batch[i];
        UpsertSurvivingStep(old(differences), batch, i, failed);
        if i !in failed {
          differences := differences[d.project := d];
        }
      }
      assert batch[..|batch|] == batch;
      UpsertAllKeyed(old(differences), Surviving(batch, failed));
    }

    /** compareWithExistingData: the differences between the observed bounties and the stored
        records, or none when the stored records cannot be loaded. */
    method CompareWithExistingData(newData: seq<Bounty>, links: string -> seq<string>, loadFails: bool)
      returns (found: seq<Difference>)
      requires Valid()
      ensures found == if loadFails then [] else Reconcile(newData, ExistingByProject(DecodeAll(bounties)), links)
    {
      if loadFails {
        return [];
      }
      var existingDataList := DecodeAll(bounties);
      var existingData: map<string, Bounty> := map[];
      for i := 0 to |existingDataList|
        invariant existingData == ExistingByProject(existingDataList[..i])
      {
        assert existingDataList[..i + 1][..i] == existingDataList[..i];
        var item := existingDataList[i];
        existingData := existingData[item.project := item];
      }
      assert existingDataList[..|existingDataList|] == existingDataList;
      found := [];
      for i := 0 to |newData|
        invariant found == Reconcile(newData[..i], existingData, links)
      {
        assert newData[..i + 1][..i] == newData[..i];
        var item := newData[i];
        var assetLinks := links(item.id);
        if item.project in existingData {
          var existingItem := existingData[item.project];
          var same := Slices.StringSlicesEqual(existingItem.assetLinks, assetLinks);
          if existingItem.updatedDate != item.updatedDate || !same {
            var linkDiff := Slices.StringDifference(assetLinks, existingItem.assetLinks);
            found := found + [Difference(item.id, item.project, existingItem.updatedDate,
                                         item.updatedDate, linkDiff)];
          }
        }
      }
      assert newData[..|newData|] == newData;
    }

    /** updateBountiesTable: for each entry, the first record of its project gets the entry's new
        date and the links fetched again for the entry's id, under the keys `updatedDate` and
        `assetLinks`; no record is inserted. */
    method UpdateBountiesTable(batch: seq<Difference>, links: string -> seq<string>, failed: set<nat>)
      requires Valid()
      modifies this
      ensures Valid()
      ensures bounties == Updated(old(bounties), Surviving(batch, failed), links)
      ensures differences == old(differences)
    {
      ghost var start := bounties;
      assert Updated(start, [], links) == start;
      for i := 0 to |batch|
        invariant differences == old(differences)
        invariant bounties == Updated(start, Surviving(batch[..i], failed), links)
      {
        assert batch[..i + 1][..i] == batch[..i];
        var d := batch[i];
        SurvivingStep(batch, i, failed);
        var assetLinks := links(d.id);
        if i !in failed {
          UpdatedStep(start, Surviving(batch[..i], failed), d, links);
          bounties := UpdateFirst(bounties, d.project, d.newUpdatedDate, assetLinks);
        }
      }
      assert batch[..|batch|] == batch;
      UpdateWellFormed(start, Surviving(batch, failed), links);
    }

    /** initializeBountiesTableIfEmpty: when the table counts no record, the observed bounties get
        their links from the link source, in place, and are inserted all together. */
    method InitializeBountiesTableIfEmpty(observed: array<Bounty>, links: string -> seq<string>,
                                          countFails: bool, insertFails: bool)
      requires Valid()
      modifies this, observed
      ensures Valid()
      ensures var seeding := !countFails && |old(bounties)| == 0;
        && observed[..] == (if seeding then WithFetchedLinks(old(observed[..]), links) else old(observed[..]))
        && bounties == (if seeding && !insertFails then EncodeAll(observed[..]) else old(bounties))
      ensures bounties == Seeded(old(bounties), old(observed[..]), links, countFails, insertFails)
      ensures differences == old(differences)
    {
      if countFails {
        return;
      }
      var count := |bounties|;
      if count == 0 {
        for i := 0 to observed.Length
          invariant forall j :: 0 <= j < i ==> observed[j] == old(observed[j]).(assetLinks := links(old(observed[j]).id))
          invariant forall j :: i <= j < observed.Length ==> observed[j] == old(observed[j])
          invariant bounties == old(bounties) && differences == old(differences)
        {
          observed[i] := observed[i].(assetLinks := links(observed[i].id));
        }
        if !insertFails {
          bounties := EncodeAll(observed[..]);
        }
      }
    }

    /** The second half of a cycle: compare, and, when something changed, record the differences
        and then update the stored records (the differences table is written first). */
    method CompareAndRecord(observed: seq<Bounty>, links: string -> seq<string>, faults: Faults)
      returns (found: seq<Difference>)
      requires Valid()
      modifies this
      ensures Valid()
      ensures found == (if faults.loadFails then []
                        else Reconcile(observed, ExistingByProject(DecodeAll(old(bounties))), links))
      ensures differences == UpsertAll(old(differences), Surviving(found, faults.diffWritesFailed))
      ensures bounties == Updated(old(bounties), Surviving(found, faults.bountyWritesFailed), links)
    {
      found := CompareWithExistingData(observed, links, faults.loadFails);
      if |found| > 0 {
        InsertIntoDiffTable(found, faults.diffWritesFailed);
        UpdateBountiesTable(found, links, faults.bountyWritesFailed);
      } else {
        assert Surviving(found, faults.diffWritesFailed) == [];
        assert Updated(bounties, [], links) == bounties;
      }
    }

    /** One polling cycle of the main loop once the bounty list has been fetched: seed an empty
        table, then compare and record. */
    method RunCycle(observed: array<Bounty>, links: string -> seq<string>, faults: Faults)
      returns (found: seq<Difference>)
      requires Valid()
      modifies this, observed
      ensures Valid()
      ensures var seeded := Seeded(old(bounties), old(observed[..]), links, faults.countFails, faults.insertManyFails);
        && AllWellFormed(seeded)
        && observed[..] == (if !faults.countFails && |old(bounties)| == 0
                            then WithFetchedLinks(old(observed[..]), links) else old(observed[..]))
        && found == (if faults.loadFails then []
                     else Reconcile(observed[..], ExistingByProject(DecodeAll(seeded)), links))
        && differences == UpsertAll(old(differences), Surviving(found, faults.diffWritesFailed))
        && bounties == Updated(seeded, Surviving(found, faults.bountyWritesFailed), links)
    {
      InitializeBountiesTableIfEmpty(observed, links, faults.countFails, faults.insertManyFails);
      found := CompareAndRecord(observed[..], links, faults);
    }
  }
}
