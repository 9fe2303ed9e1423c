/** The scraper's records and the way a Bounty is kept as a document of the bounties collection.
    The Bounty struct carries json tags only, so the driver's default struct codec stores each
    field under its lower-cased Go name. When it decodes, a key that names no field exactly is
    tried again lower-cased, so the keys updateBountiesTable sets are read into the same fields.
    A document is modelled as a map from key to value. */
module Records {
  import opened Options

  datatype Bounty = Bounty(id: string, project: string, updatedDate: string, assetLinks: seq<string>)

  datatype Difference = Difference(
    id: string,
    project: string,
    existingUpdatedDate: string,
    newUpdatedDate: string,
    linkDiff: seq<string>)

  /** The values this program stores: strings and string arrays. */
  datatype Value = Text(text: string) | TextList(items: seq<string>)

  type Document = map<string, Value>

  /** The keys the default struct codec gives the four Bounty fields. */
  const IdKey: string := "id"
  const ProjectKey: string := "project"
  const DateKey: string := "updateddate"
  const LinksKey: string := "assetlinks"

  /** The keys updateBountiesTable's `$set` writes. Lower-cased they are DateKey and LinksKey, so
      the decoder reads them into UpdatedDate and AssetLinks. `$set` adds a missing field after
      the inserted ones and changes a present one where it is, so these keys always come after
      DateKey and LinksKey in a stored document, and being decoded later, their values win. */
  const SetDateKey: string := "updatedDate"
  const SetLinksKey: string := "assetLinks"

  function Encode(b: Bounty): Document
  {
    map[IdKey := Text(b.id), ProjectKey := Text(b.project),
        DateKey := Text(b.updatedDate), LinksKey := TextList(b.assetLinks)]
  }

  /** The value the decoder leaves in a field: the `$set` key's when the document has it, else
      the inserted key's. */
  function FieldValue(doc: Document, setKey: string, key: string): Option<Value>
  {
    if setKey in doc then Some(doc[setKey])
    else if key in doc then Some(doc[key])
    else None
  }

  /** A document that decodes into a Bounty: each field present with the right kind of value. */
  ghost predicate WellFormed(doc: Document)
  {
    && IdKey in doc && doc[IdKey].Text?
    && ProjectKey in doc && doc[ProjectKey].Text?
    && FieldValue(doc, SetDateKey, DateKey).Some? && FieldValue(doc, SetDateKey, DateKey).value.Text?
    && FieldValue(doc, SetLinksKey, LinksKey).Some? && FieldValue(doc, SetLinksKey, LinksKey).value.TextList?
  }

  function Decode(doc: Document): Bounty
    requires WellFormed(doc)
  {
    Bounty(doc[IdKey].text, doc[ProjectKey].text,
           FieldValue(doc, SetDateKey, DateKey).value.text,
           FieldValue(doc, SetLinksKey, LinksKey).value.items)
  }

  /** The six keys the decoder reads into a field of a Bounty. */
  ghost predicate ReadKey(k: string)
  {
    k in {IdKey, ProjectKey, DateKey, LinksKey, SetDateKey, SetLinksKey}
  }

  /** Decoding an encoded Bounty gives it back; keys the decoder does not read are ignored. */
  lemma DecodeEncode(b: Bounty, extra: Document)
    requires forall k :: k in extra ==> !ReadKey(k)
    ensures WellFormed(extra + Encode(b)) && Decode(extra + Encode(b)) == b
  {
    assert SetDateKey !in extra + Encode(b) && SetLinksKey !in extra + Encode(b);
  }

  /** The `$set` of updateBountiesTable: the new date and links under the keys it names. */
  function SetDateAndLinks(doc: Document, date: string, links: seq<string>): Document
  {
    doc[SetDateKey := Text(date)][SetLinksKey := TextList(links)]
  }

  /** The `$set` is read back as the new date and links, whichever of the two keys of each field
      the document held before, and the id and project stay as they were. */
  lemma DecodeAfterSet(doc: Document, date: string, links: seq<string>)
    requires WellFormed(doc)
    ensures WellFormed(SetDateAndLinks(doc, date, links))
    ensures Decode(SetDateAndLinks(doc, date, links)) == Decode(doc).(updatedDate := date, assetLinks := links)
  {
  }

  ghost predicate AllWellFormed(docs: seq<Document>)
  {
    forall i :: 0 <= i < |docs| ==> WellFormed(docs[i])
  }

  function DecodeAll(docs: seq<Document>): (bs: seq<Bounty>)
    requires AllWellFormed(docs)
    ensures |bs| == |docs|
    ensures forall i :: 0 <= i < |docs| ==> bs[i] == Decode(docs[i])
  {
    seq(|docs|, i requires 0 <= i < |docs| => Decode(docs[i]))
  }

  function EncodeAll(bs: seq<Bounty>): (docs: seq<Document>)
    ensures |docs| == |bs|
    ensures forall i :: 0 <= i < |bs| ==> docs[i] == Encode(bs[i])
  {
    seq(|bs|, i requires 0 <= i < |bs| => Encode(bs[i]))
  }

  /** The observed bounties with their link lists replaced by what the link source returns. */
  function WithFetchedLinks(bs: seq<Bounty>, links: string -> seq<string>): (r: seq<Bounty>)
    ensures |r| == |bs|
    ensures forall i :: 0 <= i < |bs| ==> r[i] == bs[i].(assetLinks := links(bs[i].id))
  {
    seq(|bs|, i requires 0 <= i < |bs| => bs[i].(assetLinks := links(bs[i].id)))
  }

  /** No two bounties of the list share a project (the batch's grouping key is unique). */
  ghost predicate DistinctProjects(bs: seq<Bounty>)
  {
    forall i, j :: 0 <= i < j < |bs| ==> bs[i].project != bs[j].project
  }
}
