# Bounty scraper reconciliation, in Dafny

The scraper (`scraper.go`) polls a bug-bounty listing. On each cycle it:

1. finds the site's build token in the explore page;
2. fetches the list of bounties;
3. seeds an empty `bounties` collection with that list;
4. compares every observed bounty with the stored record of the same project;
5. writes each difference to the `differences` collection (an upsert by project);
6. updates the stored record's date and asset links.

This project models those steps and proves what they compute.

- `Slices` (slices.dfy): `stringSlicesEqual` and `stringDifference` as methods with loops, proved against the order-sensitive equality of sequences and against the specification function `Minus`.
- `AssetLinks` (asset_links.dfy): `contains` as a recursive function specified by substring occurrence, `containsAny` as a method with a loop, and the anchor filter of the bounty page over the page's hrefs.
- `BuildToken` (token.dfy): `extractTokenFromSource`. The regular expression has one fixed shape, so it is specified directly: the result is the capture of the leftmost match, or "" when there is no match.
- `Records` (records.dfy): `Bounty`, `Difference`, and a stored record as a document (a map from key to value). The struct has no bson tags, so the driver's default codec inserts its fields under the lower-cased Go names `id`, `project`, `updateddate` and `assetlinks`. When decoding, a key that names no field is tried again lower-cased, so the `updatedDate` and `assetLinks` that `updateBountiesTable` sets are read into the same two fields. They come later in the document, so their values win.
- `Compare` (compare.dfy): `compareWithExistingData` as a specification function `Reconcile`. Lemmas say which observed bounties are reported and what each difference holds.
- `Store` (store.dfy): the class `Database`, whose fields are the two collections. It has the four store operations and one cycle of `main`, each proved against a specification function of the old state: `UpsertAll` for the differences, `Updated` for the bounties.
- `Convergence` (convergence.dfy): what one cycle leaves behind for the next one. Suppose no two observed bounties share a project, no two stored records share a project, and no write fails. Then after the update, a cycle that observes the same bounties again finds nothing. With two stored records of one project, a difference once reported is reported again in every later cycle over the same observation (`DuplicateRowsRereported`).

The per-bounty link fetch `fetchAssetLinksForBounty` is a parameter `links` that maps a bounty id to a link list. A failing store call is an input: a flag, or the set of batch positions whose write fails.

## Model

| member | source | states |
|---|---|---|
| Slices.StringSlicesEqual | scraper.go:252-262 | true exactly when the lengths agree and the lists agree position by position, which is sequence equality (so order matters) |
| Slices.StringDifference | scraper.go:264-276 | the result is `Minus(a, b)`: the elements of `a` that are not in `b`, in `a`'s order |
| Slices.MinusCounts | scraper.go:264-276 | each element outside `b` keeps exactly its multiplicity in `a`, and each element of `b` is dropped |
| Slices.MinusMembership | scraper.go:264-276 | x is in the difference iff x is in `a` and not in `b` |
| Slices.MinusIsSubsequence | scraper.go:264-276 | the difference keeps `a`'s order: it is a subsequence of `a` |
| Slices.MinusEmptyIff | scraper.go:264-276 | the difference is empty iff every element of `a` occurs in `b` |
| AssetLinks.Contains | scraper.go:287-289 | true iff `substr` occurs in `str` at some position (the empty string occurs everywhere) |
| AssetLinks.ContainsAny | scraper.go:278-285 | true iff at least one of the given substrings occurs in `str` |
| AssetLinks.SelectAssetLinks | scraper.go:241-247 | the kept hrefs are `AssetLinksOf(hrefs)`: those naming github.com, etherscan.io or testnet.bscscan.com, in document order |
| AssetLinks.AssetLinksExactly | scraper.go:241-247 | a link is kept iff it is one of the hrefs and contains one of the three domains |
| BuildToken.TokenAtExact | scraper.go:56 | the pattern matches at position i with capture t iff `TokenAt(s, i)` is `Some(t)`, so the capture at a position is unique |
| BuildToken.ScanFrom | scraper.go:56-57 | "" means no match at or after i; otherwise the result is the capture of the leftmost match at or after i |
| BuildToken.ExtractTokenFromSource | scraper.go:55-62 | "" iff the page holds no match of `/_next/static/([^/]+)/_buildManifest.js`; otherwise the capture of the leftmost match, non-empty and free of '/' |
| Records.DecodeEncode | scraper.go:21-26 | a Bounty stored under the codec's keys reads back unchanged, whatever other keys the document holds that the decoder does not read into a field |
| Records.DecodeAfterSet | scraper.go:174 | after the `$set` of `updatedDate` and `assetLinks`, the record reads back with the new date and links and the same id and project, whether or not an earlier update had set those keys |
| Store.UpdateWellFormed | scraper.go:168-180 | every stored record still decodes after the update |
| Compare.ExistingByProject | scraper.go:132-135 | the map has a key for each stored project, and the value is the last stored row of that project |
| Compare.ReconcileSelects | scraper.go:137-165 | the differences are, in input order, exactly one per observed bounty whose project is stored and whose date or fetched link list differs. Each holds the bounty's id, project, stored date, new date and `Minus(fetched, stored links)` |
| Compare.ReconcileEmptyIff | scraper.go:139-165 | no difference is returned iff no observed bounty has a stored record that changed |
| Compare.ReorderedLinksReported | scraper.go:148-160 | links that only changed order, under an unchanged date, are still reported, with an empty link delta |
| Store.LastFor | scraper.go:97-115 | none iff no entry of the batch has project p; otherwise the last entry for p |
| Store.UpsertAllLookup | scraper.go:97-115 | after the upserts, a project holds the batch's last entry for it, and every other project keeps its record or stays absent |
| Store.UpsertAllKeyed | scraper.go:100 | the upserts keep every stored difference under its own project |
| Store.UpsertAllIdempotent | scraper.go:97-115 | upserting the same batch twice gives the same table as upserting it once |
| Store.UpdateFirst | scraper.go:173-175 | one UpdateOne without upsert: only the first document matching `{"project": p}` gets the two `$set` keys, and the length is unchanged |
| Store.UpdatedStep | scraper.go:170-179 | one more UpdateOne turns the update by a batch into the update by the batch extended with that entry |
| Store.UpdatedIdempotent | scraper.go:168-180 | updating by the same batch a second time leaves the documents as they were after the first time |
| Store.UpdatedTouchesOnlyDateAndLinks | scraper.go:173-175 | no document is added or removed, and every key other than the two `$set` keys keeps its value |
| Store.UpdatedOnlyNamedProjects | scraper.go:173 | a document whose project no entry names is left unchanged |
| Store.Database.InsertIntoDiffTable | scraper.go:97-115 | the differences table becomes `UpsertAll` of the old table by the entries whose write succeeds, and the bounties are unchanged |
| Store.Database.CompareWithExistingData | scraper.go:117-166 | no differences if the load fails; otherwise `Reconcile` of the observed bounties against the decoded stored rows keyed by project |
| Store.Database.UpdateBountiesTable | scraper.go:168-180 | the bounties become `Updated` of the old ones by the entries whose write succeeds, with the new date and links written under `updatedDate` and `assetLinks`; the differences table is unchanged |
| Store.Database.InitializeBountiesTableIfEmpty | scraper.go:202-219 | only when the count succeeds and is 0: every observed bounty's links are replaced in place by the fetched ones, and then, unless InsertMany fails, the table holds exactly those bounties. Otherwise nothing changes |
| Store.Database.CompareAndRecord | scraper.go:341-349 | the differences are those of `CompareWithExistingData`. When there are any, the differences table is upserted and the bounties are updated by them, with the failed writes skipped. When there are none, neither table changes |
| Store.Database.RunCycle | scraper.go:333-349 | seed an empty table, then compare and record. The new state is stated in terms of the seeded table `Seeded(old bounties, old observed list)` and of the observed list whose links seeding replaced |
| Convergence.ExistingDistinct | scraper.go:132-135 | with distinct stored projects, each stored row is the one compareWithExistingData keeps for its project |
| Convergence.SeededBaselineReportsNothing | scraper.go:202-219 | when the observed projects are distinct, comparing right after seeding finds nothing |
| Convergence.UpdateDecodes | scraper.go:168-180 | the first record of a project the batch names reads back with the new date and the links fetched for the entry's id; every other record reads back unchanged |
| Convergence.UpdateKeepsProjects | scraper.go:173-174 | the update keeps every record's project, so distinct stored projects stay distinct |
| Convergence.EntryOfObserved | scraper.go:139-160 | with distinct observed projects, a project's entry in the batch carries that bounty's id and new date, and a bounty without an entry was not reported |
| Convergence.StoredAfterUpdate | scraper.go:168-180 | after the update, the record compareWithExistingData keeps for a project carries the date and links of the batch's entry for that project |
| Convergence.SettledAfterUpdate | scraper.go:139-179 | after the update by its own cycle's differences, an observed bounty is no longer reported |
| Convergence.CycleConverges | scraper.go:139-179 | with distinct projects and no failed write, the update makes the next cycle over the same observation find no differences |
| Convergence.AcmeFoundThenSettled | scraper.go:139-179 | a stored acme record of 2024-01-01 without links, observed on 2024-02-01 with one GitHub link, gives one difference with that link as its delta; the next cycle finds nothing |
| Convergence.DuplicateRowsRereported | scraper.go:132-135 | two stored acme rows of date d0 and an acme bounty observed with date d1: one difference is found, the update changes the first row while compareWithExistingData keeps the last, so the next cycle finds the same difference again |

## Left out

- The HTTP fetches (`fetchSourceCode`, `fetchDataUsingToken`, the page fetch in `fetchAssetLinksForBounty`) and the JSON decoding of the bounty list: these are network I/O and a library decoder. The fetched list is an input of `RunCycle`.
- HTML parsing of the bounty page (goquery's `a[href]` selection): the page's hrefs are the input of `SelectAssetLinks`. The whole link fetch is the parameter `links`. Its failure paths (an error or a status other than 200) give an empty list, which `links` may return.
- The two link fetches of one cycle for a changed bounty (scraper.go:140 and 171): both read the same `links`, so the model does not capture a page that changes between the two fetches.
- `sendMessageToTelegram`, `connectToDatabase`, the environment lookups, the ten-minute sleep and the endless loop of `main`: network, configuration and timing. `RunCycle` models the body of one cycle after the bounty list has been fetched.
- `main` as written does not compile: it nests a second `func main` and assigns the result of `initializeBountiesTableIfEmpty`, which returns nothing. `RunCycle` follows the evident order of the inner body, with no error returned by the seeding step.
- An empty build token is passed on to the second fetch rather than ending the cycle. That path belongs to the fetch, which is left out.
- The MongoDB driver itself: a collection of bounties is a sequence of documents in natural order, and the differences collection is a map keyed by project, because only the upsert by project writes it. InsertMany is all or nothing here; a partly completed ordered insert is not modelled.
- DecodeEncode: the decoder also reads any other key that lower-cases to a field name (`ID`, `Project`, ...), and where two keys name one field, the later one in the document wins. The model reads exactly the six keys this program writes. For the date and links it gives the `$set` key precedence, which matches the stored order, because `$set` appends a new field after the inserted ones.
- Lenient and failing decoding: a stored document that lacks a key (the driver gives the zero value) or holds a value of the wrong kind (the driver's decode fails, so `compareWithExistingData` returns nothing for that cycle) is excluded by `Database.Valid`.
- `contains` compares the UTF-8 bytes of its strings; the model compares characters. A byte match that starts inside a multi-byte character is not captured.
- The log and print output (scraper.go:112, 121, 128, 145, 149, 172, 177, 206, 216, 344, 348): it reports what the model's results and fault inputs already state and changes no state.
- Regular expressions in general: only the one pattern of `extractTokenFromSource` is specified.
- In these points the model follows the code:
  - the bounty update uses no upsert;
  - seeding is decided by `CountDocuments`, not by an empty load;
  - seeding overwrites the caller's link lists in place;
  - nothing enforces one stored record per project, so `ExistingByProject` keeps the last row and `UpdateFirst` changes the first. Once reported, such a project is reported again in every later cycle over the same observation (`Convergence.DuplicateRowsRereported`).

