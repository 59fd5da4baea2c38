# Tergite's storage layer and the protocols over it, in Dafny

This project models the storage layer of Tergite's MSS, which promises one query and update
dialect over SQL databases and MongoDB, and the services that lean hardest on it: the notices'
emails, device liveness, the billing of QPU time, projects and their tokens, and the notices' read
state. It also models two graph algorithms, the order in which tables are created and the pruning
of the backend's API spec. `dafny verify dfyconfig.toml` checks all of it.

What the source changes in place is a class whose methods are proved against functions of its old
state; loops are methods with loops; what only computes is a function. The promises are lemmas
about those functions.

## How it is laid out

- Ground: `Wrappers`, `Sequences` (filtering, stable sorting, pages), `Values` (the columns' values
  and their order), `TextSearch` (escaping, substrings and LIKE).
- The dialect: `Dialect` (schemas, filters, their check and their meaning for a document),
  `Updates` and `UpdateMeaning`, `Upserts` and `UpsertMeaning`, and `DocumentSpec` (a store as a
  plain sequence of documents).
- SQL: `Sql` (tables, and WHERE clauses in the three-valued logic of ISO/IEC 9075-2, sections 8.2
  and 8.5), `SqlTranslate`, `SqlCompiler`, `QueryMeaning` and `SqlRefusals` (compilation, that it
  preserves meaning, and what it refuses), `SqlOrdering`, `ListTables` (child tables), `SqlTables`
  (the representation invariant), `SqlReads`, `SqlWrites`, `SqlTransactions`, and `SqlStorage` with
  the store itself.
- What callers get: `StorePromises`, and `UpsertRace` for upserts of one key at once.
- MongoDB: `MongoEncoding`, `MongoQueries`, `MongoCollation` and `MongoUpdates`; `StoresAgree` and
  `UpdatesAgree` tie both stores to one dialect.
- Services: `EmailOutbox`, `Devices`, `Billing`, `Notices`, `Projects`.
- Graphs: `TableOrder`, `SpecPruning`.

## What is assumed

- A database table has primary and unique keys, deletes child rows with their parent, and runs a
  transaction whole or not at all. One call sees one `now`, which is a parameter.
- Comparisons are within one type, as columns are typed: between values of different types both
  the dialect's meaning and SQL's are taken to be false.
- A schema's key is a column compared with its case, and no field's name holds a dot.
- List elements fit their field's type, and none of a list of scalars is None.
- An email claim is taken over only once its holder has stopped or given it up. A job's times
  never lose a finished execution once sent. Each of the two has a lemma with a run that goes wrong
  without it. Schema references form no circle, apart from those to oneself
  (`OrderExistsIffAcyclic`).

## What the proofs turned up

- SQL refuses filters and updates that the check accepts, and that MongoDB takes: dotted paths, in
  the dialect's own documentation, as it reads and writes JSON whole (`PathsIntoJsonAreRefused`);
  an order comparison with None or a boolean, for which the library raises; what a column or a list
  cannot be compared by (`CheckedFilterCompilesIff`); and `$setOnInsert` of a list
  (`CheckedUpdateCompilesIff`).
- `update_one` that returns the record as it is after, when the update itself expires the record,
  finds nothing to return, fails and is rolled back (`UpdateOneIsPromised`); an upsert of a record
  that is born expired does too (`UpsertIsPromised`).
- An upsert by key meets a record of that key that has expired but is not swept yet, and fails
  with a duplicate key (`UpsertMeetsTheUnswept`).
- An upsert that increases, adds to or pulls from what its own filter makes a field equal creates
  another record in SQL than in MongoDB: of `{n: 5}` and `$inc` by 1 one creates 1, the other 6
  (`IncreasingTheFiltersOwn`, exactly when in `UpsertIsUpdateOfStartIff`).
- `find` with a limit of 0 returns nothing from SQL and everything from MongoDB
  (`MongoPagesUnlessZero`).
- An update that names a field in two operators, which MongoDB would refuse, writes something else
  in SQL than the operators one after another exactly if they come in an order that matters, such
  as `$inc` after `$set` (`WritesAreUpdateIffHarmless`, `OrderTells`).
- `$inc` of a stored null counts it as 0 in SQL and is refused by MongoDB
  (`IncreaseIsTakenIffNumber`).
- A filter that names a field compared without case makes MongoDB compare all of it without case,
  and SQL only that field: equating another field to a text means the same to both exactly if the
  text has no letter (`MixedFilterAgreesIff`).
- MongoDB takes an id's upper-case form for the id, and SQL does not
  (`CommutesForCanonicalIdsOnly`).
- `create_project` says that it fails only for a name that is taken; in SQL a user named twice
  among the members fails the same way (`CreateProject`). `update_project` revokes tokens before
  it writes the project, so one that then fails has revoked them already (`UpdateProject`). A
  personal project deleted, made again under the same computed id and deleted again cannot be
  copied to the deleted ones a second time, though it is gone (`DeleteProject`).
- A marking of the online flags that races a switch-off can leave a device both off and online
  until the next marking (`MarkingRacesSwitchOff`).
- `make_lenient` drops every key called `pattern`, so also a property of that name
  (`PropertyIsLostIffPattern`), which stays required even if it is read-only (`StaysRequiredIff`).
- The three writes of an email batch's results are started at once: a notice with results of
  different outcomes takes the one written last, whichever that is (`OrderIsFreeIffAgreed`).

## Model

| member | source | states |
|---|---|---|
| TextSearch.UnescapeEscape | libs/storage/base/query.py:109-118 | Unescaping the escaped form of any text gives the text back. |
| TextSearch.CheckAcceptsExactlyEscapedTexts | libs/storage/base/query.py:166-176 | The pattern check accepts exactly the images of `re.escape`, and each is the image of one text only, the one searched for. |
| TextSearch.SubstringPatternIsExact | libs/storage/sql/translate.py:282-285 | The LIKE pattern built by three replaces matches a string exactly if the text is a substring of it, whatever backslashes, percent signs and underscores the text holds. |
| QueryMeaning.OpClauseExact | libs/storage/sql/translate.py:177-210 | The clause of one checked operator is TRUE exactly when the operator holds of the value, nulls and case folding included. |
| QueryMeaning.AnyOfExact | libs/storage/sql/translate.py:302-307 | The `$in` clause is TRUE exactly of the values listed, a listed None matching null. |
| QueryMeaning.NoneOfExact | libs/storage/sql/translate.py:310-316 | The `$nin` clause is TRUE exactly of the values not listed, null included unless None is listed. |
| QueryMeaning.MembershipExact | libs/storage/sql/translate.py:254-267 | The membership clause of a list is TRUE or FALSE, never UNKNOWN, so that NOT of it is safe, and TRUE exactly if the record's list holds one of the values. |
| QueryMeaning.ListOpExact | libs/storage/sql/translate.py:220-251 | Each operator a list takes is two-valued, and true exactly when it holds of the record's list. |
| QueryMeaning.ElementMatchExact | libs/storage/sql/translate.py:270-279 | `$elemMatch` compiles to a clause true exactly if one element of the record's list meets every condition. |
| QueryMeaning.ConditionsExact | libs/storage/sql/translate.py:147-164 | A checked filter that compiles, with any nesting of `$and` and `$or`, is TRUE of exactly the rows whose document it matches. |
| QueryMeaning.WhereIsExact | libs/storage/sql/translate.py:45-64 | The whole WHERE clause selects exactly the rows whose document is unexpired and matches the filter as the dialect means it. |
| SqlRefusals.CheckedFilterCompilesIff | libs/storage/sql/translate.py:147-210 | Of the filters the check accepts, SQL takes exactly those on columns, by operators with operands they can be compared by, on lists of scalars, by equality and membership, and on lists of models, by `$elemMatch`; in any nesting. |
| SqlRefusals.PathsIntoJsonAreRefused | libs/storage/sql/translate.py:319-333 | Every dotted path into a JSON field passes the check, and SQL refuses it. |
| SqlCompiler.GetComparisonClause | libs/storage/sql/translate.py:177-210 | The loop over a condition's operators gives the conjunction of their clauses, or the first operator's error. |
| SqlCompiler.TranslateListCondition | libs/storage/sql/translate.py:220-251 | The loop over a list condition's operators gives the conjunction of their clauses, or fails for one that lists do not take. |
| SqlCompiler.TranslateConditions | libs/storage/sql/translate.py:147-164 | The recursive loops over a filter's entries give its conjunction of clauses, or the first error. |
| SqlCompiler.TranslateFilter | libs/storage/sql/translate.py:45-64 | What it returns selects, in every table state, exactly the rows of unexpired matching documents. |
| SqlOrdering.TranslateSort | libs/storage/sql/translate.py:67-88 | The loop over the sort's fields gives one null-placing order term per field, or fails for a field without a column. |
| SqlOrdering.OrderByIsTotal | libs/storage/sql/translate.py:67-88 | ORDER BY with the row id last is a total order of rows: transitive, and of two rows of different ids exactly one comes first. |
| SqlOrdering.OrderByIsStableSort | libs/storage/sql/translate.py:67-88 | Any list of the rows in that order reads as the documents sorted stably by the sort's fields, None lowest and ties in insertion order. |
| ListTables.GetChildRows | libs/storage/sql/tables.py:205-240 | The rows of a list carry the record's key, the list's elements and the positions 0 onwards, in order. |
| ListTables.ReplaceIsSet | libs/storage/sql/store.py:524-530 | Deleting a record's rows and inserting the list's makes its list read as that list, keeps positions and scalar elements distinct, and leaves every other record's list. |
| ListTables.AddIsAddToSet | libs/storage/sql/store.py:532-554 | Inserting at the next position, a conflict ignored, appends the element unless the list holds it, whatever gaps the positions have. |
| ListTables.PullIsPull | libs/storage/sql/store.py:556-564 | Deleting the rows of an element filters it out of the record's list and leaves the rest in order. |
| ListTables.ChildTableImplementsLists | libs/storage/sql/store.py:524-564 | Through any sequence of replacements, additions and removals on any records, the table stays valid and each record's list reads as the same operations on a plain list. |
| Updates.TranslateUpdate | libs/storage/sql/translate.py:91-132 | The loop over an update's changes collects them as column values and list writes, or gives the first one's error. |
| Updates.CheckedUpdateCompilesIff | libs/storage/base/update.py:38-64 | Of the updates the check accepts, SQL refuses exactly those with a change into JSON, of a list on insert only, or of an element of what is no list of scalars. |
| UpdateMeaning.WritesAreUpdateIffHarmless | libs/storage/sql/translate.py:91-132 | SQL's column values and list writes make of every document what the operators, one after another, make of it, exactly if no field's changes come in an order that matters: no `$inc` after a `$set`, and nothing added or pulled that a later operator would undo differently. |
| UpdateMeaning.NamingOnceIsHarmless | libs/storage/sql/translate.py:91-132 | In an update that names each field once the order never matters. |
| UpdateMeaning.ListIsHarmlessIff | libs/storage/sql/store.py:524-564 | Setting a list, adding to it and pulling from it, in SQL's order, gives what the operators in their own order give exactly if that order is harmless, whatever the list was. |
| UpdateMeaning.OrderTells | libs/storage/sql/translate.py:91-132 | `$set` to 5 and then `$inc` by 1 leaves 1 of a null in SQL, and 6 by the operators; the other way round is harmless. |
| Updates.AcceptedUpdateKeepsKey | libs/storage/base/update.py:67-96 | If the key check passes, the update leaves the key of every document the filter matches as it is. |
| Updates.KeptExactlyIfCased | libs/storage/base/update.py:67-96 | The check is enough for every filter, update and document exactly if the key is compared with its case. |
| Upserts.CollectValues | libs/storage/sql/store.py:475-489 | The loops over the filter's entries and the update's operators give the values that the next two rows say the meaning of. |
| UpsertMeaning.CollectedFor | libs/storage/sql/store.py:475-489 | The value collected for a field is the one `$addToSet`, `$inc`, `$setOnInsert` or `$set` gives it, the first of these that does, or else the filter's equality on it. |
| UpsertMeaning.UpsertIsUpdateOfStartIff | libs/storage/sql/store.py:473-496 | Of an update that names each field once, the record created is the operators applied to the document of the filter's equalities exactly if every change starts from nothing there: it increases no number but 0, adds to a list that holds nothing else, and pulls what is not there. |
| UpsertMeaning.IncreasingTheFiltersOwn | libs/storage/sql/store.py:475-487 | It is not of `{n: 5}` and `$inc` by 1: SQL creates 1, where the operators on the filter's document make 6. |
| Upserts.UpsertIsUnderNamedKey | libs/storage/sql/store.py:475-496 | An upsert whose filter names a key creates the record under it, unless `$setOnInsert` gives another, which wins. |
| DocumentSpec.PagesMakeUpResult | libs/storage/sql/store.py:375-381 | On documents that do not change, pages of any sizes, one after another, are the sorted result without a repeat or a gap. |
| DocumentSpec.SweepIsInvisible | libs/storage/sql/store.py:350-360 | Deleting the expired changes no read at the sweep's time or later. |
| SqlTables.InsertedIsValid | libs/storage/sql/store.py:438-464 | Inserting a record with a free key and its lists keeps the tables valid: rows ordered, keys distinct, and no child row without its parent. |
| SqlTables.UpdatedIsValid | libs/storage/sql/store.py:506-564 | So do an update's writes to a record's row and child rows. |
| SqlTables.DeletedIsValid | libs/storage/sql/store.py:325-339 | So does deleting rows with their child rows. |
| SqlTables.UpdatedDocs | libs/storage/sql/store.py:506-564 | Writing changes to one record's row and child rows changes that record's document as the changes say, and no other document. |
| SqlTables.DeletedDocs | libs/storage/sql/store.py:335-339 | Deleting the rows of some keys, and their child rows, leaves the other documents, in order. |
| SqlReads.ReadElements | libs/storage/sql/store.py:387-401 | Grouping child rows read by position gives each key its own list in its order. |
| SqlReads.ReadRecords | libs/storage/sql/store.py:387-405 | The loops over list fields and rows give each row's whole document. |
| SqlReads.FindRecords | libs/storage/sql/store.py:363-416 | The records found are the page of the unexpired matching documents, stably sorted, or the error of the filter or the sort. |
| SqlReads.FindFirstKey | libs/storage/sql/store.py:424-435 | The first key is that of the first document found in insertion order, or None. |
| SqlWrites.InsertRecord | libs/storage/sql/store.py:438-464 | An insert refines appending the document; a null key, a key or unique group that is taken and a list with duplicates are refused, and nothing else is. |
| SqlWrites.UpdateRow | libs/storage/sql/store.py:514-522 | The row of the key takes its columns' new values, each from the row as it was, unless that makes it clash. |
| SqlWrites.WriteChanges | libs/storage/sql/store.py:506-564 | The writes of an update refine changing one document in place; a moved key, a clash and a replacement with duplicates are refused, each with its error. |
| SqlTransactions.CountDifferent | libs/storage/sql/store.py:290-301 | Comparing the records read before with those of their keys read after counts exactly the documents that came to differ. |
| SqlStorage.SqlStore.constructor | libs/storage/sql/store.py:57-74 | A new store is valid and holds nothing. |
| SqlStorage.SqlStore.Find | libs/storage/sql/store.py:104-128 | Find gives what the sequence of documents would: filter, stable sort, skip and limit. |
| SqlStorage.SqlStore.Count | libs/storage/sql/store.py:130-147 | Count is the number of documents the filter finds, or the filter's error. |
| SqlStorage.SqlStore.InsertOne | libs/storage/sql/store.py:180-197 | Insert leaves the documents with the record appended, or as they were, with the reason. |
| SqlStorage.SqlStore.InsertMany | libs/storage/sql/store.py:199-217 | All of the records are inserted in order, or none of them. |
| SqlStorage.SqlStore.UpdateOne | libs/storage/sql/store.py:219-262 | Documents and result are those of the document spec: the first match updated with its image of before or after, or the upserted record inserted, or nothing changed and the error. |
| SqlStorage.SqlStore.UpdateMany | libs/storage/sql/store.py:264-301 | Every match is updated, in order and all or nothing, and the count is of those that differ once read back. |
| SqlStorage.SqlStore.DeleteOne | libs/storage/sql/store.py:303-323 | The first match is deleted and returned, and the others stay in order. |
| SqlStorage.SqlStore.DeleteMany | libs/storage/sql/store.py:325-339 | Exactly the matches are deleted, and counted. |
| SqlStorage.SqlStore.DeleteExpired | libs/storage/sql/store.py:350-360 | One sweep leaves exactly the documents whose time of expiry has not come. |
| StorePromises.CheckedUpdateMovesNoKey | libs/storage/base/update.py:67-96 | Of an update that the database's check lets pass, the store never finds that it moves the key of a record the filter matched. |
| StorePromises.UpdateOneIsPromised | libs/storage/sql/store.py:244-262 | `update_one` does what it promises in terms of the operators, image included, exactly unless it must read back a record that the update has expired. |
| StorePromises.UpdateManyIsPromised | libs/storage/sql/store.py:264-301 | `update_many` applies the operators to exactly the documents found, and counts exactly those that differ. |
| StorePromises.UpsertIsPromised | libs/storage/sql/store.py:246-262 | An upsert that finds nothing inserts its record, or is refused for it, as promised, exactly unless it must read back a record that is born expired: then it fails, and inserts nothing. |
| StorePromises.UpsertMeetsTheUnswept | libs/storage/sql/store.py:248-258 | An upsert of a key no read finds creates the record, unless an expired record of the key is still there, or another has its values of a unique group: then it is refused, and nothing changes. |
| StorePromises.MongoPagesUnlessZero | libs/storage/mongo/store.py:106-112 | The two stores page alike exactly if the limit is not 0 or nothing is left to return. |
| UpsertRace.UpsertsAreLinearizable | libs/storage/sql/store.py:467-503 | However the lookups, inserts and fallback updates of upserts of one key interleave, the documents are those of the calls that took effect, run whole one after another, each once. |
| UpsertRace.RacingUpsertsMakeOneRecord | libs/storage/sql/store.py:246-262 | Once each call has had three turns, every one has taken effect or failed: one record of the key is there at most, made by the first that took effect if there was none and changed by each of the others, none of which applies `$setOnInsert`. |
| UpsertRace.NoCallFails | libs/storage/sql/store.py:491-503 | Where the key alone can refuse a call, and no record expires, none fails: each of them takes effect. |
| UpsertRace.UpsertsByKeyRace | libs/storage/sql/store.py:467-503 | The calls that upserts by one key make, with the records and the changes the store computes for them, are calls of such a race. |
| MongoEncoding.EncodedReadsBack | libs/storage/mongo/translate.py:223-260 | At every depth, what is written under a type reads back as the same data in values MongoDB can store. |
| MongoEncoding.RecordReadsBack | libs/storage/mongo/translate.py:144-181 | A record written as a document reads back as the same record, its own id and those at any depth. |
| MongoEncoding.ConvertToDocumentValues | libs/storage/mongo/translate.py:207-220 | The loop over a record's fields encodes each under its own type. |
| MongoEncoding.ConvertToDocument | libs/storage/mongo/translate.py:144-161 | The document holds the encoded fields, the id moved to `_id`, or left out if the record has none. |
| MongoEncoding.ConvertToRecord | libs/storage/mongo/translate.py:164-181 | The data read back, `_id` moved to `id` for a schema that has one. |
| MongoQueries.TranslateFilter | libs/storage/mongo/translate.py:43-72 | The recursive loop gives the query with every operand encoded for its field and the key renamed at the top only. |
| MongoQueries.PrefixIsStripped | libs/storage/mongo/translate.py:195-204 | Prefixing, translating and stripping a `$elemMatch` entry keeps its field, an element's own `id` too, and encodes its operand for the field's type in the elements. |
| MongoQueries.EncodedAt | libs/storage/mongo/translate.py:223-237 | Every value a path leads to in encoded data is the encoding of one it leads to in the data itself. |
| MongoQueries.EncodingIsFaithful | libs/storage/mongo/translate.py:223-250 | The encoding of each type keeps values apart, in order and in their lists, and keeps texts unless they are ids. |
| MongoQueries.EncodingCommutes | libs/storage/mongo/translate.py:43-72 | A translated filter finds a record's document exactly when the filter, with ids as strings, finds the record. |
| MongoQueries.CommutesForCanonicalIdsOnly | libs/storage/mongo/translate.py:232-237 | Of the texts MongoDB takes for ids, the encoding tells ids apart as strings do exactly for those in canonical form. |
| MongoUpdates.ChangeEncoded | libs/storage/mongo/translate.py:125-141 | Adding to an encoded list, or pulling from it, an encoded element gives the encoding of the list added to or pulled from. |
| MongoUpdates.UpdateCommutes | libs/storage/mongo/translate.py:75-92 | MongoDB takes a translated update of a record's document exactly if it would take the update of the record, and then makes of it the document of the record updated. |
| MongoCollation.CollatedCommutes | libs/storage/mongo/store.py:372-383 | With the collation that compares without case too, a translated filter finds a record's document exactly when the filter finds the record. |
| StoresAgree.FilterAgrees | libs/storage/base/query.py:12-22 | A checked filter that SQL takes means for a document what MongoDB makes of the same filter on the same data, compared with the collation or without, if that makes no difference to the fields compared otherwise. |
| StoresAgree.StoresFindTheSame | libs/storage/mongo/store.py:321-338 | The WHERE clause selects an unexpired document's row exactly when the MongoDB query, with the collation its fields ask for, finds the same document encoded. |
| StoresAgree.MixedFilterAgreesIff | libs/storage/mongo/store.py:372-378 | A filter that equates a field compared without case, and another to a text, means the same to both stores exactly if the text has no letter. |
| UpdatesAgree.IncreaseIsTakenIffNumber | libs/storage/sql/translate.py:91-132 | Of the changes SQL takes, MongoDB refuses exactly those that increase what is no number, a stored null included. |
| UpdatesAgree.StoresUpdateTheSame | libs/storage/mongo/translate.py:75-92 | Of an update that names each field once, MongoDB takes all exactly if every cell increased holds a number, and then makes of the document, encoded, what SQL's writes make of it. |
| EmailOutbox.Outbox.ClaimPendingEmails | services/notices/emails.py:91-116 | The loop over the notices found claims and returns exactly those whose attempts were still as read, each then being sent with one attempt more, and leaves every other notice. |
| EmailOutbox.Outbox.ProcessResults | services/notices/emails.py:119-140 | In whichever order the writes take effect, and whichever of them do, each unexpired notice takes the outcome of the last one that names it, and no other changes. |
| EmailOutbox.OneResultDecides | services/notices/emails.py:255-273 | Whatever the order, a notice takes an outcome of one of its results, the one they share if they do, and without a result it stays. |
| EmailOutbox.OrderIsFreeIffAgreed | services/notices/emails.py:130-137 | The order decides nothing exactly if a notice's results agree. |
| EmailOutbox.AttemptsAreClaimedOnce | services/notices/emails.py:103-116 | Over all runs, takeovers from processes still at work included, no attempt at an email is claimed twice, and the attempts equal the claims. |
| EmailOutbox.OutboxIsSafe | services/notices/emails.py:91-169 | Over all runs that take claims over only from those who stopped, a claim that succeeds finds the status it read, sent and failed are final, and the attempts are at most max(1, max_attempts) plus the takeovers. |
| EmailOutbox.LateResultUndoesSent | services/notices/emails.py:25-27 | Without the assumption on takeovers a sent email can turn pending again: a concrete run. |
| Devices.DeviceService.SyncOnlineFlags | services/devices/service.py:201-228 | The loop marks each named device online or offline, and since when, and writes no device that is right already. |
| Devices.DeviceService.AddConnection | services/devices/service.py:145-164 | The connection is there for its time to live, and its device marked. |
| Devices.DeviceService.RemoveConnection | services/devices/service.py:167-178 | A live connection is gone and its device marked; one that lapsed changes nothing. |
| Devices.DeviceService.KeepConnectionsLive | services/devices/service.py:181-198 | A connection that is named and has not lapsed is live from now on exactly until another time to live is over, each other exactly as long as it was to be; and none moves to another device or process. |
| Devices.DeviceService.UpsertDevice | services/devices/service.py:90-115 | The device is created or updated, and its flag is its connections' and not the payload's. |
| Devices.DeviceService.SwitchOffDevice | services/devices/service.py:231-256 | The device is off, and offline since the date; an unknown one changes nothing. |
| Devices.DeviceService.SwitchOnDevice | services/devices/service.py:259-274 | The device is no longer off, and online exactly if connected; of an unknown one NotFound is raised. |
| Devices.WebsocketConnectionManager.Refresh | api/routers/devices/connections.py:83-92 | A round of the loop keeps the connections of the sockets held, and marks every device. |
| Devices.SyncIsExact | services/devices/service.py:201-228 | Marking makes each named device online exactly if it has a live connection and is not off, and leaves the others, and the time of any flag that does not change. |
| Devices.SyncIsIdempotent | services/devices/service.py:201-228 | Marking again, also later, changes nothing while the same devices are connected. |
| Devices.OffStaysOffline | services/devices/service.py:231-274 | Over every run of completed handlers no device is both switched off and online. |
| Devices.MarkingRacesSwitchOff | services/devices/service.py:211-228 | A switch-off between marking's reads leaves a device both off and online exactly if it was connected, and the next marking corrects it. |
| Devices.LapsedIsNotRevived | services/devices/service.py:181-198 | No event gives more time to a connection that has lapsed. |
| Devices.RefreshedNeverLapses | services/devices/service.py:31-34 | Over every run, a connection whose refreshes come at gaps shorter than the time to live lasts that time from the last of them. |
| Devices.DeadProcessIsCorrected | api/routers/devices/connections.py:83-92 | Once a process has died, within the time to live and one period of any survivor a refresh leaves online only devices another process holds a live connection of. |
| Billing.JobsService.UpdateJob | services/jobs/service.py:163-192 | The job takes the update, its times whole, and the image of before is returned. |
| Billing.JobsService.UpdateQpuUsage | services/jobs/service.py:195-232 | The job's project is charged the usage once and alerted if that crosses a bound; without a project or a job there is no charge. |
| Billing.JobsService.OnJobUpdated | services/devices/events.py:52-59 | One handler charges exactly if its update is the first to finish the job. |
| Billing.BalancesAreConserved | services/auth/projects/service.py:307-311 | However handlers interleave, and whether or not they end, each project's balance is what it was granted less what it was charged, and less what was left when it was deleted. |
| Billing.JobIsChargedAtMostOnce | services/devices/events.py:52-59 | Over every run a job is charged at most once, only once finished, by what its first finished update recorded, and to its own project. |
| Billing.FinishedJobsAreCharged | services/devices/events.py:52-59 | Once none waits of a job's charges, and none was lost to a crash, the job has been charged exactly once if it finished and its project stayed open, and never if it has no project, whatever becomes of other jobs. |
| Billing.LosingTheFinishChargesTwice | services/jobs/service.py:177-192 | Without the assumption on job times a job can be charged twice: a concrete run. |
| Billing.AlertsBetweenGrants | services/jobs/service.py:225-231 | Between grants, over any run, a project raises one alert of depletion exactly if its balance goes from above 0 to 0 or below, and at most one of running low, only if it crosses the threshold. |
| Billing.NoLowAfterDepleted | services/jobs/service.py:368-379 | With a threshold that is not negative no alert of running low follows one of depletion. |
| Billing.LowAfterDepletedIffNegative | services/jobs/service.py:368-379 | A depleted project can be told it runs low exactly if the threshold is negative. |
| Billing.LandingOnThresholdIsSilent | services/jobs/service.py:368-379 | A run in which the balance lands on the threshold raises no alert of running low, before or after. |
| Notices.NoticeService.SetReadStatus | services/notices/service.py:46-95 | The notice, if unexpired and addressed to the user or broadcast, is read or unread by the user and otherwise the same; else NotFound, and nothing changes. |
| Notices.NoticeService.SetReadStatusMany | services/notices/service.py:98-142 | Exactly the user's notices marked otherwise are marked, broadcasts without a time read, and counted. |
| Notices.NoticeService.MarkDirectNoticesRead | services/notices/service.py:419-440 | The loop over recipients marks each matched notice by its own recipient exactly once, and its count is their number. |
| Notices.NoticeService.ClearNoticesByReference | services/notices/service.py:145-172 | Exactly the unread notices of the references are cleared, broadcasts expired and direct ones also read by their recipient; the count is their number. |
| Notices.HalvesMakeWhole | services/notices/service.py:134-142 | Two updates, one after another, of halves of a filter that the first takes nothing out of make the whole update, and their counts add up to the matches. |
| Notices.NoneIsLeft | services/notices/service.py:98-142 | After all of a user's notices are marked, none of theirs is marked otherwise. |
| Notices.NoticesStayValid | services/notices/dtos.py:315-354 | Every stored notice stays valid over every run of reading, unreading, clearing, publishing and deleting. |
| Notices.OthersAreLeftAlone | services/notices/service.py:98-142 | Marking one user's notices leaves what every other user sees and has read. |
| Notices.ClearedIsGone | services/notices/service.py:390-440 | What is cleared is not matched again, and no later read finds it. |
| Projects.AuthService.CreateProject | services/auth/projects/service.py:119-156 | The project is there with its admin among its members, exactly if its name is free and no user is named twice; else ProjectExists and nothing changes. |
| Projects.AuthService.EnsurePersonalProject | services/auth/projects/service.py:258-291 | The project of the computed id as it is, or newly made with its one member, or none if its name is taken. |
| Projects.AuthService.UpdateProject | services/auth/projects/service.py:159-202 | The project changes whole or not at all, its admin always a member, and its tokens are those of the new members even if it is refused. |
| Projects.AuthService.RemoveMember | services/auth/projects/service.py:205-227 | The member and exactly their tokens for the project are gone, and everything stays valid exactly if they are not the admin. |
| Projects.AuthService.DeleteProject | services/auth/projects/service.py:230-255 | The project and exactly its tokens are gone and a copy is kept; one's own personal project is refused. |
| Projects.AuthService.AddMember | services/auth/projects/service.py:329-342 | The user is a member, once, and nothing else changes. |
| Projects.AuthService.SetAdmin | services/auth/projects/service.py:345-360 | The user is the admin and a member, once, and nothing else changes. |
| Projects.AuthService.CreateAppToken | services/auth/app_tokens/service.py:28-53 | A token is made exactly for a member of an active project. |
| Projects.AuthService.FindUnexpiredToken | services/auth/app_tokens/service.py:194-206 | The token if unexpired; an expired one is deleted on being read. |
| Projects.AuthService.GetTokenOwner | services/auth/app_tokens/service.py:56-76 | An unexpired token has an owner exactly if its user still exists: its project and its user's membership always do. |
| Projects.AuthService.UpdateAppTokenExpiry | services/auth/app_tokens/service.py:121-144 | The user's own unexpired token ends when asked, and no other token changes. |
| Projects.AuthService.DeleteAppToken | services/auth/app_tokens/service.py:147-160 | The user's own token of the id is gone, expired or not; another's is not found. |
| Projects.LeaversLoseTokens | services/auth/app_tokens/service.py:176-191 | Of a project's tokens an update leaves exactly those of users who are still its members. |
| TableOrder.AddAfterReferences | libs/storage/sql/tables.py:493-501 | The recursive loop, on a list of schemas so far, extends it with the schema after all it references, and ends. |
| TableOrder.OrderByReferences | libs/storage/sql/tables.py:485-490 | Each schema comes once, after all the listed schemas it references. |
| TableOrder.OrderExistsIffAcyclic | libs/storage/sql/tables.py:485-501 | There is such an order exactly if no schema references itself through others. |
| SpecPruning.GetReferredSchemas | dev/openapi/generate.py:137-147 | The worklist ends with exactly the schemas reachable from those named, and fails exactly if one of them is missing. |
| SpecPruning.PruneSpec | dev/openapi/generate.py:84-103 | The pruned spec holds exactly the reachable schemas, made lenient, and every reference left in it resolves in it. |
| SpecPruning.MadeLenient | dev/openapi/generate.py:106-134 | In a node made lenient no object at any depth has a pattern or requires a read-only field. |
| SpecPruning.LenientIsKept | dev/openapi/generate.py:106-134 | A node that is lenient already is left as it is, so making lenient twice changes nothing more. |
| SpecPruning.KeysAreKept | dev/openapi/generate.py:124-126 | Every key of an object is kept but `pattern`, each with its value made lenient, but for what is required. |
| SpecPruning.PropertyIsLostIffPattern | dev/openapi/generate.py:124-126 | Of a schema's properties exactly one called `pattern` is lost. |
| SpecPruning.StaysRequiredIff | dev/openapi/generate.py:127-133 | A name stays required exactly if its property is not read-only, or is called `pattern`. |
| SpecPruning.LenientRefs | dev/openapi/generate.py:106-134 | Making a node lenient gives it no reference it did not have. |

## Left out

- Routes, websockets, SMTP, HTTP clients, OAuth, tokens' cryptography, logging and configuration: only the steps on what is stored are modelled.
- The databases themselves, beyond tables with keys, transactions and three-valued WHERE clauses, and MongoDB's matching of paths, lists and operators.
- Model validation: a field has a kind (column, JSON, list of scalars, list of models), so defaults filled in on reading, `should_skip_invalid` and the ids generated on insert are not modelled; an upserted record's new id is a parameter.
- Enum, datetime and other conversions of column values: a value is None, a boolean, a number, a text or JSON.
- Case folding beyond ASCII letters: MongoDB's collation is taken to compare texts by their lower case, in the order of their characters. The order in which it sorts is left out.
- StoresFindTheSame: a filter on a field compared without case must name no other field with a text that has a letter, or that is ordered against, as the stores can then differ (`MixedFilterAgreesIff`).
- InsertRecord: does not model the foreign keys between schemas' tables, so the source also refuses a record that references one that is not there; and deleting a record there sets references to it to None, or takes it out of lists of references.
- `find_distinct` and `get`.
- What else MongoDB starts an upserted record from: equalities nested under `$and`.
- Dotted paths into JSON: the check takes any path below a JSON field or an open schema, and does not follow nested models further.
- An id operand that is no ObjectId's text, and a text search among ids, for which MongoDB's driver raises: `FitsQuery` leaves them out.
- Order within a MongoDB object, and the elements of a tuple or set of models, whose ids stay strings.
- Dotted paths in MongoDB updates, and what MongoDB makes of one that names a field in two operators, which it refuses.
- The images an upsert returns while it races others: `UpsertRace` runs it for its effect.
- Emails themselves, their text and who is reachable: an unreachable user is a result that failed for good.
- Wall-clock precision and rounding: times and QPU seconds are integers and reals.
- The users behind project members and token owners: the emails' ids, and which users exist, are parameters. Notices sent to members are left out.
- The order and repeats of `dismissed_by`, which is a set here, and the fields of notices, devices, jobs and projects that no rule depends on.
- A `required` in the API spec that is not a list, and a property in it that is not an object.
