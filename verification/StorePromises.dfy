/** What callers are promised of updates, upserts and pages, and when the store meets it. */
module StorePromises {
  import opened Wrappers
  import opened Sequences
  import opened Values
  import opened Dialect
  import opened ListTables
  import opened Updates
  import opened UpdateMeaning
  import opened DocumentSpec
  import opened SqlReads
  import opened SqlTransactions

  // ---- updates ----

  lemma {:induction false} KeyIsAssigned(schema: Schema, u: Update, k: Value)
    requires ChangesOf(schema, u).Ok?
    requires forall c :: c in u && c.field == schema.key && c.op != SetOnInsert ==> c.op == SetTo && c.written == ToValue(k)
    ensures schema.key in ChangesOf(schema, u).value.values ==>
      ChangesOf(schema, u).value.values[schema.key] == Assign(k)
  {
    if u != [] {
      assert u[|u| - 1] in u;
      KeyIsAssigned(schema, u[..|u| - 1], k);
    }
  }

  /** The database's check is all that is needed: of what it lets pass, no write moves a key. */
  lemma CheckedUpdateMovesNoKey(schema: Schema, f: Filter, u: Update, doc: Doc)
    requires schema.Valid() && ChangesOf(schema, u).Ok?
    requires CheckKeyKept(schema, f, u).None? && Matches(schema, f, doc)
    ensures !MovesKey(schema, doc, ChangesOf(schema, u).value)
  {
    forall c | c in u && c.field == schema.key && c.op != SetOnInsert
      ensures c.op == SetTo && c.written == ToValue(doc.Cell(schema.key))
    {
      assert KeepsKey(schema, f, c);
      MatchedKeyHolds(schema, f.entries, doc);
    }
    KeyIsAssigned(schema, u, doc.Cell(schema.key));
  }

  /** Whether a document would share a unique value with another than the one it replaces. */
  predicate ClashesAside(schema: Schema, docs: seq<Doc>, i: nat, doc: Doc) {
    exists j :: 0 <= j < |docs| && j != i && Clash(schema, docs[j].cells, doc.cells)
  }

  /** Whether an update is refused for uniqueness: of a unique field, or of a list's elements. */
  ghost predicate IsDuplicate(schema: Schema, docs: seq<Doc>, i: nat, u: Update)
    requires i < |docs| && ChangesOf(schema, u).Ok?
  {
    || ClashesAside(schema, docs, i, ApplyUpdate(docs[i], u))
    || HoldsDuplicates(schema, ChangesOf(schema, u).value.replacements)
  }

  /** What `update_one` promises of a filter that finds a document: the operators one after
      another on the first one found, and the image asked for. */
  ghost function PromisedUpdate(schema: Schema, docs: seq<Doc>, i: nat, u: Update, returning: Returning)
    : (r: (seq<Doc>, Result<Option<Doc>>))
    requires i < |docs| && ChangesOf(schema, u).Ok?
  {
    var updated := ApplyUpdate(docs[i], u);
    if IsDuplicate(schema, docs, i, u) then (docs, Err(DuplicateKey))
    else (docs[i := updated], Ok(Some(if returning.Before? then docs[i] else updated)))
  }

  /** The store keeps the promise exactly when it need not read back a document it has expired. */
  lemma UpdateOneIsPromised(schema: Schema, docs: seq<Doc>, f: Filter, u: Update, upserted: Option<Result<Doc>>,
                            returning: Returning, now: Value)
    requires schema.Valid() && ChangesOf(schema, u).Ok? && CheckKeyKept(schema, f, u).None?
    requires IsMapping(u) && AreValued(u) && OrderIsHarmless(u)
    requires forall doc :: doc in docs ==> Shaped(schema, doc)
    requires HitIndices(schema, docs, f, now) != []
    ensures var i := HitIndices(schema, docs, f, now)[0];
      SpecUpdateOne(schema, docs, f, ChangesOf(schema, u).value, upserted, returning, now)
      == PromisedUpdate(schema, docs, i, u, returning)
      <==> returning.Before? || IsDuplicate(schema, docs, i, u) || Unexpired(schema, ApplyUpdate(docs[i], u), now)
  {
    var i := HitIndices(schema, docs, f, now)[0];
    CheckedUpdateMovesNoKey(schema, f, u, docs[i]);
    HarmlessWritesAreUpdate(schema, u, docs[i]);
    assert docs[i] in docs;
  }

  /** Where the update of many lands: the operators on every document found, and no other change. */
  lemma {:induction false} EachIsUpdated(schema: Schema, docs: seq<Doc>, indices: seq<nat>, u: Update)
    requires schema.Valid() && ChangesOf(schema, u).Ok? && Within(indices, |docs|)
    requires IsMapping(u) && AreValued(u) && OrderIsHarmless(u)
    requires forall doc :: doc in docs ==> Shaped(schema, doc)
    requires forall k, l :: 0 <= k < l < |indices| ==> indices[k] < indices[l]
    requires SpecUpdateEach(schema, docs, indices, ChangesOf(schema, u).value).Ok?
    ensures var after := SpecUpdateEach(schema, docs, indices, ChangesOf(schema, u).value).value;
      forall j :: 0 <= j < |docs| ==> after[j] == if j in indices then ApplyUpdate(docs[j], u) else docs[j]
  {
    if indices != [] {
      var init, last := indices[..|indices| - 1], indices[|indices| - 1];
      EachIsUpdated(schema, docs, init, u);
      assert last !in init && docs[last] in docs;
      HarmlessWritesAreUpdate(schema, u, docs[last]);
    }
  }

  function Differing(before: seq<Doc>, after: seq<Doc>, indices: seq<nat>): set<nat>
    requires |before| == |after| && Within(indices, |before|)
  {
    set i | i in indices && before[i] != after[i]
  }

  lemma OneMoreDiffers(before: seq<Doc>, after: seq<Doc>, init: seq<nat>, last: nat)
    requires |before| == |after| && Within(init, |before|) && last < |before| && last !in init
    ensures |Differing(before, after, init + [last])|
            == |Differing(before, after, init)| + if before[last] != after[last] then 1 else 0
  {
    var earlier := Differing(before, after, init);
    var now := if before[last] != after[last] then earlier + {last} else earlier;
    assert Differing(before, after, init + [last]) == now;
  }

  lemma {:induction false} ChangedAreCounted(before: seq<Doc>, after: seq<Doc>, indices: seq<nat>)
    requires |before| == |after| && Within(indices, |before|)
    requires forall k, l :: 0 <= k < l < |indices| ==> indices[k] < indices[l]
    ensures CountChanged(before, after, indices) == |Differing(before, after, indices)|
  {
    if indices != [] {
      var init, last := indices[..|indices| - 1], indices[|indices| - 1];
      ChangedAreCounted(before, after, init);
      assert indices == init + [last] && last !in init;
      OneMoreDiffers(before, after, init, last);
    }
  }

  /** `update_many` applies the operators to every document found and to no other, and counts
      exactly the documents that came to differ. */
  lemma UpdateManyIsPromised(schema: Schema, docs: seq<Doc>, f: Filter, u: Update, now: Value)
    requires schema.Valid() && ChangesOf(schema, u).Ok? && IsMapping(u) && AreValued(u) && OrderIsHarmless(u)
    requires forall doc :: doc in docs ==> Shaped(schema, doc)
    requires SpecUpdateMany(schema, docs, f, ChangesOf(schema, u).value, now).1.Ok?
    ensures var (after, count) := SpecUpdateMany(schema, docs, f, ChangesOf(schema, u).value, now);
      && |after| == |docs|
      && (forall j :: 0 <= j < |docs| ==>
            after[j] == if Hit(schema, f, now, docs[j]) then ApplyUpdate(docs[j], u) else docs[j])
      && count.value == |set j | 0 <= j < |docs| && after[j] != docs[j]|
  {
    var hits := HitIndices(schema, docs, f, now);
    var after := SpecUpdateMany(schema, docs, f, ChangesOf(schema, u).value, now).0;
    EachIsUpdated(schema, docs, hits, u);
    ChangedAreCounted(docs, after, hits);
    assert Differing(docs, after, hits) == set j | 0 <= j < |docs| && after[j] != docs[j];
  }

  // ---- upserts ----

  /** What an upsert promises of a filter that finds nothing: the record inserted, or refused, and
      the image asked for. */
  ghost function PromisedInsert(schema: Schema, docs: seq<Doc>, record: Doc, returning: Returning)
    : (r: (seq<Doc>, Result<Option<Doc>>))
  {
    match SpecInsert(schema, docs, record)
    case Ok(after) => (after, Ok(if returning.Before? then None else Some(record)))
    case Err(e) => (docs, Err(e))
  }

  /** The store keeps that promise too exactly when it need not read back a record that is born
      expired, which it cannot: it fails, and inserts nothing. */
  lemma UpsertIsPromised(schema: Schema, docs: seq<Doc>, f: Filter, ch: Changes, record: Doc, returning: Returning, now: Value)
    requires HitIndices(schema, docs, f, now) == []
    ensures SpecUpdateOne(schema, docs, f, ch, Some(Ok(record)), returning, now)
            == PromisedInsert(schema, docs, record, returning)
      <==> returning.Before? || SpecInsert(schema, docs, record).Err? || Unexpired(schema, record, now)
    ensures returning.After? && SpecInsert(schema, docs, record).Ok? && !Unexpired(schema, record, now) ==>
      SpecUpdateOne(schema, docs, f, ch, Some(Ok(record)), returning, now) == (docs, Err(RecordLost))
  {
  }

  /** Whether a document has the values of a unique group of fields. */
  predicate SharesGroup(schema: Schema, doc: Doc, record: Doc) {
    exists group :: group in schema.unique && ShareGroup(schema, group, doc.cells, record.cells)
  }

  /** An upsert by key of a key no read finds creates the record, unless an expired record of
      the key is still to be swept, or another has its values of a unique group: then the database
      refuses it, and nothing changes. */
  lemma UpsertMeetsTheUnswept(schema: Schema, docs: seq<Doc>, key: Value, ch: Changes, record: Doc,
                              returning: Returning, now: Value)
    requires schema.Valid() && key != Null
    requires forall doc :: doc in docs ==> Shaped(schema, doc)
    requires Shaped(schema, record) && record.Cell(schema.key) == key && Unexpired(schema, record, now)
    requires !HoldsDuplicates(schema, record.lists)
    requires HitIndices(schema, docs, KeyFilter(schema, key), now) == []
    ensures var outcome := SpecUpdateOne(schema, docs, KeyFilter(schema, key), ch, Some(Ok(record)), returning, now);
      if exists doc :: doc in docs &&
           ((doc.Cell(schema.key) == key && !Unexpired(schema, doc, now)) || SharesGroup(schema, doc, record))
      then outcome == (docs, Err(DuplicateKey))
      else outcome == (docs + [record], Ok(if returning.Before? then None else Some(record)))
  {
    forall doc | doc in docs
      ensures Clash(schema, doc.cells, record.cells)
              <==> (doc.Cell(schema.key) == key && !Unexpired(schema, doc, now)) || SharesGroup(schema, doc, record)
    {
      var i :| 0 <= i < |docs| && docs[i] == doc;
      KeyFilterMatches(schema, key, doc);
      assert !Hit(schema, KeyFilter(schema, key), now, docs[i]);
      assert schema.key in doc.cells && schema.key in record.cells;
    }
  }

  // ---- pages ----

  /** What MongoDB returns of a limit, of which the store makes 0 of none. */
  function MongoPage<T>(xs: seq<T>, skip: nat, limit: Option<nat>): (r: seq<T>) {
    var rest := if skip <= |xs| then xs[skip..] else [];
    var n := if limit.Some? then limit.value else 0;
    if n == 0 || |rest| <= n then rest else rest[..n]
  }

  /** The two stores give the same page exactly when the limit is not 0, or nothing is left:
      MongoDB reads a limit of 0 as no limit. */
  lemma MongoPagesUnlessZero<T(!new)>(xs: seq<T>, skip: nat, limit: Option<nat>)
    ensures MongoPage(xs, skip, limit) == Page(xs, skip, limit) <==> limit != Some(0) || |xs| <= skip
  {
  }
}
