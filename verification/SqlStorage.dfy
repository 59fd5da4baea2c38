/** The store for SQL databases, which is a sequence of documents to its callers. */
module SqlStorage {
  import opened Wrappers
  import opened Sequences
  import opened Values
  import opened Dialect
  import opened Sql
  import opened SqlTranslate
  import opened SqlCompiler
  import opened SqlOrdering
  import opened Updates
  import opened Upserts
  import opened DocumentSpec
  import opened SqlTables
  import opened SqlReads
  import opened SqlWrites
  import opened SqlTransactions

  // ---- what each call returns, and the documents it leaves ----

  ghost function CountOutcome(schema: Schema, docs: seq<Doc>, f: Filter, now: Value): Result<nat> {
    if Where(schema, f, now).Err? then Err(Where(schema, f, now).error)
    else Ok(|Kept(docs, Hits(schema, f, now))|)
  }

  ghost function UpdateOneOutcome(schema: Schema, docs: seq<Doc>, f: Filter, u: Update, upserted: Option<Result<Doc>>,
                                  returning: Returning, now: Value): (r: (seq<Doc>, Result<Option<Doc>>))
  {
    if ChangesOf(schema, u).Err? then (docs, Err(ChangesOf(schema, u).error))
    else if Where(schema, f, now).Err? then (docs, Err(Where(schema, f, now).error))
    else SpecUpdateOne(schema, docs, f, ChangesOf(schema, u).value, upserted, returning, now)
  }

  ghost function UpdateManyOutcome(schema: Schema, docs: seq<Doc>, f: Filter, u: Update, now: Value)
    : (r: (seq<Doc>, Result<nat>))
  {
    if ChangesOf(schema, u).Err? then (docs, Err(ChangesOf(schema, u).error))
    else if Where(schema, f, now).Err? then (docs, Err(Where(schema, f, now).error))
    else SpecUpdateMany(schema, docs, f, ChangesOf(schema, u).value, now)
  }

  ghost function InsertOutcome(docs: seq<Doc>, promise: Result<seq<Doc>>): (r: (seq<Doc>, Option<Error>)) {
    match promise
    case Ok(after) => (after, None)
    case Err(e) => (docs, Some(e))
  }

  ghost function DeleteOneOutcome(schema: Schema, docs: seq<Doc>, f: Filter, now: Value)
    : (r: (seq<Doc>, Result<Option<Doc>>))
  {
    if Where(schema, f, now).Err? then (docs, Err(Where(schema, f, now).error))
    else
      var (after, deleted) := SpecDeleteOne(schema, docs, f, now);
      (after, Ok(deleted))
  }

  ghost function DeleteManyOutcome(schema: Schema, docs: seq<Doc>, f: Filter, now: Value): (r: (seq<Doc>, Result<nat>)) {
    if Where(schema, f, now).Err? then (docs, Err(Where(schema, f, now).error))
    else (Kept(docs, Misses(schema, f, now)), Ok(|Kept(docs, Hits(schema, f, now))|))
  }

  // ---- the steps of the transactions ----

  method UpsertRecord(schema: Schema, f: Filter, u: Update, newId: Value) returns (r: Result<Doc>)
    ensures r == UpsertedRecord(schema, f, u, newId)
  {
    var values := CollectValues(f, u);
    r := RecordOf(schema, values, newId);
  }

  /** The update of the record found, and its image of before or after. */
  method UpdateFound(schema: Schema, t: Tables, key: Value, ch: Changes, returning: Returning, now: Value, ghost i: nat)
    returns (r: Result<(Tables, Doc)>)
    requires schema.Valid() && ValidTables(schema, t) && NoClash(schema, DocsOf(schema, t)) && TypedChanges(schema, ch)
    requires now != Null && i < |t.rows| && t.rows[i].Cell(schema.key) == key
    requires Unexpired(schema, DocsOf(schema, t)[i], now)
    ensures var docs := DocsOf(schema, t);
      var after := SpecUpdateAt(schema, docs, i, ch);
      if after.Err? then r == Err(after.error)
      else if returning.After? && !Unexpired(schema, after.value[i], now) then r == Err(RecordLost)
      else
        && r.Ok? && ValidTables(schema, r.value.0) && DocsOf(schema, r.value.0) == after.value
        && NoClash(schema, after.value)
        && r.value.1 == if returning.Before? then docs[i] else after.value[i]
  {
    var before := GetRecord(schema, t, key, now, i);
    var written := WriteChanges(schema, t, key, ch, i);
    if written.Err? {
      return Err(written.error);
    }
    UpdateKeepsUnique(schema, DocsOf(schema, t), i, ch);
    if returning.Before? {
      return Ok((written.value, before.value));
    }
    assert DocsOf(schema, written.value)[i].Cell(schema.key) == key;
    var after := GetRecord(schema, written.value, key, now, i);
    return if after.Err? then Err(after.error) else Ok((written.value, after.value));
  }

  /** The insert of the record an upsert creates, and its image of after. */
  method InsertUpserted(schema: Schema, t: Tables, record: Doc, returning: Returning, now: Value)
    returns (r: Result<(Tables, Option<Doc>)>)
    requires schema.Valid() && ValidTables(schema, t) && NoClash(schema, DocsOf(schema, t)) && TypedDoc(schema, record)
    requires now != Null
    ensures var after := SpecInsert(schema, DocsOf(schema, t), record);
      if after.Err? then r == Err(after.error)
      else if returning.After? && !Unexpired(schema, record, now) then r == Err(RecordLost)
      else
        && r.Ok? && ValidTables(schema, r.value.0) && DocsOf(schema, r.value.0) == after.value
        && NoClash(schema, after.value)
        && r.value.1 == if returning.Before? then None else Some(record)
  {
    // within one transaction a refused insert finds no record to update instead
    var written := InsertRecord(schema, t, record);
    if written.Err? {
      return Err(written.error);
    }
    InsertKeepsUnique(schema, DocsOf(schema, t), record);
    if returning.Before? {
      return Ok((written.value, None));
    }
    ghost var docs := DocsOf(schema, written.value);
    assert docs[|t.rows|] == record;
    assert written.value.rows[|t.rows|].Cell(schema.key) == record.Cell(schema.key);
    var after := GetRecord(schema, written.value, record.Cell(schema.key), now, |t.rows|);
    return if after.Err? then Err(after.error) else Ok((written.value, Some(after.value)));
  }

  /** What an upsert does that finds nothing. */
  method UpsertMissing(schema: Schema, t: Tables, f: Filter, u: Update, newId: Value, returning: Returning, now: Value)
    returns (r: Result<(Tables, Option<Doc>)>)
    requires schema.Valid() && ValidTables(schema, t) && NoClash(schema, DocsOf(schema, t)) && now != Null
    requires ChangesOf(schema, u).Ok? && Where(schema, f, now).Ok? && HitIndices(schema, DocsOf(schema, t), f, now) == []
    ensures var docs, outcome := DocsOf(schema, t),
                UpdateOneOutcome(schema, DocsOf(schema, t), f, u, Some(UpsertedRecord(schema, f, u, newId)), returning, now);
      && (r.Err? ==> outcome == (docs, Err(r.error)))
      && (r.Ok? ==>
            && ValidTables(schema, r.value.0) && NoClash(schema, DocsOf(schema, r.value.0))
            && outcome == (DocsOf(schema, r.value.0), Ok(r.value.1)))
  {
    var record := UpsertRecord(schema, f, u, newId);
    if record.Err? {
      return Err(record.error);
    }
    RecordIsTyped(schema, UpsertValues(f, u), newId);
    r := InsertUpserted(schema, t, record.value, returning, now);
  }

  lemma ReadBackCounts(schema: Schema, t: Tables, u: Tables, f: Filter, ch: Changes, now: Value,
                       byKey: map<Value, Doc>, keys: seq<Value>, k: nat)
    requires schema.Valid() && ValidTables(schema, t) && ValidTables(schema, u) && |t.rows| == |u.rows|
    requires var hits := HitIndices(schema, DocsOf(schema, t), f, now);
      && SpecUpdateEach(schema, DocsOf(schema, t), hits, ch) == Ok(DocsOf(schema, u))
      && k < |hits| && keys == Map(DocsAt(DocsOf(schema, t), hits), (doc: Doc) => doc.Cell(schema.key))
    requires forall doc :: doc in DocsOf(schema, u) && Unexpired(schema, doc, now) && doc.Cell(schema.key) in keys ==>
      doc.Cell(schema.key) in byKey && byKey[doc.Cell(schema.key)] == doc
    requires forall key :: key in byKey ==>
      byKey[key] in DocsOf(schema, u) && Unexpired(schema, byKey[key], now) && byKey[key].Cell(schema.key) == key
    requires forall a, b :: a in DocsOf(schema, u) && b in DocsOf(schema, u) && a.Cell(schema.key) == b.Cell(schema.key) ==> a == b
    ensures var hits := HitIndices(schema, DocsOf(schema, t), f, now);
      var before := DocsOf(schema, t)[hits[k]];
      (before.Cell(schema.key) in byKey && byKey[before.Cell(schema.key)] == before)
      <==> DocsOf(schema, u)[hits[k]] == before
  {
    var docs, after := DocsOf(schema, t), DocsOf(schema, u);
    var hits := HitIndices(schema, docs, f, now);
    EachKeepsKeys(schema, docs, hits, ch);
    var before, doc := docs[hits[k]], after[hits[k]];
    assert doc in after && doc.Cell(schema.key) == before.Cell(schema.key);
    assert keys[k] in keys && keys[k] == before.Cell(schema.key);
  }

  /** The count of an update_many: the records that differ once read back. */
  method CountUpdated(schema: Schema, t: Tables, u: Tables, f: Filter, ch: Changes, before: seq<Doc>, now: Value)
    returns (n: nat)
    requires schema.Valid() && ValidTables(schema, t) && ValidTables(schema, u) && |t.rows| == |u.rows| && now != Null
    requires before == DocsAt(DocsOf(schema, t), HitIndices(schema, DocsOf(schema, t), f, now))
    requires SpecUpdateEach(schema, DocsOf(schema, t), HitIndices(schema, DocsOf(schema, t), f, now), ch) == Ok(DocsOf(schema, u))
    ensures n == CountChanged(DocsOf(schema, t), DocsOf(schema, u), HitIndices(schema, DocsOf(schema, t), f, now))
  {
    var keys := Map(before, (doc: Doc) => doc.Cell(schema.key));
    KeysFilterAskable(schema, keys, now);
    var found := FindRecords(schema, u, KeysFilter(schema, keys), [], 0, None, now);
    UnsortedIsInOrder(Kept(DocsOf(schema, u), Hits(schema, KeysFilter(schema, keys), now)));
    FoundAreOfKeys(schema, u, keys, now, found.value);
    var byKey := ByKey(schema, found.value);
    ghost var hits := HitIndices(schema, DocsOf(schema, t), f, now);
    forall k | 0 <= k < |hits|
      ensures (before[k].Cell(schema.key) in byKey && byKey[before[k].Cell(schema.key)] == before[k])
              <==> DocsOf(schema, u)[hits[k]] == DocsOf(schema, t)[hits[k]]
    {
      ReadBackCounts(schema, t, u, f, ch, now, byKey, keys, k);
    }
    n := CountDifferent(schema, before, byKey, DocsOf(schema, t), DocsOf(schema, u), hits);
  }

  lemma DeletedFirst(schema: Schema, t: Tables, i: nat)
    requires ValidTables(schema, t) && i < |t.rows|
    ensures Kept(DocsOf(schema, t), DocKeyNotIn(schema, {t.rows[i].Cell(schema.key)}))
            == DocsOf(schema, t)[..i] + DocsOf(schema, t)[i + 1..]
  {
    var docs, keep := DocsOf(schema, t), DocKeyNotIn(schema, {t.rows[i].Cell(schema.key)});
    forall j | 0 <= j < |docs| ensures keep(docs[j]) <==> j != i {
      assert docs[j].Cell(schema.key) == t.rows[j].Cell(schema.key);
      assert t.rows[j].Cell(schema.key) == t.rows[i].Cell(schema.key) <==> i == j;
    }
    KeptAllBut(docs, keep, i);
  }

  lemma DeletedSelected(schema: Schema, t: Tables, drop: Row -> bool, keep: Doc -> bool)
    requires ValidTables(schema, t)
    requires forall row :: row in t.rows ==> (drop(row) <==> !keep(DocOf(schema, t, row)))
    ensures var keys := set row | row in Kept(t.rows, drop) :: row.Cell(schema.key);
      Kept(DocsOf(schema, t), DocKeyNotIn(schema, keys)) == Kept(DocsOf(schema, t), keep)
  {
    var keys := set row | row in Kept(t.rows, drop) :: row.Cell(schema.key);
    var docs := DocsOf(schema, t);
    forall doc | doc in docs ensures DocKeyNotIn(schema, keys)(doc) <==> keep(doc) {
      var i :| 0 <= i < |docs| && docs[i] == doc;
      var row := t.rows[i];
      assert row in t.rows;
      if doc.Cell(schema.key) in keys {
        var other :| other in Kept(t.rows, drop) && other.Cell(schema.key) == row.Cell(schema.key);
        var j :| 0 <= j < |t.rows| && t.rows[j] == other;
        assert other == row;
      } else {
        assert row !in Kept(t.rows, drop);
      }
    }
    KeptSame(docs, DocKeyNotIn(schema, keys), keep);
  }

  lemma FirstOfPage(docs: seq<Doc>)
    ensures Page(docs, 0, Some(1)) == if docs == [] then [] else [docs[0]]
  {
  }

  lemma FindFirstOutcome(schema: Schema, docs: seq<Doc>, f: Filter, now: Value)
    requires Where(schema, f, now).Ok?
    ensures var hits := HitIndices(schema, docs, f, now);
      FindOutcome(schema, docs, f, [], 0, Some(1), now) == Ok(if hits == [] then [] else [docs[hits[0]]])
  {
    var found := Kept(docs, Hits(schema, f, now));
    UnsortedIsInOrder(found);
    HitIndicesMatchHits(schema, docs, f, now);
    FirstOfPage(found);
    assert OrderTerms(schema, []) == Ok([]);
  }

  /** The first record found, if any. */
  method FindFirst(schema: Schema, t: Tables, f: Filter, now: Value) returns (r: Result<Option<Doc>>)
    requires ValidTables(schema, t) && Askable(schema, f, now)
    ensures Where(schema, f, now).Err? ==> r == Err(Where(schema, f, now).error)
    ensures Where(schema, f, now).Ok? ==>
      var hits := HitIndices(schema, DocsOf(schema, t), f, now);
      r == Ok(if hits == [] then None else Some(DocsOf(schema, t)[hits[0]]))
  {
    var records := FindRecords(schema, t, f, [], 0, Some(1), now);
    if records.Err? {
      return Err(records.error);
    }
    FindFirstOutcome(schema, DocsOf(schema, t), f, now);
    return Ok(if records.value == [] then None else Some(records.value[0]));
  }

  /** DELETE ... WHERE key = key, which deletes the record's child rows too. */
  method DeleteRow(schema: Schema, t: Tables, key: Value, ghost i: nat) returns (u: Tables)
    requires ValidTables(schema, t) && NoClash(schema, DocsOf(schema, t))
    requires i < |t.rows| && DocsOf(schema, t)[i].Cell(schema.key) == key
    ensures ValidTables(schema, u) && NoClash(schema, DocsOf(schema, u))
    ensures DocsOf(schema, u) == DocsOf(schema, t)[..i] + DocsOf(schema, t)[i + 1..]
  {
    assert key == t.rows[i].Cell(schema.key);
    u := Deleted(schema, t, {key});
    DeletedIsValid(schema, t, {key});
    DeletedDocs(schema, t, {key});
    DeletedFirst(schema, t, i);
    KeptStaysUnique(schema, DocsOf(schema, t), DocKeyNotIn(schema, {key}));
  }

  /** What deleting the first match comes to. */
  lemma FirstDeleted(schema: Schema, docs: seq<Doc>, f: Filter, now: Value)
    ensures var outcome, hits := DeleteOneOutcome(schema, docs, f, now), HitIndices(schema, docs, f, now);
      if Where(schema, f, now).Err? then outcome == (docs, Err(Where(schema, f, now).error))
      else if hits == [] then outcome == (docs, Ok(None))
      else
        var i := hits[0];
        i in hits && i < |docs| && outcome == (docs[..i] + docs[i + 1..], Ok(Some(docs[i])))
  {
  }

  /** The first match deleted, if there is one. */
  method DeleteFirst(schema: Schema, t: Tables, f: Filter, now: Value) returns (r: Result<(Tables, Option<Doc>)>)
    requires ValidTables(schema, t) && NoClash(schema, DocsOf(schema, t)) && Askable(schema, f, now)
    ensures r.Err? ==> DeleteOneOutcome(schema, DocsOf(schema, t), f, now) == (DocsOf(schema, t), Err(r.error))
    ensures r.Ok? ==>
      && ValidTables(schema, r.value.0) && NoClash(schema, DocsOf(schema, r.value.0))
      && DeleteOneOutcome(schema, DocsOf(schema, t), f, now) == (DocsOf(schema, r.value.0), Ok(r.value.1))
  {
    FirstDeleted(schema, DocsOf(schema, t), f, now);
    var record := FindFirst(schema, t, f, now);
    if record.Err? {
      return Err(record.error);
    }
    if record.value.None? {
      return Ok((t, None));
    }
    ghost var i := HitIndices(schema, DocsOf(schema, t), f, now)[0];
    var u := DeleteRow(schema, t, record.value.value.Cell(schema.key), i);
    return Ok((u, record.value));
  }

  class SqlStore {
    const schema: Schema
    var tables: Tables

    ghost predicate Valid()
      reads this
    {
      schema.Valid() && ValidTables(schema, tables) && NoClash(schema, Docs())
    }

    /** The store, as its callers see it. */
    ghost function Docs(): (r: seq<Doc>)
      reads this
    {
      DocsOf(schema, tables)
    }

    constructor (schema: Schema)
      requires schema.Valid()
      ensures Valid() && this.schema == schema && Docs() == []
    {
      this.schema := schema;
      tables := Tables([], map f | f in ListFields(schema) :: [], 0);
    }

    method Find(f: Filter, sort: seq<string>, skip: nat, limit: Option<nat>, now: Value) returns (r: Result<seq<Doc>>)
      requires Valid() && Askable(schema, f, now)
      ensures r == FindOutcome(schema, Docs(), f, sort, skip, limit, now)
    {
      r := FindRecords(schema, tables, f, sort, skip, limit, now);
    }

    method Count(f: Filter, now: Value) returns (r: Result<nat>)
      requires Valid() && Askable(schema, f, now)
      ensures r == CountOutcome(schema, Docs(), f, now)
    {
      var where := TranslateFilter(schema, f, now);
      if where.Err? {
        return Err(where.error);
      }
      SelectedAreHits(schema, tables, f, now);
      return Ok(|Kept(tables.rows, Selected(tables, where.value))|);
    }

    method InsertOne(record: Doc) returns (error: Option<Error>)
      requires Valid() && TypedDoc(schema, record)
      modifies this
      ensures Valid()
      ensures (Docs(), error) == InsertOutcome(old(Docs()), SpecInsert(schema, old(Docs()), record))
    {
      var written := InsertRecord(schema, tables, record);
      if written.Err? {
        return Some(written.error);
      }
      InsertKeepsUnique(schema, Docs(), record);
      tables := written.value;
      return None;
    }

    /** All of the records, or none of them. */
    method InsertMany(records: seq<Doc>) returns (error: Option<Error>)
      requires Valid() && forall record :: record in records ==> TypedDoc(schema, record)
      modifies this
      ensures Valid()
      ensures (Docs(), error) == InsertOutcome(old(Docs()), SpecInsertMany(schema, old(Docs()), records))
    {
      var written := tables;
      for n := 0 to |records|
        invariant tables == old(tables)
        invariant ValidTables(schema, written) && NoClash(schema, DocsOf(schema, written))
        invariant SpecInsertMany(schema, Docs(), records[..n]) == Ok(DocsOf(schema, written))
      {
        assert records[..n + 1][..n] == records[..n] && records[n] in records;
        var next := InsertRecord(schema, written, records[n]);
        if next.Err? {
          InsertManyFails(schema, Docs(), records, n);
          return Some(next.error);
        }
        InsertKeepsUnique(schema, DocsOf(schema, written), records[n]);
        written := next.value;
      }
      assert records[..|records|] == records;
      tables := written;
      return None;
    }

    method UpdateOne(f: Filter, u: Update, shouldUpsert: bool, returning: Returning, newId: Value, now: Value)
      returns (r: Result<Option<Doc>>)
      requires Valid() && Askable(schema, f, now) && TypedUpdate(schema, u)
      modifies this
      ensures Valid()
      ensures (Docs(), r) == UpdateOneOutcome(schema, old(Docs()), f, u,
        if shouldUpsert then Some(UpsertedRecord(schema, f, u, newId)) else None, returning, now)
    {
      var changes := TranslateUpdate(schema, u);
      if changes.Err? {
        return Err(changes.error);
      }
      TypedUpdateChanges(schema, u);
      var key := FindFirstKey(schema, tables, f, now);
      if key.Err? {
        return Err(key.error);
      }
      if key.value.None? && !shouldUpsert {
        return Ok(None);
      }
      if key.value.None? {
        var inserted := UpsertMissing(schema, tables, f, u, newId, returning, now);
        if inserted.Err? {
          return Err(inserted.error);
        }
        tables := inserted.value.0;
        return Ok(inserted.value.1);
      }
      ghost var i := HitIndices(schema, Docs(), f, now)[0];
      var updated := UpdateFound(schema, tables, key.value.value, changes.value, returning, now, i);
      if updated.Err? {
        return Err(updated.error);
      }
      tables := updated.value.0;
      return Ok(Some(updated.value.1));
    }

    method UpdateMany(f: Filter, u: Update, now: Value) returns (r: Result<nat>)
      requires Valid() && Askable(schema, f, now) && TypedUpdate(schema, u)
      modifies this
      ensures Valid()
      ensures (Docs(), r) == UpdateManyOutcome(schema, old(Docs()), f, u, now)
    {
      var changes := TranslateUpdate(schema, u);
      if changes.Err? {
        return Err(changes.error);
      }
      TypedUpdateChanges(schema, u);
      var before := FindRecords(schema, tables, f, [], 0, None, now);
      if before.Err? {
        return Err(before.error);
      }
      ghost var hits := HitIndices(schema, Docs(), f, now);
      UnsortedIsInOrder(Kept(Docs(), Hits(schema, f, now)));
      HitIndicesMatchHits(schema, Docs(), f, now);
      var written := WriteEach(schema, tables, before.value, changes.value, hits);
      if written.Err? {
        return Err(written.error);
      }
      assert |written.value.rows| == |tables.rows|;
      var count := CountUpdated(schema, tables, written.value, f, changes.value, before.value, now);
      tables := written.value;
      return Ok(count);
    }

    method DeleteOne(f: Filter, now: Value) returns (r: Result<Option<Doc>>)
      requires Valid() && Askable(schema, f, now)
      modifies this
      ensures Valid()
      ensures (Docs(), r) == DeleteOneOutcome(schema, old(Docs()), f, now)
    {
      var deleted := DeleteFirst(schema, tables, f, now);
      if deleted.Err? {
        return Err(deleted.error);
      }
      tables := deleted.value.0;
      return Ok(deleted.value.1);
    }

    method DeleteMany(f: Filter, now: Value) returns (r: Result<nat>)
      requires Valid() && Askable(schema, f, now)
      modifies this
      ensures Valid()
      ensures (Docs(), r) == DeleteManyOutcome(schema, old(Docs()), f, now)
    {
      var where := TranslateFilter(schema, f, now);
      if where.Err? {
        return Err(where.error);
      }
      var selected := Selected(tables, where.value);
      var rows := Kept(tables.rows, selected);
      var keys := set row | row in rows :: row.Cell(schema.key);
      SelectedAreHits(schema, tables, f, now);
      DeletedSelected(schema, tables, selected, Misses(schema, f, now));
      DeletedIsValid(schema, tables, keys);
      DeletedDocs(schema, tables, keys);
      KeptStaysUnique(schema, Docs(), DocKeyNotIn(schema, keys));
      tables := Deleted(schema, tables, keys);
      return Ok(|rows|);
    }

    /** One sweep of the expired records. */
    method DeleteExpired(now: Value)
      requires Valid() && now != Null
      modifies this
      ensures Valid() && Docs() == Kept(old(Docs()), Fresh(schema, now))
    {
      if schema.expires.None? {
        KeptAll(Docs(), Fresh(schema, now));
        return;
      }
      var isExpired := Compare(LessEqual, Sql.Cell(schema.expires.value), Literal(now));
      var expired := Selected(tables, isExpired);
      var rows := Kept(tables.rows, expired);
      var keys := set row | row in rows :: row.Cell(schema.key);
      forall row | row in tables.rows
        ensures expired(row) <==> !Fresh(schema, now)(DocOf(schema, tables, row))
      {
        BelowTotal(now, row.Cell(schema.expires.value));
      }
      DeletedSelected(schema, tables, expired, Fresh(schema, now));
      DeletedIsValid(schema, tables, keys);
      DeletedDocs(schema, tables, keys);
      KeptStaysUnique(schema, Docs(), DocKeyNotIn(schema, keys));
      tables := Deleted(schema, tables, keys);
    }
  }

  lemma {:induction false} InsertManyFails(schema: Schema, docs: seq<Doc>, records: seq<Doc>, n: nat)
    requires n < |records| && SpecInsertMany(schema, docs, records[..n]).Ok?
    requires SpecInsert(schema, SpecInsertMany(schema, docs, records[..n]).value, records[n]).Err?
    ensures SpecInsertMany(schema, docs, records)
            == SpecInsert(schema, SpecInsertMany(schema, docs, records[..n]).value, records[n])
    decreases |records|
  {
    var init := records[..|records| - 1];
    if n < |init| {
      assert init[..n] == records[..n];
      InsertManyFails(schema, docs, init, n);
    }
  }
}
