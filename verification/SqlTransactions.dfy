/** What the transactions of the store do: reading a record back, writing many, keeping keys unique. */
module SqlTransactions {
  import opened Wrappers
  import opened Sequences
  import opened Values
  import opened Dialect
  import opened Sql
  import opened SqlTranslate
  import opened SqlOrdering
  import opened ListTables
  import opened Updates
  import opened Upserts
  import opened QueryMeaning
  import opened DocumentSpec
  import opened SqlTables
  import opened SqlReads
  import opened SqlWrites

  // ---- what the schema's types say of an update ----

  ghost predicate TypedUpdate(schema: Schema, u: Update) {
    forall c :: c in u ==>
      && (c.op == SetTo && schema.IsList(c.field) && c.written.ToList? ==> Typed(schema, c.field, c.written.es))
      && (c.op == AddElement ==> c.written != ToValue(Null))
  }

  lemma {:induction false} TypedUpdateChanges(schema: Schema, u: Update)
    requires TypedUpdate(schema, u) && ChangesOf(schema, u).Ok?
    ensures TypedChanges(schema, ChangesOf(schema, u).value)
  {
    if u != [] {
      assert u[|u| - 1] in u;
      TypedUpdateChanges(schema, u[..|u| - 1]);
    }
  }

  lemma RecordIsTyped(schema: Schema, values: map<string, Written>, newId: Value)
    requires RecordOf(schema, values, newId).Ok?
    ensures TypedDoc(schema, RecordOf(schema, values, newId).value)
  {
    var all := if "id" in schema.fields && "id" !in values then values["id" := ToValue(newId)] else values;
    var doc := RecordOf(schema, values, newId).value;
    forall f | f in doc.lists ensures Typed(schema, f, doc.lists[f]) {
      assert f in all ==> FitsField(schema, f, all[f]);
    }
  }

  // ---- uniqueness over runs ----

  lemma ClashIsMutual(schema: Schema, a: map<string, Value>, b: map<string, Value>)
    ensures Clash(schema, a, b) <==> Clash(schema, b, a)
  {
    forall group | group in schema.unique ensures ShareGroup(schema, group, a, b) <==> ShareGroup(schema, group, b, a) {
      if ShareGroup(schema, group, a, b) { GroupIsMutual(schema, group, a, b); }
      if ShareGroup(schema, group, b, a) { GroupIsMutual(schema, group, b, a); }
    }
  }

  lemma GroupIsMutual(schema: Schema, group: seq<string>, a: map<string, Value>, b: map<string, Value>)
    requires ShareGroup(schema, group, a, b)
    ensures ShareGroup(schema, group, b, a)
  {
    forall f | f in group ensures b[f] != Null {
      FoldTwice(a[f], |group| == 1 && f in schema.ignoresCase);
      FoldTwice(b[f], |group| == 1 && f in schema.ignoresCase);
    }
  }

  lemma InsertKeepsUnique(schema: Schema, docs: seq<Doc>, doc: Doc)
    requires NoClash(schema, docs) && SpecInsert(schema, docs, doc).Ok?
    ensures NoClash(schema, SpecInsert(schema, docs, doc).value)
  {
    var after := docs + [doc];
    forall i | 0 <= i < |docs| ensures !Clash(schema, docs[i].cells, doc.cells) && !Clash(schema, doc.cells, docs[i].cells) {
      assert docs[i] in docs;
      ClashIsMutual(schema, docs[i].cells, doc.cells);
    }
  }

  lemma UpdateKeepsUnique(schema: Schema, docs: seq<Doc>, i: nat, ch: Changes)
    requires NoClash(schema, docs) && i < |docs| && SpecUpdateAt(schema, docs, i, ch).Ok?
    ensures NoClash(schema, SpecUpdateAt(schema, docs, i, ch).value)
  {
    var updated := ApplyChanges(docs[i], ch);
    forall j | 0 <= j < |docs| && j != i
      ensures !Clash(schema, docs[j].cells, updated.cells) && !Clash(schema, updated.cells, docs[j].cells)
    {
      ClashIsMutual(schema, docs[j].cells, updated.cells);
    }
  }

  lemma {:induction false} KeptStaysUnique(schema: Schema, docs: seq<Doc>, keep: Doc -> bool)
    requires NoClash(schema, docs)
    ensures NoClash(schema, Kept(docs, keep))
  {
    if docs != [] {
      KeptStaysUnique(schema, docs[1..], keep);
      var rest := Kept(docs[1..], keep);
      forall j | 0 <= j < |rest|
        ensures !Clash(schema, docs[0].cells, rest[j].cells) && !Clash(schema, rest[j].cells, docs[0].cells)
      {
        assert rest[j] in rest;
        var k :| 1 <= k < |docs| && docs[k] == rest[j];
      }
    }
  }

  // ---- one record by its key ----

  lemma {:induction false} KeptOne(docs: seq<Doc>, keep: Doc -> bool, i: nat)
    requires i < |docs| && forall j :: 0 <= j < |docs| && j != i ==> !keep(docs[j])
    ensures Kept(docs, keep) == if keep(docs[i]) then [docs[i]] else []
  {
    assert docs == docs[..i] + [docs[i]] + docs[i + 1..];
    KeptAppend(docs[..i] + [docs[i]], docs[i + 1..], keep);
    KeptAppend(docs[..i], [docs[i]], keep);
    KeptNone(docs[..i], keep);
    KeptNone(docs[i + 1..], keep);
  }

  lemma FindByKey(schema: Schema, t: Tables, i: nat, now: Value)
    requires schema.Valid() && ValidTables(schema, t) && i < |t.rows| && now != Null
    ensures var docs, key := DocsOf(schema, t), t.rows[i].Cell(schema.key);
      FindOutcome(schema, docs, KeyFilter(schema, key), [], 0, None, now)
      == Ok(if Unexpired(schema, docs[i], now) then [docs[i]] else [])
  {
    var docs, key := DocsOf(schema, t), t.rows[i].Cell(schema.key);
    var f := KeyFilter(schema, key);
    KeyFilterAskable(schema, key, now);
    forall j | 0 <= j < |docs|
      ensures Hits(schema, f, now)(docs[j]) <==> j == i && Unexpired(schema, docs[i], now)
    {
      KeyFilterMatches(schema, key, docs[j]);
      assert docs[j].Cell(schema.key) == t.rows[j].Cell(schema.key);
    }
    KeptOne(docs, Hits(schema, f, now), i);
    UnsortedIsInOrder(Kept(docs, Hits(schema, f, now)));
  }

  method GetRecord(schema: Schema, t: Tables, key: Value, now: Value, ghost i: nat) returns (r: Result<Doc>)
    requires schema.Valid() && ValidTables(schema, t) && now != Null
    requires i < |t.rows| && t.rows[i].Cell(schema.key) == key
    ensures r == if Unexpired(schema, DocsOf(schema, t)[i], now) then Ok(DocsOf(schema, t)[i]) else Err(RecordLost)
  {
    KeyFilterAskable(schema, key, now);
    FindByKey(schema, t, i, now);
    var records := FindRecords(schema, t, KeyFilter(schema, key), [], 0, None, now);
    return if records.value == [] then Err(RecordLost) else Ok(records.value[0]);
  }

  // ---- update_many ----

  ghost function SpecUpdateMany(schema: Schema, docs: seq<Doc>, f: Filter, ch: Changes, now: Value)
    : (r: (seq<Doc>, Result<nat>))
  {
    var hits := HitIndices(schema, docs, f, now);
    var after := SpecUpdateEach(schema, docs, hits, ch);
    if after.Err? then (docs, Err(after.error))
    else (after.value, Ok(CountChanged(docs, after.value, hits)))
  }

  function KeysFilter(schema: Schema, keys: seq<Value>): Filter {
    Filter([OnField(schema.key, Simple(Operators([OpArg(In, Many(keys))])))])
  }

  lemma KeysFilterAskable(schema: Schema, keys: seq<Value>, now: Value)
    requires schema.Valid() && now != Null
    ensures Askable(schema, KeysFilter(schema, keys), now) && Where(schema, KeysFilter(schema, keys), now).Ok?
  {
    NoDot(schema.key);
    var entries := KeysFilter(schema, keys).entries;
    var ops: OpMap := [OpArg(In, Many(keys))];
    assert ops[..0] == [] && ops[1..] == [];
    assert CheckEntries(schema, entries[1..]).None?;
    assert Resolve(schema, schema.key) == Declared(Column);
    assert Lookup(ops, Regex) == None && Lookup(ops, Options) == None;
    assert CheckCondition(Operators(ops)).None?;
    assert CheckEntry(schema, entries[0]) == None;
    assert CheckEntries(schema, entries) == CheckEntries(schema, entries[1..]);
    assert OpClauses(Cell(schema.key), false, ops) == Ok([] + OpClause(Cell(schema.key), false, ops[0]).value);
    assert entries[..0] == [];
    assert EntryClause(schema, entries[0]).Ok?;
    assert EntryClauses(schema, entries) == Ok([] + [EntryClause(schema, entries[0]).value]);
  }

  lemma KeysFilterMatches(schema: Schema, keys: seq<Value>, doc: Doc)
    requires schema.Valid()
    ensures Matches(schema, KeysFilter(schema, keys), doc) <==> doc.Cell(schema.key) in keys
  {
    var entry := KeysFilter(schema, keys).entries[0];
    var ops: OpMap := [OpArg(In, Many(keys))];
    assert ops[0] == OpArg(In, Many(keys));
    assert ConditionHolds(doc.Cell(schema.key), false, Operators(ops))
           <==> OpHolds(doc.Cell(schema.key), false, ops[0]);
    assert EntryMatches(schema, entry, doc) <==> doc.Cell(schema.key) in keys;
  }

  lemma FoundAreOfKeys(schema: Schema, t: Tables, keys: seq<Value>, now: Value, found: seq<Doc>)
    requires schema.Valid() && ValidTables(schema, t)
    requires found == Kept(DocsOf(schema, t), Hits(schema, KeysFilter(schema, keys), now))
    ensures forall doc :: doc in found <==>
      doc in DocsOf(schema, t) && Unexpired(schema, doc, now) && doc.Cell(schema.key) in keys
    ensures forall a, b :: a in DocsOf(schema, t) && b in DocsOf(schema, t) && a.Cell(schema.key) == b.Cell(schema.key) ==> a == b
  {
    var docs := DocsOf(schema, t);
    forall doc ensures Hits(schema, KeysFilter(schema, keys), now)(doc) <==>
        Unexpired(schema, doc, now) && doc.Cell(schema.key) in keys
    {
      KeysFilterMatches(schema, keys, doc);
    }
    forall a, b | a in docs && b in docs && a.Cell(schema.key) == b.Cell(schema.key) ensures a == b {
      var i :| 0 <= i < |docs| && docs[i] == a;
      var j :| 0 <= j < |docs| && docs[j] == b;
      assert t.rows[i].Cell(schema.key) == t.rows[j].Cell(schema.key);
    }
  }

  /** The records, each under its key. */
  method ByKey(schema: Schema, records: seq<Doc>) returns (byKey: map<Value, Doc>)
    requires forall a, b :: a in records && b in records && a.Cell(schema.key) == b.Cell(schema.key) ==> a == b
    ensures forall doc :: doc in records ==> doc.Cell(schema.key) in byKey && byKey[doc.Cell(schema.key)] == doc
    ensures forall key :: key in byKey ==> byKey[key] in records && byKey[key].Cell(schema.key) == key
  {
    byKey := map[];
    for n := 0 to |records|
      invariant forall i :: 0 <= i < n ==>
        records[i].Cell(schema.key) in byKey && byKey[records[i].Cell(schema.key)] == records[i]
      invariant forall key :: key in byKey ==> byKey[key] in records && byKey[key].Cell(schema.key) == key
    {
      byKey := byKey[records[n].Cell(schema.key) := records[n]];
    }
  }

  /** How many of the records read before differ from those of their keys read after. */
  method CountDifferent(schema: Schema, before: seq<Doc>, afterByKey: map<Value, Doc>,
                        ghost docs: seq<Doc>, ghost after: seq<Doc>, ghost hits: seq<nat>) returns (n: nat)
    requires |docs| == |after| && Within(hits, |docs|) && before == DocsAt(docs, hits)
    requires forall k :: 0 <= k < |hits| ==>
      ((before[k].Cell(schema.key) in afterByKey && afterByKey[before[k].Cell(schema.key)] == before[k])
       <==> after[hits[k]] == docs[hits[k]])
    ensures n == CountChanged(docs, after, hits)
  {
    n := 0;
    for k := 0 to |before|
      invariant n == CountChanged(docs, after, hits[..k])
    {
      assert hits[..k + 1][..k] == hits[..k];
      var key := before[k].Cell(schema.key);
      if !(key in afterByKey && afterByKey[key] == before[k]) {
        n := n + 1;
      }
    }
    assert hits[..|before|] == hits;
  }

  lemma {:induction false} EachKeepsKeys(schema: Schema, docs: seq<Doc>, indices: seq<nat>, ch: Changes)
    requires schema.Valid() && Within(indices, |docs|) && SpecUpdateEach(schema, docs, indices, ch).Ok?
    ensures var after := SpecUpdateEach(schema, docs, indices, ch).value;
      forall j :: 0 <= j < |docs| ==> after[j].Cell(schema.key) == docs[j].Cell(schema.key)
    ensures var after := SpecUpdateEach(schema, docs, indices, ch).value;
      forall j :: 0 <= j < |docs| && j !in indices ==> after[j] == docs[j]
  {
    if indices != [] {
      EachKeepsKeys(schema, docs, indices[..|indices| - 1], ch);
    }
  }

  /** One failed write fails the transaction. */
  lemma {:induction false} EachFails(schema: Schema, docs: seq<Doc>, indices: seq<nat>, ch: Changes, n: nat)
    requires Within(indices, |docs|) && n < |indices|
    requires SpecUpdateEach(schema, docs, indices[..n + 1], ch).Err?
    ensures SpecUpdateEach(schema, docs, indices, ch) == SpecUpdateEach(schema, docs, indices[..n + 1], ch)
    decreases |indices|
  {
    if n + 1 == |indices| {
      assert indices[..n + 1] == indices;
    } else {
      var init := indices[..|indices| - 1];
      assert init[..n + 1] == indices[..n + 1];
      EachFails(schema, docs, init, ch, n);
    }
  }

  lemma SpecUpdateEachStep(schema: Schema, docs: seq<Doc>, indices: seq<nat>, ch: Changes, n: nat)
    requires Within(indices, |docs|) && n < |indices| && SpecUpdateEach(schema, docs, indices[..n], ch).Ok?
    ensures SpecUpdateEach(schema, docs, indices[..n + 1], ch)
            == SpecUpdateAt(schema, SpecUpdateEach(schema, docs, indices[..n], ch).value, indices[n], ch)
  {
    assert indices[..n + 1][..n] == indices[..n];
  }

  /** Writes the changes to every record, one after another. */
  method WriteEach(schema: Schema, t: Tables, before: seq<Doc>, ch: Changes, ghost hits: seq<nat>) returns (r: Result<Tables>)
    requires schema.Valid() && ValidTables(schema, t) && TypedChanges(schema, ch) && NoClash(schema, DocsOf(schema, t))
    requires Within(hits, |t.rows|) && before == DocsAt(DocsOf(schema, t), hits)
    ensures Refines(schema, r, SpecUpdateEach(schema, DocsOf(schema, t), hits, ch))
    ensures r.Ok? ==> NoClash(schema, DocsOf(schema, r.value))
  {
    ghost var docs := DocsOf(schema, t);
    var written := t;
    for n := 0 to |before|
      invariant ValidTables(schema, written) && NoClash(schema, DocsOf(schema, written))
      invariant SpecUpdateEach(schema, docs, hits[..n], ch) == Ok(DocsOf(schema, written))
    {
      SpecUpdateEachStep(schema, docs, hits, ch, n);
      EachKeepsKeys(schema, docs, hits[..n], ch);
      assert DocsOf(schema, written)[hits[n]].Cell(schema.key) == before[n].Cell(schema.key);
      var next := WriteChanges(schema, written, before[n].Cell(schema.key), ch, hits[n]);
      if next.Err? {
        EachFails(schema, docs, hits, ch, n);
        return next;
      }
      UpdateKeepsUnique(schema, DocsOf(schema, written), hits[n], ch);
      written := next.value;
    }
    assert hits[..|before|] == hits;
    return Ok(written);
  }
}
