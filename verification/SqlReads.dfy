/** Reading records: the selected rows, and the elements of their lists from the child tables. */
module SqlReads {
  import opened Wrappers
  import opened Sequences
  import opened Values
  import opened Dialect
  import opened Sql
  import opened SqlTranslate
  import opened SqlCompiler
  import opened QueryMeaning
  import opened SqlOrdering
  import opened ListTables
  import opened DocumentSpec
  import opened SqlTables

  /** The filters and times a store is called with: checked against the schema. */
  ghost predicate Askable(schema: Schema, f: Filter, now: Value) {
    CheckFilter(schema, f).None? && now != Null
  }

  function Selected(t: Tables, where: Clause): Row -> bool { (row: Row) => Selects(where, t, row) }

  lemma SelectedAreHits(schema: Schema, t: Tables, f: Filter, now: Value)
    requires ValidTables(schema, t) && Askable(schema, f, now) && Where(schema, f, now).Ok?
    ensures forall row :: row in t.rows ==>
      (Selected(t, Where(schema, f, now).value)(row) <==> Hits(schema, f, now)(DocOf(schema, t, row)))
    ensures Kept(DocsOf(schema, t), Hits(schema, f, now))
            == Map(Kept(t.rows, Selected(t, Where(schema, f, now).value)), Reader(schema, t))
  {
    forall row | row in t.rows
      ensures Selected(t, Where(schema, f, now).value)(row) <==> Hits(schema, f, now)(DocOf(schema, t, row))
    {
      ValidRepresents(schema, t, row);
      WhereIsExact(schema, f, now, t, row, DocOf(schema, t, row));
    }
    KeptMap(t.rows, Reader(schema, t), Hits(schema, f, now), Selected(t, Where(schema, f, now).value));
  }

  lemma PageMap<T(!new), U(!new)>(xs: seq<T>, f: T -> U, skip: nat, limit: Option<nat>)
    ensures Map(Page(xs, skip, limit), f) == Page(Map(xs, f), skip, limit)
  {
  }

  // ---- lists, by record ----

  function ListOf(lists: map<Value, seq<Element>>, key: Value): seq<Element> {
    if key in lists then lists[key] else []
  }

  function ParentIn(keys: set<Value>): ChildRow -> bool { (r: ChildRow) => r.parent in keys }

  lemma ReadListAmong(table: seq<ChildRow>, keys: set<Value>, key: Value)
    requires key in keys
    ensures Map(RowsOf(Sort(Kept(table, ParentIn(keys)), ByPosition()), key), ElementOf()) == ReadList(table, key)
  {
    SortKept(Kept(table, ParentIn(keys)), ByPosition(), OfRecord(key));
    KeptKept(table, ParentIn(keys), OfRecord(key), OfRecord(key));
  }

  /** The lists grouped so far, with the element of one more row. */
  lemma GroupedOneMore(rows: seq<ChildRow>, row: ChildRow, key: Value, list: seq<Element>)
    requires list == Map(RowsOf(rows, key), ElementOf())
    ensures Map(RowsOf(rows + [row], key), ElementOf()) == if row.parent == key then list + [row.element] else list
  {
    KeptAppend(rows, [row], OfRecord(key));
    assert Kept([row], OfRecord(key)) == if row.parent == key then [row] else [];
    MapAppend(RowsOf(rows, key), Kept([row], OfRecord(key)), ElementOf());
    assert Map([row], ElementOf()) == [row.element];
  }

  lemma GroupedNext(rows: seq<ChildRow>, i: nat, before: map<Value, seq<Element>>, key: Value)
    requires i < |rows| && ListOf(before, key) == Map(RowsOf(rows[..i], key), ElementOf())
    ensures ListOf(before[rows[i].parent := ListOf(before, rows[i].parent) + [rows[i].element]], key)
            == Map(RowsOf(rows[..i + 1], key), ElementOf())
  {
    assert rows[..i + 1] == rows[..i] + [rows[i]];
    GroupedOneMore(rows[..i], rows[i], key, ListOf(before, key));
  }

  /** The elements of the records' lists, each list in the order of its positions. */
  method ReadElements(table: seq<ChildRow>, keys: set<Value>) returns (elementsByKey: map<Value, seq<Element>>)
    ensures forall key :: key in keys ==> ListOf(elementsByKey, key) == ReadList(table, key)
  {
    elementsByKey := map[];
    var rows := Sort(Kept(table, ParentIn(keys)), ByPosition());
    for i := 0 to |rows|
      invariant forall key :: ListOf(elementsByKey, key) == Map(RowsOf(rows[..i], key), ElementOf())
    {
      var row := rows[i];
      var grouped := elementsByKey[row.parent := ListOf(elementsByKey, row.parent) + [row.element]];
      forall key ensures ListOf(grouped, key) == Map(RowsOf(rows[..i + 1], key), ElementOf()) {
        GroupedNext(rows, i, elementsByKey, key);
      }
      elementsByKey := grouped;
    }
    assert rows[..|rows|] == rows;
    forall key | key in keys ensures ListOf(elementsByKey, key) == ReadList(table, key) {
      ReadListAmong(table, keys, key);
    }
  }

  /** A row with the lists of the given fields. */
  function PartOf(schema: Schema, t: Tables, row: Row, fields: set<string>): Doc {
    Doc(row.cells, map f | f in fields :: ReadList(t.Children(f), row.Cell(schema.key)))
  }

  lemma OneMoreField(schema: Schema, t: Tables, row: Row, fields: set<string>, field: string)
    ensures WithList(PartOf(schema, t, row, fields), field, ReadList(t.Children(field), row.Cell(schema.key)))
            == PartOf(schema, t, row, fields + {field})
  {
    var left := WithList(PartOf(schema, t, row, fields), field, ReadList(t.Children(field), row.Cell(schema.key)));
    var right := PartOf(schema, t, row, fields + {field});
    assert left.lists.Keys == right.lists.Keys;
    assert left.lists == right.lists;
  }

  function WithList(record: Doc, field: string, list: seq<Element>): Doc {
    record.(lists := record.lists[field := list])
  }

  /** The records of the rows: each row, with the list of every list field. */
  method ReadRecords(schema: Schema, t: Tables, rows: seq<Row>) returns (records: seq<Doc>)
    ensures records == Map(rows, Reader(schema, t))
  {
    var keys := set row | row in rows :: row.Cell(schema.key);
    records := Map(rows, (row: Row) => Doc(row.cells, map[]));
    ghost var done: set<string> := {};
    var pending := ListFields(schema);
    while pending != {}
      invariant done + pending == ListFields(schema) && |records| == |rows|
      invariant forall i :: 0 <= i < |rows| ==> records[i] == PartOf(schema, t, rows[i], done)
      decreases pending
    {
      var field :| field in pending;
      var elementsByKey := ReadElements(t.Children(field), keys);
      var read := records;
      records := seq(|read|, i requires 0 <= i < |read| && |read| == |rows| =>
        WithList(read[i], field, ListOf(elementsByKey, rows[i].Cell(schema.key))));
      forall i | 0 <= i < |rows| ensures records[i] == PartOf(schema, t, rows[i], done + {field}) {
        assert rows[i] in rows && rows[i].Cell(schema.key) in keys;
        OneMoreField(schema, t, rows[i], done, field);
      }
      done, pending := done + {field}, pending - {field};
    }
    assert done == ListFields(schema);
  }

  // ---- finding ----

  ghost function FindOutcome(schema: Schema, docs: seq<Doc>, f: Filter, sort: seq<string>,
                             skip: nat, limit: Option<nat>, now: Value): Result<seq<Doc>> {
    if Where(schema, f, now).Err? then Err(Where(schema, f, now).error)
    else if OrderTerms(schema, sort).Err? then Err(OrderTerms(schema, sort).error)
    else Ok(SpecFind(schema, docs, f, ParseSort(sort), skip, limit, now))
  }

  method FindRecords(schema: Schema, t: Tables, f: Filter, sort: seq<string>, skip: nat, limit: Option<nat>, now: Value)
    returns (r: Result<seq<Doc>>)
    requires ValidTables(schema, t) && Askable(schema, f, now)
    ensures r == FindOutcome(schema, DocsOf(schema, t), f, sort, skip, limit, now)
  {
    var where := TranslateFilter(schema, f, now);
    if where.Err? {
      return Err(where.error);
    }
    var order := TranslateSort(schema, sort);
    if order.Err? {
      return Err(order.error);
    }
    var selected := Kept(t.rows, Selected(t, where.value));
    var rows := Page(Sort(selected, OrderBy(order.value)), skip, limit);
    var records := ReadRecords(schema, t, rows);

    SelectedAreHits(schema, t, f, now);
    KeptRowsOrdered(schema, t.rows, Selected(t, where.value));
    PageMap(Sort(selected, OrderBy(order.value)), Reader(schema, t), skip, limit);
    SortIsStable(schema, t, ParseSort(sort), selected);
    return Ok(records);
  }

  lemma SortIsStable(schema: Schema, t: Tables, keys: seq<SortKey>, rows: seq<Row>)
    requires InRowOrder(rows)
    ensures Map(Sort(rows, OrderBy(TermsOf(keys))), Reader(schema, t))
            == Sort(Map(rows, Reader(schema, t)), DocOrder(keys))
  {
    OrderByIsTotal(keys);
    SortOrdered(rows, OrderBy(TermsOf(keys)));
    OrderByIsStableSort(keys, rows, Sort(rows, OrderBy(TermsOf(keys))), Reader(schema, t));
  }

  /** Without a sort, records come in insertion order. */
  lemma {:induction false} UnsortedIsInOrder(docs: seq<Doc>)
    ensures Sort(docs, DocOrder(ParseSort([]))) == docs
  {
    SortIdentity(docs, DocOrder(ParseSort([])));
  }

  /** The key of the first record found, which the transaction then holds. */
  method FindFirstKey(schema: Schema, t: Tables, f: Filter, now: Value) returns (r: Result<Option<Value>>)
    requires ValidTables(schema, t) && Askable(schema, f, now)
    ensures Where(schema, f, now).Err? ==> r == Err(Where(schema, f, now).error)
    ensures Where(schema, f, now).Ok? ==>
      var docs := DocsOf(schema, t);
      var hits := HitIndices(schema, docs, f, now);
      r == Ok(if hits == [] then None else Some(docs[hits[0]].Cell(schema.key)))
  {
    var where := TranslateFilter(schema, f, now);
    if where.Err? {
      return Err(where.error);
    }
    var rows := Kept(t.rows, Selected(t, where.value));
    SelectedAreHits(schema, t, f, now);
    HitIndicesMatchHits(schema, DocsOf(schema, t), f, now);
    return Ok(if rows == [] then None else Some(rows[0].Cell(schema.key)));
  }

  // ---- reading one record by its key ----

  lemma KeyFilterAskable(schema: Schema, key: Value, now: Value)
    requires schema.Valid() && now != Null
    ensures Askable(schema, KeyFilter(schema, key), now) && Where(schema, KeyFilter(schema, key), now).Ok?
  {
    NoDot(schema.key);
    var entries := KeyFilter(schema, key).entries;
    var ops := OpsOf(Equals(One(key)));
    assert CheckEntries(schema, entries[1..]).None?;
    assert Resolve(schema, schema.key) == Declared(Column);
    assert CheckEntry(schema, entries[0]) == CheckCondition(Equals(One(key))) == None;
    assert CheckEntries(schema, entries) == CheckEntries(schema, entries[1..]);
    assert ops == [OpArg(Eq, One(key))] && ops[..0] == [];
    assert OpClauses(Cell(schema.key), false, ops) == Ok([] + OpClause(Cell(schema.key), false, ops[0]).value);
    assert entries[..0] == [];
    assert EntryClause(schema, entries[0]).Ok?;
    assert EntryClauses(schema, entries) == Ok([] + [EntryClause(schema, entries[0]).value]);
  }

  lemma {:induction false} NoDot(path: string)
    requires '.' !in path
    ensures SplitAtDot(path) == None
  {
    if path != [] {
      assert path[0] in path;
      NoDot(path[1..]);
    }
  }

  lemma KeyFilterMatches(schema: Schema, key: Value, doc: Doc)
    requires schema.Valid()
    ensures Matches(schema, KeyFilter(schema, key), doc) <==> doc.Cell(schema.key) == key
  {
    var entry := KeyFilter(schema, key).entries[0];
    var ops := OpsOf(Equals(One(key)));
    assert ops == [OpArg(Eq, One(key))] && ops[0] == OpArg(Eq, One(key));
    assert ConditionHolds(doc.Cell(schema.key), false, Equals(One(key)))
           <==> OpHolds(doc.Cell(schema.key), false, ops[0]);
    assert EntryMatches(schema, entry, doc) <==> doc.Cell(schema.key) == key;
  }
}
