/** Tables as documents: what a valid state of a schema's tables is, what documents it holds,
    and what each write to it does to them. */
module SqlTables {
  import opened Wrappers
  import opened Sequences
  import opened Values
  import opened Dialect
  import opened Sql
  import opened SqlOrdering
  import opened ListTables
  import opened Updates
  import opened QueryMeaning
  import opened DocumentSpec

  // ---- the documents a state holds ----

  function ListFields(schema: Schema): set<string> { set f | f in schema.fields && schema.IsList(f) }

  function DocOf(schema: Schema, t: Tables, row: Row): Doc {
    Doc(row.cells, map f | f in ListFields(schema) :: ReadList(t.Children(f), row.Cell(schema.key)))
  }

  function Reader(schema: Schema, t: Tables): Row -> Doc { (row: Row) => DocOf(schema, t, row) }

  function DocsOf(schema: Schema, t: Tables): (r: seq<Doc>)
    ensures |r| == |t.rows|
    ensures forall i :: 0 <= i < |r| ==> r[i] == DocOf(schema, t, t.rows[i])
  {
    Map(t.rows, Reader(schema, t))
  }

  // ---- the invariant ----

  predicate KeysDiffer(schema: Schema, rows: seq<Row>) {
    forall i, j :: 0 <= i < j < |rows| ==> rows[i].Cell(schema.key) != rows[j].Cell(schema.key)
  }

  ghost predicate IsParent(schema: Schema, rows: seq<Row>, key: Value) {
    exists row :: row in rows && row.Cell(schema.key) == key
  }

  /** No child row is an orphan. */
  ghost predicate NoOrphans(schema: Schema, t: Tables) {
    forall f, r :: f in ListFields(schema) && r in t.Children(f) ==> IsParent(schema, t.rows, r.parent)
  }

  ghost predicate ValidRow(schema: Schema, row: Row) {
    && row.Cell(schema.key) != Null
    && (forall f :: f in row.cells <==> schema.IsColumn(f))
  }

  ghost predicate ValidTables(schema: Schema, t: Tables) {
    && InRowOrder(t.rows)
    && KeysDiffer(schema, t.rows)
    && (forall row :: row in t.rows ==> row.id < t.nextId && ValidRow(schema, row))
    && t.children.Keys == ListFields(schema)
    && (forall f :: f in ListFields(schema) ==> ValidTable(schema.fields[f], t.children[f]))
    && NoOrphans(schema, t)
  }

  lemma ValidRepresents(schema: Schema, t: Tables, row: Row)
    requires ValidTables(schema, t) && row in t.rows
    ensures Represents(schema, t, row, DocOf(schema, t, row))
  {
    forall f, e | schema.IsList(f) ensures e in DocOf(schema, t, row).List(f) <==> IsElement(schema, t, row, f, e) {
      ReadElement(schema, t, row, f, e);
    }
    forall f, r | schema.IsList(f) && r in t.Children(f)
      ensures r.element.Scalar? == schema.fields[f].ScalarList? && r.element != Scalar(Null)
    {
      StoredElement(schema, t, f, r);
    }
  }

  lemma ReadElement(schema: Schema, t: Tables, row: Row, f: string, e: Element)
    requires ValidTables(schema, t) && row in t.rows && schema.IsList(f)
    ensures e in DocOf(schema, t, row).List(f) <==> IsElement(schema, t, row, f, e)
  {
    assert f in ListFields(schema);
    ReadListMembers(t.Children(f), row.Cell(schema.key), e);
  }

  lemma StoredElement(schema: Schema, t: Tables, f: string, r: ChildRow)
    requires ValidTables(schema, t) && schema.IsList(f) && r in t.Children(f)
    ensures r.element.Scalar? == schema.fields[f].ScalarList? && r.element != Scalar(Null)
  {
    assert f in ListFields(schema);
    assert FitsKind(schema.fields[f], r.element);
  }

  /** A row's document depends on the tables only through its own child rows. */
  lemma SameLists(schema: Schema, t: Tables, u: Tables, row: Row)
    requires forall f :: f in ListFields(schema) ==>
      ReadList(t.Children(f), row.Cell(schema.key)) == ReadList(u.Children(f), row.Cell(schema.key))
    ensures DocOf(schema, t, row) == DocOf(schema, u, row)
  {
  }

  // ---- inserting ----

  function Inserted(schema: Schema, t: Tables, doc: Doc): Tables {
    Tables(t.rows + [Row(t.nextId, doc.cells)],
           map f | f in ListFields(schema) :: t.Children(f) + ChildRows(doc.Cell(schema.key), doc.List(f)),
           t.nextId + 1)
  }

  ghost predicate CanInsert(schema: Schema, t: Tables, doc: Doc) {
    && TypedDoc(schema, doc)
    && doc.Cell(schema.key) != Null
    && !IsParent(schema, t.rows, doc.Cell(schema.key))
    && !HoldsDuplicates(schema, doc.lists)
  }

  lemma InsertedList(schema: Schema, t: Tables, doc: Doc, f: string)
    requires ValidTables(schema, t) && CanInsert(schema, t, doc) && f in ListFields(schema)
    ensures var key := doc.Cell(schema.key);
      && ValidTable(schema.fields[f], t.Children(f) + ChildRows(key, doc.List(f)))
      && ReadList(t.Children(f) + ChildRows(key, doc.List(f)), key) == doc.List(f)
      && forall other :: other != key ==>
           ReadList(t.Children(f) + ChildRows(key, doc.List(f)), other) == ReadList(t.Children(f), other)
  {
    var key, table := doc.Cell(schema.key), t.children[f];
    assert Typed(schema, f, doc.lists[f]);
    forall r | r in table ensures OfOthers(key)(r) {
      assert IsParent(schema, t.rows, r.parent);
    }
    KeptAll(table, OfOthers(key));
    assert schema.fields[f].ScalarList? ==> IsScalarList(schema, f);
    ReplaceIsSet(schema.fields[f], table, key, doc.List(f));
  }

  lemma InsertedRows(schema: Schema, t: Tables, doc: Doc)
    requires ValidTables(schema, t) && CanInsert(schema, t, doc)
    ensures var u := Inserted(schema, t, doc);
      InRowOrder(u.rows) && KeysDiffer(schema, u.rows)
      && forall row :: row in u.rows ==> row.id < u.nextId && ValidRow(schema, row)
  {
    var key := doc.Cell(schema.key);
    forall i | 0 <= i < |t.rows| ensures t.rows[i].Cell(schema.key) != key && t.rows[i].id < t.nextId {
      assert t.rows[i] in t.rows;
    }
    assert Row(t.nextId, doc.cells).Cell(schema.key) == key;
  }

  lemma InsertedParents(schema: Schema, t: Tables, doc: Doc)
    requires ValidTables(schema, t) && CanInsert(schema, t, doc)
    ensures NoOrphans(schema, Inserted(schema, t, doc))
  {
    var u, last := Inserted(schema, t, doc), Row(t.nextId, doc.cells);
    assert u.rows[|t.rows|] == last;
    forall f, r | f in ListFields(schema) && r in u.Children(f) ensures IsParent(schema, u.rows, r.parent) {
      if r in t.Children(f) {
        var row :| row in t.rows && row.Cell(schema.key) == r.parent;
        assert row in u.rows;
      } else {
        assert last in u.rows && last.Cell(schema.key) == r.parent;
      }
    }
  }

  lemma InsertedIsValid(schema: Schema, t: Tables, doc: Doc)
    requires ValidTables(schema, t) && CanInsert(schema, t, doc)
    ensures ValidTables(schema, Inserted(schema, t, doc))
  {
    InsertedRows(schema, t, doc);
    InsertedParents(schema, t, doc);
    forall f | f in ListFields(schema)
      ensures ValidTable(schema.fields[f], Inserted(schema, t, doc).children[f])
    {
      InsertedList(schema, t, doc, f);
    }
  }

  /** Inserting a record's row and child rows appends its document. */
  lemma InsertedDocs(schema: Schema, t: Tables, doc: Doc)
    requires ValidTables(schema, t) && CanInsert(schema, t, doc)
    ensures DocsOf(schema, Inserted(schema, t, doc)) == DocsOf(schema, t) + [doc]
  {
    var u := Inserted(schema, t, doc);
    forall i | 0 <= i < |t.rows| ensures DocOf(schema, u, u.rows[i]) == DocOf(schema, t, t.rows[i]) {
      InsertedOthers(schema, t, doc, i);
    }
    InsertedLast(schema, t, doc);
    assert DocsOf(schema, u) == DocsOf(schema, t) + [doc];
  }

  lemma InsertedOthers(schema: Schema, t: Tables, doc: Doc, i: nat)
    requires ValidTables(schema, t) && CanInsert(schema, t, doc) && i < |t.rows|
    ensures var u := Inserted(schema, t, doc);
      u.rows[i] == t.rows[i] && DocOf(schema, u, t.rows[i]) == DocOf(schema, t, t.rows[i])
  {
    var u := Inserted(schema, t, doc);
    assert t.rows[i] in t.rows && t.rows[i].Cell(schema.key) != doc.Cell(schema.key);
    forall f | f in ListFields(schema)
      ensures ReadList(u.Children(f), t.rows[i].Cell(schema.key)) == ReadList(t.Children(f), t.rows[i].Cell(schema.key))
    {
      InsertedList(schema, t, doc, f);
    }
    SameLists(schema, u, t, t.rows[i]);
  }

  lemma InsertedLast(schema: Schema, t: Tables, doc: Doc)
    requires ValidTables(schema, t) && CanInsert(schema, t, doc)
    ensures var u := Inserted(schema, t, doc); DocOf(schema, u, u.rows[|t.rows|]) == doc
  {
    var u, key := Inserted(schema, t, doc), doc.Cell(schema.key);
    var last := u.rows[|t.rows|];
    assert last.Cell(schema.key) == key;
    forall f | f in ListFields(schema) ensures ReadList(u.Children(f), key) == doc.lists[f] {
      InsertedList(schema, t, doc, f);
    }
    assert DocOf(schema, u, last).lists == doc.lists;
  }

  // ---- updating ----

  function AddRows(additions: seq<(string, Value)>, f: string, key: Value, table: seq<ChildRow>): (r: seq<ChildRow>) {
    if additions == [] then table
    else
      var init := AddRows(additions[..|additions| - 1], f, key, table);
      var last := additions[|additions| - 1];
      if last.0 == f then Added(init, key, Scalar(last.1)) else init
  }

  function PullRows(removals: seq<(string, Value)>, f: string, key: Value, table: seq<ChildRow>): (r: seq<ChildRow>) {
    if removals == [] then table
    else
      var init := PullRows(removals[..|removals| - 1], f, key, table);
      var last := removals[|removals| - 1];
      if last.0 == f then Pulled(init, key, Scalar(last.1)) else init
  }

  function ReplaceRows(ch: Changes, f: string, key: Value, table: seq<ChildRow>): seq<ChildRow> {
    if f in ch.replacements then Replaced(table, key, ch.replacements[f]) else table
  }

  /** A child table after the changes to one record: replaced, then added to, then pulled from. */
  function NewRows(ch: Changes, f: string, key: Value, table: seq<ChildRow>): (r: seq<ChildRow>) {
    PullRows(ch.removals, f, key, AddRows(ch.additions, f, key, ReplaceRows(ch, f, key, table)))
  }

  function NewCells(ch: Changes, cells: map<string, Value>): map<string, Value> {
    map f | f in cells :: NewCell(ch, f, cells[f])
  }

  function Updated(schema: Schema, t: Tables, i: nat, ch: Changes): Tables
    requires i < |t.rows|
  {
    var row := t.rows[i];
    Tables(t.rows[i := row.(cells := NewCells(ch, row.cells))],
           map f | f in ListFields(schema) :: NewRows(ch, f, row.Cell(schema.key), t.Children(f)),
           t.nextId)
  }

  /** A table that differs from another in one record's list alone. */
  ghost predicate WritesOnly(kind: Kind, before: seq<ChildRow>, after: seq<ChildRow>, key: Value, list: seq<Element>) {
    && ValidTable(kind, after)
    && ReadList(after, key) == list
    && (forall other :: other != key ==> ReadList(after, other) == ReadList(before, other))
  }

  lemma {:induction false} AddRowsIsAddAll(kind: Kind, additions: seq<(string, Value)>, f: string, key: Value, table: seq<ChildRow>)
    requires ValidTable(kind, table)
    requires forall a :: a in additions && a.0 == f ==> FitsKind(kind, Scalar(a.1))
    ensures WritesOnly(kind, table, AddRows(additions, f, key, table), key, AddAll(additions, f, ReadList(table, key)))
  {
    if additions != [] {
      var last := additions[|additions| - 1];
      assert last in additions;
      AddRowsIsAddAll(kind, additions[..|additions| - 1], f, key, table);
      if last.0 == f {
        AddIsAddToSet(kind, AddRows(additions[..|additions| - 1], f, key, table), key, Scalar(last.1));
      }
    }
  }

  lemma {:induction false} PullRowsIsPullAll(kind: Kind, removals: seq<(string, Value)>, f: string, key: Value, table: seq<ChildRow>)
    requires ValidTable(kind, table)
    ensures WritesOnly(kind, table, PullRows(removals, f, key, table), key, PullAll(removals, f, ReadList(table, key)))
  {
    if removals != [] {
      PullRowsIsPullAll(kind, removals[..|removals| - 1], f, key, table);
      PullIsPull(kind, PullRows(removals[..|removals| - 1], f, key, table), key, Scalar(removals[|removals| - 1].1));
    }
  }

  ghost predicate CanUpdate(schema: Schema, t: Tables, i: nat, ch: Changes)
    requires i < |t.rows|
  {
    && TypedChanges(schema, ch)
    && !HoldsDuplicates(schema, ch.replacements)
    && !MovesKey(schema, DocOf(schema, t, t.rows[i]), ch)
  }

  lemma UpdatedList(schema: Schema, t: Tables, i: nat, ch: Changes, f: string)
    requires ValidTables(schema, t) && i < |t.rows| && CanUpdate(schema, t, i, ch) && f in ListFields(schema)
    ensures var key := t.rows[i].Cell(schema.key);
      WritesOnly(schema.fields[f], t.Children(f), NewRows(ch, f, key, t.Children(f)), key,
                 NewList(ch, f, ReadList(t.Children(f), key)))
  {
    var kind, key, table := schema.fields[f], t.rows[i].Cell(schema.key), t.children[f];
    if f in ch.replacements {
      assert Typed(schema, f, ch.replacements[f]);
      assert kind.ScalarList? ==> IsScalarList(schema, f);
      ReplaceIsSet(kind, table, key, ch.replacements[f]);
    }
    var replaced := ReplaceRows(ch, f, key, table);
    AddRowsIsAddAll(kind, ch.additions, f, key, replaced);
    PullRowsIsPullAll(kind, ch.removals, f, key, AddRows(ch.additions, f, key, replaced));
  }

  lemma {:induction false} NewRowsParents(ch: Changes, f: string, key: Value, table: seq<ChildRow>)
    ensures forall r :: r in NewRows(ch, f, key, table) ==> r in table || r.parent == key
  {
    AddRowsParents(ch.additions, f, key, ReplaceRows(ch, f, key, table));
    PullRowsParents(ch.removals, f, key, AddRows(ch.additions, f, key, ReplaceRows(ch, f, key, table)));
  }

  lemma {:induction false} AddRowsParents(additions: seq<(string, Value)>, f: string, key: Value, table: seq<ChildRow>)
    ensures forall r :: r in AddRows(additions, f, key, table) ==> r in table || r.parent == key
  {
    if additions != [] {
      AddRowsParents(additions[..|additions| - 1], f, key, table);
    }
  }

  lemma {:induction false} PullRowsParents(removals: seq<(string, Value)>, f: string, key: Value, table: seq<ChildRow>)
    ensures forall r :: r in PullRows(removals, f, key, table) ==> r in table
  {
    if removals != [] {
      PullRowsParents(removals[..|removals| - 1], f, key, table);
    }
  }

  lemma KeyKept(schema: Schema, t: Tables, i: nat, ch: Changes)
    requires ValidTables(schema, t) && i < |t.rows| && CanUpdate(schema, t, i, ch)
    ensures ValidRow(schema, Updated(schema, t, i, ch).rows[i])
    ensures Updated(schema, t, i, ch).rows[i].Cell(schema.key) == t.rows[i].Cell(schema.key)
  {
    assert t.rows[i] in t.rows;
  }

  lemma UpdatedRows(schema: Schema, t: Tables, i: nat, ch: Changes)
    requires ValidTables(schema, t) && i < |t.rows| && CanUpdate(schema, t, i, ch)
    ensures var u := Updated(schema, t, i, ch);
      InRowOrder(u.rows) && KeysDiffer(schema, u.rows)
      && (forall row :: row in u.rows ==> row.id < u.nextId && ValidRow(schema, row))
      && (forall j :: 0 <= j < |t.rows| ==> u.rows[j].Cell(schema.key) == t.rows[j].Cell(schema.key))
  {
    var u := Updated(schema, t, i, ch);
    KeyKept(schema, t, i, ch);
    forall row | row in u.rows ensures row.id < u.nextId && ValidRow(schema, row) {
      var j :| 0 <= j < |u.rows| && u.rows[j] == row;
      assert t.rows[j] in t.rows;
    }
  }

  lemma StillParent(schema: Schema, before: seq<Row>, after: seq<Row>, key: Value)
    requires IsParent(schema, before, key) && |before| == |after|
    requires forall j :: 0 <= j < |before| ==> after[j].Cell(schema.key) == before[j].Cell(schema.key)
    ensures IsParent(schema, after, key)
  {
    var row :| row in before && row.Cell(schema.key) == key;
    var j :| 0 <= j < |before| && before[j] == row;
    assert after[j] in after;
  }

  lemma UpdatedParents(schema: Schema, t: Tables, i: nat, ch: Changes)
    requires ValidTables(schema, t) && i < |t.rows| && CanUpdate(schema, t, i, ch)
    ensures NoOrphans(schema, Updated(schema, t, i, ch))
  {
    var u, key := Updated(schema, t, i, ch), t.rows[i].Cell(schema.key);
    UpdatedRows(schema, t, i, ch);
    assert t.rows[i] in t.rows;
    forall f, r | f in ListFields(schema) && r in u.Children(f) ensures IsParent(schema, u.rows, r.parent) {
      NewRowsParents(ch, f, key, t.Children(f));
      StillParent(schema, t.rows, u.rows, r.parent);
    }
  }

  lemma UpdatedIsValid(schema: Schema, t: Tables, i: nat, ch: Changes)
    requires ValidTables(schema, t) && i < |t.rows| && CanUpdate(schema, t, i, ch)
    ensures ValidTables(schema, Updated(schema, t, i, ch))
  {
    UpdatedRows(schema, t, i, ch);
    UpdatedParents(schema, t, i, ch);
    forall f | f in ListFields(schema)
      ensures ValidTable(schema.fields[f], Updated(schema, t, i, ch).children[f])
    {
      UpdatedList(schema, t, i, ch, f);
    }
  }

  lemma UpdatedOthers(schema: Schema, t: Tables, i: nat, ch: Changes, j: nat)
    requires ValidTables(schema, t) && i < |t.rows| && CanUpdate(schema, t, i, ch) && j < |t.rows| && j != i
    ensures DocOf(schema, Updated(schema, t, i, ch), t.rows[j]) == DocOf(schema, t, t.rows[j])
  {
    var u, key := Updated(schema, t, i, ch), t.rows[j].Cell(schema.key);
    assert key != t.rows[i].Cell(schema.key);
    forall f | f in ListFields(schema) ensures ReadList(u.Children(f), key) == ReadList(t.Children(f), key) {
      UpdatedList(schema, t, i, ch, f);
    }
    SameLists(schema, u, t, t.rows[j]);
  }

  lemma UpdatedDocLists(schema: Schema, t: Tables, i: nat, ch: Changes)
    requires ValidTables(schema, t) && i < |t.rows| && CanUpdate(schema, t, i, ch)
    ensures forall f :: f in ListFields(schema) ==>
      ReadList(Updated(schema, t, i, ch).Children(f), t.rows[i].Cell(schema.key))
      == NewList(ch, f, ReadList(t.Children(f), t.rows[i].Cell(schema.key)))
  {
    forall f | f in ListFields(schema)
      ensures ReadList(Updated(schema, t, i, ch).Children(f), t.rows[i].Cell(schema.key))
              == NewList(ch, f, ReadList(t.Children(f), t.rows[i].Cell(schema.key)))
    {
      UpdatedList(schema, t, i, ch, f);
    }
  }

  lemma SameDoc(schema: Schema, t: Tables, row: Row, doc: Doc)
    requires row.cells == doc.cells && doc.lists.Keys == ListFields(schema)
    requires forall f :: f in ListFields(schema) ==> ReadList(t.Children(f), row.Cell(schema.key)) == doc.lists[f]
    ensures DocOf(schema, t, row) == doc
  {
    assert DocOf(schema, t, row).lists == doc.lists;
  }

  lemma UpdatedDoc(schema: Schema, t: Tables, i: nat, ch: Changes)
    requires ValidTables(schema, t) && i < |t.rows| && CanUpdate(schema, t, i, ch)
    ensures DocOf(schema, Updated(schema, t, i, ch), Updated(schema, t, i, ch).rows[i])
            == ApplyChanges(DocOf(schema, t, t.rows[i]), ch)
  {
    KeyKept(schema, t, i, ch);
    UpdatedDocLists(schema, t, i, ch);
    var before := DocOf(schema, t, t.rows[i]);
    assert before.lists.Keys == ListFields(schema);
    SameDoc(schema, Updated(schema, t, i, ch), Updated(schema, t, i, ch).rows[i], ApplyChanges(before, ch));
  }

  /** Writing the changes to a record's row and child rows changes its document, and no other. */
  lemma UpdatedDocs(schema: Schema, t: Tables, i: nat, ch: Changes)
    requires ValidTables(schema, t) && i < |t.rows| && CanUpdate(schema, t, i, ch)
    ensures DocsOf(schema, Updated(schema, t, i, ch))
            == DocsOf(schema, t)[i := ApplyChanges(DocOf(schema, t, t.rows[i]), ch)]
  {
    var u := Updated(schema, t, i, ch);
    forall j | 0 <= j < |t.rows|
      ensures DocOf(schema, u, u.rows[j])
              == if j == i then ApplyChanges(DocOf(schema, t, t.rows[i]), ch) else DocOf(schema, t, t.rows[j])
    {
      if j == i {
        UpdatedDoc(schema, t, i, ch);
      } else {
        UpdatedOthers(schema, t, i, ch, j);
      }
    }
  }

  // ---- deleting ----

  function KeyNotIn(schema: Schema, keys: set<Value>): Row -> bool { (row: Row) => row.Cell(schema.key) !in keys }

  function ParentNotIn(keys: set<Value>): ChildRow -> bool { (r: ChildRow) => r.parent !in keys }

  /** The tables without the rows of the keys: deleting a row deletes its child rows. */
  function Deleted(schema: Schema, t: Tables, keys: set<Value>): Tables {
    Tables(Kept(t.rows, KeyNotIn(schema, keys)),
           map f | f in ListFields(schema) :: Kept(t.Children(f), ParentNotIn(keys)),
           t.nextId)
  }

  lemma {:induction false} KeptRowsOrdered(schema: Schema, rows: seq<Row>, keep: Row -> bool)
    requires InRowOrder(rows) && KeysDiffer(schema, rows)
    ensures InRowOrder(Kept(rows, keep)) && KeysDiffer(schema, Kept(rows, keep))
  {
    if rows != [] {
      KeptRowsOrdered(schema, rows[1..], keep);
      var rest := Kept(rows[1..], keep);
      forall j | 0 <= j < |rest|
        ensures rows[0].id < rest[j].id && rows[0].Cell(schema.key) != rest[j].Cell(schema.key)
      {
        assert rest[j] in rest;
        var k :| 1 <= k < |rows| && rows[k] == rest[j];
      }
    }
  }

  lemma DeletedIsValid(schema: Schema, t: Tables, keys: set<Value>)
    requires ValidTables(schema, t)
    ensures ValidTables(schema, Deleted(schema, t, keys))
  {
    var u := Deleted(schema, t, keys);
    KeptRowsOrdered(schema, t.rows, KeyNotIn(schema, keys));
    forall f | f in ListFields(schema) ensures ValidTable(schema.fields[f], u.children[f]) {
      KeptGrows(schema.fields[f], t.children[f], ParentNotIn(keys));
    }
    DeletedLeavesNoOrphans(schema, t, keys);
  }

  lemma DeletedLeavesNoOrphans(schema: Schema, t: Tables, keys: set<Value>)
    requires NoOrphans(schema, t)
    ensures NoOrphans(schema, Deleted(schema, t, keys))
  {
    var u := Deleted(schema, t, keys);
    forall f, r | f in ListFields(schema) && r in u.Children(f) ensures IsParent(schema, u.rows, r.parent) {
      assert r in t.Children(f) && IsParent(schema, t.rows, r.parent);
      var row :| row in t.rows && row.Cell(schema.key) == r.parent;
      assert row in u.rows;
    }
  }

  function DocKeyNotIn(schema: Schema, keys: set<Value>): Doc -> bool { (doc: Doc) => doc.Cell(schema.key) !in keys }

  /** Deleting rows deletes their documents, and changes no other. */
  lemma DeletedDocs(schema: Schema, t: Tables, keys: set<Value>)
    requires ValidTables(schema, t)
    ensures DocsOf(schema, Deleted(schema, t, keys)) == Kept(DocsOf(schema, t), DocKeyNotIn(schema, keys))
  {
    var u := Deleted(schema, t, keys);
    KeptMap(t.rows, Reader(schema, t), DocKeyNotIn(schema, keys), KeyNotIn(schema, keys));
    forall row | row in u.rows ensures DocOf(schema, u, row) == DocOf(schema, t, row) {
      var key := row.Cell(schema.key);
      forall f | f in ListFields(schema) ensures ReadList(u.Children(f), key) == ReadList(t.Children(f), key) {
        KeptKept(t.Children(f), ParentNotIn(keys), OfRecord(key), OfRecord(key));
      }
      SameLists(schema, u, t, row);
    }
    assert forall i :: 0 <= i < |u.rows| ==> u.rows[i] in u.rows;
    assert Map(u.rows, Reader(schema, u)) == Map(u.rows, Reader(schema, t));
  }
}
