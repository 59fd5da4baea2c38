/** The writes of a transaction, each on the tables as the statements before it left them. */
module SqlWrites {
  import opened Wrappers
  import opened Sequences
  import opened Values
  import opened Dialect
  import opened Sql
  import opened ListTables
  import opened Updates
  import opened DocumentSpec
  import opened SqlTables

  /** Whether a write left the tables a promise describes, or failed as it says. */
  ghost predicate Refines(schema: Schema, r: Result<Tables>, promise: Result<seq<Doc>>) {
    match promise
    case Ok(docs) => r.Ok? && ValidTables(schema, r.value) && DocsOf(schema, r.value) == docs
    case Err(e) => r == Err(e)
  }

  predicate ClashesWithRow(schema: Schema, rows: seq<Row>, except: Option<Value>, cells: map<string, Value>) {
    exists row :: row in rows && Some(row.Cell(schema.key)) != except && Clash(schema, row.cells, cells)
  }

  lemma ClashesAreClashes(schema: Schema, t: Tables, cells: map<string, Value>)
    ensures ClashesWithRow(schema, t.rows, None, cells) <==>
            exists d :: d in DocsOf(schema, t) && Clash(schema, d.cells, cells)
  {
    var docs := DocsOf(schema, t);
    if row :| row in t.rows && Clash(schema, row.cells, cells) {
      var i :| 0 <= i < |t.rows| && t.rows[i] == row;
      assert docs[i] in docs && docs[i].cells == row.cells;
    }
    if d :| d in docs && Clash(schema, d.cells, cells) {
      var i :| 0 <= i < |docs| && docs[i] == d;
      assert t.rows[i] in t.rows && t.rows[i].cells == d.cells;
    }
  }

  // ---- INSERT ----

  function WithChildRows(schema: Schema, children: map<string, seq<ChildRow>>, key: Value, doc: Doc): map<string, seq<ChildRow>>
    requires children.Keys == ListFields(schema)
  {
    map f | f in ListFields(schema) :: children[f] + ChildRows(key, doc.List(f))
  }

  predicate IsRefused(schema: Schema, f: string, elements: seq<Element>) {
    IsScalarList(schema, f) && !Distinct(elements)
  }

  method InsertChildRows(schema: Schema, children: map<string, seq<ChildRow>>, key: Value, doc: Doc)
    returns (r: Result<map<string, seq<ChildRow>>>)
    requires children.Keys == ListFields(schema) == doc.lists.Keys
    ensures r == if exists f :: f in doc.lists && IsRefused(schema, f, doc.lists[f]) then Err(DuplicateKey)
                 else Ok(WithChildRows(schema, children, key, doc))
  {
    var written := children;
    var pending := ListFields(schema);
    while pending != {}
      invariant pending <= ListFields(schema) && written.Keys == ListFields(schema)
      invariant forall f :: f in ListFields(schema) ==>
        written[f] == if f in pending then children[f] else children[f] + ChildRows(key, doc.lists[f])
      invariant forall f :: f in ListFields(schema) - pending ==> !IsRefused(schema, f, doc.lists[f])
      decreases pending
    {
      var field :| field in pending;
      var elements := doc.lists[field];
      if elements != [] {
        if IsRefused(schema, field, elements) {
          return Err(DuplicateKey);
        }
        var rows := GetChildRows(key, elements);
        written := written[field := written[field] + rows];
      } else {
        assert children[field] + ChildRows(key, elements) == children[field];
      }
      pending := pending - {field};
    }
    assert written == WithChildRows(schema, children, key, doc);
    return Ok(written);
  }

  lemma KeyIsFree(schema: Schema, t: Tables, doc: Doc)
    requires schema.Valid() && ValidTables(schema, t) && TypedDoc(schema, doc)
    requires !ClashesWithRow(schema, t.rows, None, doc.cells)
    ensures !IsParent(schema, t.rows, doc.Cell(schema.key))
  {
    forall row | row in t.rows ensures row.Cell(schema.key) != doc.Cell(schema.key) {
      assert ValidRow(schema, row) && schema.IsColumn(schema.key);
      assert !Clash(schema, row.cells, doc.cells);
    }
  }

  /** Inserts the record's row, then the rows of its lists. */
  method InsertRecord(schema: Schema, t: Tables, doc: Doc) returns (r: Result<Tables>)
    requires schema.Valid() && ValidTables(schema, t) && TypedDoc(schema, doc)
    ensures Refines(schema, r, SpecInsert(schema, DocsOf(schema, t), doc))
  {
    var key := doc.Cell(schema.key);
    if key == Null {
      return Err(StorageError);
    }
    ClashesAreClashes(schema, t, doc.cells);
    if ClashesWithRow(schema, t.rows, None, doc.cells) {
      return Err(DuplicateKey);
    }
    assert doc.lists.Keys == ListFields(schema);
    var children := InsertChildRows(schema, t.children, key, doc);
    assert HoldsDuplicates(schema, doc.lists) <==> exists f :: f in doc.lists && IsRefused(schema, f, doc.lists[f]);
    if children.Err? {
      return Err(children.error);
    }
    assert children.value == Inserted(schema, t, doc).children;
    KeyIsFree(schema, t, doc);
    InsertedIsValid(schema, t, doc);
    InsertedDocs(schema, t, doc);
    return Ok(Tables(t.rows + [Row(t.nextId, doc.cells)], children.value, t.nextId + 1));
  }

  // ---- UPDATE ----

  /** No two documents share a key or a unique group. */
  predicate NoClash(schema: Schema, docs: seq<Doc>) {
    forall i, j :: 0 <= i < |docs| && 0 <= j < |docs| && i != j ==> !Clash(schema, docs[i].cells, docs[j].cells)
  }

  ghost predicate ClashesAt(schema: Schema, docs: seq<Doc>, i: nat, cells: map<string, Value>) {
    exists j :: 0 <= j < |docs| && j != i && Clash(schema, docs[j].cells, cells)
  }

  lemma ClashesAtRow(schema: Schema, t: Tables, i: nat, cells: map<string, Value>)
    requires ValidTables(schema, t) && i < |t.rows|
    ensures ClashesWithRow(schema, t.rows, Some(t.rows[i].Cell(schema.key)), cells)
            <==> ClashesAt(schema, DocsOf(schema, t), i, cells)
  {
    var docs := DocsOf(schema, t);
    var key := Some(t.rows[i].Cell(schema.key));
    if row :| row in t.rows && Some(row.Cell(schema.key)) != key && Clash(schema, row.cells, cells) {
      var j :| 0 <= j < |t.rows| && t.rows[j] == row;
      assert docs[j].cells == row.cells;
    }
    if j :| 0 <= j < |docs| && j != i && Clash(schema, docs[j].cells, cells) {
      assert t.rows[j] in t.rows && docs[j].cells == t.rows[j].cells;
      assert t.rows[j].Cell(schema.key) != t.rows[i].Cell(schema.key);
    }
  }

  function SetCells(schema: Schema, key: Value, ch: Changes): Row -> Row {
    (row: Row) => if row.Cell(schema.key) == key then row.(cells := NewCells(ch, row.cells)) else row
  }

  lemma SetCellsOfOne(schema: Schema, t: Tables, i: nat, ch: Changes)
    requires ValidTables(schema, t) && i < |t.rows|
    ensures Map(t.rows, SetCells(schema, t.rows[i].Cell(schema.key), ch))
            == t.rows[i := t.rows[i].(cells := NewCells(ch, t.rows[i].cells))]
  {
  }

  lemma KeyAloneChangesNothing(schema: Schema, row: Row, ch: Changes)
    requires forall f :: f in ch.values ==> f == schema.key && ch.values[f] == Assign(row.Cell(f))
    ensures NewCells(ch, row.cells) == row.cells
  {
  }

  /** UPDATE ... SET the columns but the key WHERE key = key, if there are any to set. */
  method UpdateRow(schema: Schema, t: Tables, key: Value, ch: Changes, ghost i: nat) returns (r: Result<seq<Row>>)
    requires schema.Valid() && ValidTables(schema, t) && i < |t.rows| && t.rows[i].Cell(schema.key) == key
    requires schema.key in ch.values ==> ch.values[schema.key] == Assign(key)
    requires NoClash(schema, DocsOf(schema, t))
    ensures r == if ClashesAt(schema, DocsOf(schema, t), i, NewCells(ch, t.rows[i].cells)) then Err(DuplicateKey)
                 else Ok(t.rows[i := t.rows[i].(cells := NewCells(ch, t.rows[i].cells))])
  {
    ghost var updated := NewCells(ch, t.rows[i].cells);
    if ch.values.Keys <= {schema.key} {
      KeyAloneChangesNothing(schema, t.rows[i], ch);
      assert DocsOf(schema, t)[i].cells == updated;
      assert t.rows[i := t.rows[i].(cells := updated)] == t.rows;
      return Ok(t.rows);
    }
    SetCellsOfOne(schema, t, i, ch);
    ClashesAtRow(schema, t, i, updated);
    var rows := Map(t.rows, SetCells(schema, key, ch));
    assert t.rows[i] in t.rows;
    assert forall row :: row in t.rows && row.Cell(schema.key) == key ==> row == t.rows[i];
    if exists row :: row in t.rows && row.Cell(schema.key) == key
         && ClashesWithRow(schema, t.rows, Some(key), NewCells(ch, row.cells)) {
      return Err(DuplicateKey);
    }
    return Ok(rows);
  }

  method ReplaceLists(schema: Schema, children: map<string, seq<ChildRow>>, key: Value, ch: Changes)
    returns (r: Result<map<string, seq<ChildRow>>>)
    requires children.Keys == ListFields(schema) && ch.replacements.Keys <= ListFields(schema)
    ensures r == if exists f :: f in ch.replacements && IsRefused(schema, f, ch.replacements[f]) then Err(DuplicateKey)
                 else Ok(map f | f in children :: ReplaceRows(ch, f, key, children[f]))
  {
    var written := children;
    var pending := ch.replacements.Keys;
    while pending != {}
      invariant pending <= ch.replacements.Keys && written.Keys == children.Keys
      invariant forall f :: f in children ==>
        written[f] == if f in pending then children[f] else ReplaceRows(ch, f, key, children[f])
      invariant forall f :: f in ch.replacements.Keys - pending ==> !IsRefused(schema, f, ch.replacements[f])
      decreases pending
    {
      var field :| field in pending;
      if IsRefused(schema, field, ch.replacements[field]) {
        return Err(DuplicateKey);
      }
      var own := GetChildRows(key, ch.replacements[field]);
      written := written[field := Kept(written[field], OfOthers(key)) + own];
      pending := pending - {field};
    }
    assert written == map f | f in children :: ReplaceRows(ch, f, key, children[f]);
    return Ok(written);
  }

  method AddElements(children: map<string, seq<ChildRow>>, key: Value, ch: Changes)
    returns (written: map<string, seq<ChildRow>>)
    requires forall a :: a in ch.additions ==> a.0 in children
    ensures written == map f | f in children :: AddRows(ch.additions, f, key, children[f])
  {
    written := children;
    for n := 0 to |ch.additions|
      invariant written.Keys == children.Keys
      invariant forall f :: f in children ==> written[f] == AddRows(ch.additions[..n], f, key, children[f])
    {
      assert ch.additions[n] in ch.additions;
      var (field, element) := ch.additions[n];
      forall f | f in children {
        AddRowsOneMore(ch.additions, n, f, key, children[f]);
      }
      written := written[field := Added(written[field], key, Scalar(element))];
    }
    assert ch.additions[..|ch.additions|] == ch.additions;
  }

  lemma AddRowsOneMore(additions: seq<(string, Value)>, n: nat, f: string, key: Value, table: seq<ChildRow>)
    requires n < |additions|
    ensures var before := AddRows(additions[..n], f, key, table);
      AddRows(additions[..n + 1], f, key, table)
      == if additions[n].0 == f then Added(before, key, Scalar(additions[n].1)) else before
  {
    assert additions[..n + 1][..n] == additions[..n];
  }

  lemma PullRowsOneMore(removals: seq<(string, Value)>, n: nat, f: string, key: Value, table: seq<ChildRow>)
    requires n < |removals|
    ensures var before := PullRows(removals[..n], f, key, table);
      PullRows(removals[..n + 1], f, key, table)
      == if removals[n].0 == f then Pulled(before, key, Scalar(removals[n].1)) else before
  {
    assert removals[..n + 1][..n] == removals[..n];
  }

  method RemoveElements(children: map<string, seq<ChildRow>>, key: Value, ch: Changes)
    returns (written: map<string, seq<ChildRow>>)
    requires forall a :: a in ch.removals ==> a.0 in children
    ensures written == map f | f in children :: PullRows(ch.removals, f, key, children[f])
  {
    written := children;
    for n := 0 to |ch.removals|
      invariant written.Keys == children.Keys
      invariant forall f :: f in children ==> written[f] == PullRows(ch.removals[..n], f, key, children[f])
    {
      assert ch.removals[n] in ch.removals;
      var (field, element) := ch.removals[n];
      forall f | f in children {
        PullRowsOneMore(ch.removals, n, f, key, children[f]);
      }
      written := written[field := Pulled(written[field], key, Scalar(element))];
    }
    assert ch.removals[..|ch.removals|] == ch.removals;
  }

  /** The child-table writes: each list replaced, then added to, then pulled from. */
  method WriteLists(schema: Schema, children: map<string, seq<ChildRow>>, key: Value, ch: Changes)
    returns (r: Result<map<string, seq<ChildRow>>>)
    requires children.Keys == ListFields(schema) && ch.replacements.Keys <= ListFields(schema)
    requires forall a :: a in ch.additions || a in ch.removals ==> a.0 in ListFields(schema)
    ensures r == if exists f :: f in ch.replacements && IsRefused(schema, f, ch.replacements[f]) then Err(DuplicateKey)
                 else Ok(map f | f in children :: NewRows(ch, f, key, children[f]))
  {
    var replaced := ReplaceLists(schema, children, key, ch);
    if replaced.Err? {
      return replaced;
    }
    var added := AddElements(replaced.value, key, ch);
    var pulled := RemoveElements(added, key, ch);
    assert pulled == map f | f in children :: NewRows(ch, f, key, children[f]);
    return Ok(pulled);
  }

  lemma TypedChangesName(schema: Schema, ch: Changes)
    requires TypedChanges(schema, ch)
    ensures ch.replacements.Keys <= ListFields(schema)
    ensures forall a :: a in ch.additions || a in ch.removals ==> a.0 in ListFields(schema)
  {
    assert forall f :: f in ch.replacements ==> Typed(schema, f, ch.replacements[f]);
  }

  lemma UpdateOutcome(schema: Schema, t: Tables, i: nat, ch: Changes)
    requires ValidTables(schema, t) && i < |t.rows|
    ensures ApplyChanges(DocsOf(schema, t)[i], ch).cells == NewCells(ch, t.rows[i].cells)
    ensures SpecUpdateAt(schema, DocsOf(schema, t), i, ch) ==
      if MovesKey(schema, DocsOf(schema, t)[i], ch) then Err(QueryError)
      else if ClashesAt(schema, DocsOf(schema, t), i, NewCells(ch, t.rows[i].cells)) then Err(DuplicateKey)
      else if exists f :: f in ch.replacements && IsRefused(schema, f, ch.replacements[f]) then Err(DuplicateKey)
      else Ok(DocsOf(schema, t)[i := ApplyChanges(DocsOf(schema, t)[i], ch)])
  {
    assert HoldsDuplicates(schema, ch.replacements) <==>
           exists f :: f in ch.replacements && IsRefused(schema, f, ch.replacements[f]);
  }

  /** Writes the changes to the record of the key and to its child rows. */
  method WriteChanges(schema: Schema, t: Tables, key: Value, ch: Changes, ghost i: nat) returns (r: Result<Tables>)
    requires schema.Valid() && ValidTables(schema, t) && i < |t.rows| && t.rows[i].Cell(schema.key) == key
    requires TypedChanges(schema, ch) && NoClash(schema, DocsOf(schema, t))
    ensures Refines(schema, r, SpecUpdateAt(schema, DocsOf(schema, t), i, ch))
  {
    UpdateOutcome(schema, t, i, ch);
    if schema.key in ch.values && ch.values[schema.key] != Assign(key) {
      return Err(QueryError);
    }
    var rows := UpdateRow(schema, t, key, ch, i);
    if rows.Err? {
      return Err(rows.error);
    }
    TypedChangesName(schema, ch);
    var children := WriteLists(schema, t.children, key, ch);
    if children.Err? {
      return Err(children.error);
    }
    ChildrenAreUpdated(schema, t, i, ch);
    UpdatedIsValid(schema, t, i, ch);
    UpdatedDocs(schema, t, i, ch);
    return Ok(Tables(rows.value, children.value, t.nextId));
  }

  lemma ChildrenAreUpdated(schema: Schema, t: Tables, i: nat, ch: Changes)
    requires ValidTables(schema, t) && i < |t.rows|
    ensures (map f | f in t.children :: NewRows(ch, f, t.rows[i].Cell(schema.key), t.children[f]))
            == Updated(schema, t, i, ch).children
  {
  }
}
