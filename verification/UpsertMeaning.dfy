/** The record an upsert creates, against the operators on the document of the filter's equalities. */
module UpsertMeaning {
  import opened Wrappers
  import opened Sequences
  import opened Values
  import opened Dialect
  import opened ListTables
  import opened Updates
  import opened UpdateMeaning
  import opened Upserts
  import opened SqlTables

  predicate NamesOnce(u: Update) { forall i, j :: 0 <= i < j < |u| ==> u[i].field != u[j].field }

  /** The change as an insert has it: what is set on insert only is set. */
  function OnInsert(c: Change): Change { if c.op == SetOnInsert then c.(op := SetTo) else c }

  function AllOnInsert(u: Update): (r: Update)
    ensures |r| == |u| && forall i :: 0 <= i < |r| ==> r[i] == OnInsert(u[i])
  {
    seq(|u|, i requires 0 <= i < |u| => OnInsert(u[i]))
  }

  /** The document of the filter's equalities, which MongoDB starts a new record from. */
  function StartOf(schema: Schema, f: Filter, newId: Value): Result<Doc> {
    RecordOf(schema, Equalities(f.entries), newId)
  }

  /** Whether a change starts from nothing: what it increases is no number yet, or 0; the list it
      adds to holds nothing else; and what it pulls is not there. */
  predicate StartsFresh(start: Doc, c: Change)
    requires c.op in {AddElement, PullElement} ==> c.written.ToValue?
  {
    match c.op
    case Increment => start.Cell(c.field).Num? ==> start.Cell(c.field).n == 0.0
    case AddElement => start.List(c.field) == [] || start.List(c.field) == [Scalar(c.written.v)]
    case PullElement => Scalar(c.written.v) !in start.List(c.field)
    case _ => true
  }

  // ---- what SQL collects for one field ----

  lemma {:induction false} LastWrittenOfNone(u: Update, op: UpdateOp, f: string)
    requires forall c :: c in u ==> c.field != f || c.op != op
    ensures LastWritten(u, op, f) == None
  {
    if u != [] {
      LastWrittenOfNone(u[..|u| - 1], op, f);
    }
  }

  lemma {:induction false} LastWrittenOfOne(u: Update, c: Change)
    requires NamesOnce(u) && c in u
    ensures LastWritten(u, c.op, c.field) == Some(AsInserted(c))
  {
    var last := u[|u| - 1];
    if last != c {
      var i :| 0 <= i < |u| && u[i] == c;
      assert u[..|u| - 1][i] == c;
      LastWrittenOfOne(u[..|u| - 1], c);
    }
  }

  lemma OthersDiffer(u: Update, c: Change, d: Change)
    requires NamesOnce(u) && c in u && d in u && c.field == d.field
    ensures c == d
  {
    var i :| 0 <= i < |u| && u[i] == c;
    var j :| 0 <= j < |u| && u[j] == d;
  }

  lemma LastWrittenOnce(u: Update, c: Change, op: UpdateOp)
    requires NamesOnce(u) && c in u
    ensures LastWritten(u, op, c.field) == if c.op == op then Some(AsInserted(c)) else None
  {
    if c.op == op {
      LastWrittenOfOne(u, c);
    } else {
      forall d | d in u ensures d.field != c.field || d.op != op {
        if d.field == c.field {
          OthersDiffer(u, c, d);
        }
      }
      LastWrittenOfNone(u, op, c.field);
    }
  }

  /** The value collected for a field is that of the last operator to write it, in the order of
      `ON_INSERT`, or the filter's own. */
  lemma CollectedFor(f: Filter, u: Update, field: string)
    ensures var w := match LastWritten(u, AddElement, field)
        case Some(w) => Some(w)
        case None => match LastWritten(u, Increment, field)
          case Some(w) => Some(w)
          case None => match LastWritten(u, SetOnInsert, field)
            case Some(w) => Some(w)
            case None => LastWritten(u, SetTo, field);
      && (field in UpsertValues(f, u) <==> w.Some? || field in Equalities(f.entries))
      && (w.Some? ==> UpsertValues(f, u)[field] == w.value)
      && (w.None? && field in Equalities(f.entries) ==> UpsertValues(f, u)[field] == Equalities(f.entries)[field])
  {
    UpsertValuesInOrder(f, u);
    var first := Equalities(f.entries);
    var second := WithChanges(first, u, SetTo);
    var third := WithChanges(second, u, SetOnInsert);
    var fourth := WithChanges(third, u, Increment);
    WithChangesGives(first, u, SetTo, field);
    WithChangesGives(second, u, SetOnInsert, field);
    WithChangesGives(third, u, Increment, field);
    WithChangesGives(fourth, u, AddElement, field);
  }

  /** Of an update that names each field once, a field changed on insert takes what its change
      writes, and any other keeps the filter's equality, if it has one. */
  lemma CollectedOnce(f: Filter, u: Update, c: Change)
    requires NamesOnce(u) && c in u
    ensures c.op in {SetTo, SetOnInsert, Increment, AddElement} ==>
      c.field in UpsertValues(f, u) && UpsertValues(f, u)[c.field] == AsInserted(c)
    ensures c.op !in {SetTo, SetOnInsert, Increment, AddElement} ==> SameCollected(f, u, c.field)
  {
    LastWrittenOnce(u, c, SetTo);
    LastWrittenOnce(u, c, SetOnInsert);
    LastWrittenOnce(u, c, Increment);
    LastWrittenOnce(u, c, AddElement);
    CollectedFor(f, u, c.field);
  }

  predicate SameCollected(f: Filter, u: Update, field: string) {
    && (field in UpsertValues(f, u) <==> field in Equalities(f.entries))
    && (field in Equalities(f.entries) ==> UpsertValues(f, u)[field] == Equalities(f.entries)[field])
  }

  lemma CollectedOfNone(f: Filter, u: Update, field: string)
    requires forall c :: c in u ==> c.field != field
    ensures SameCollected(f, u, field)
  {
    LastWrittenOfNone(u, SetTo, field);
    LastWrittenOfNone(u, SetOnInsert, field);
    LastWrittenOfNone(u, Increment, field);
    LastWrittenOfNone(u, AddElement, field);
    CollectedFor(f, u, field);
  }

  // ---- what the operators make of one field ----

  lemma {:induction false} OwnOnce(u: Update, c: Change)
    requires NamesOnce(u) && c in u && ChangesThere(c)
    ensures Own(u, c.field) == [c]
  {
    var init, last := u[..|u| - 1], u[|u| - 1];
    var i :| 0 <= i < |u| && u[i] == c;
    if last == c {
      OwnIsEmpty(init, c.field);
    } else {
      assert init[i] == c;
      OwnOnce(init, c);
    }
  }

  lemma {:induction false} InsertingIsOk(schema: Schema, u: Update)
    requires ChangesOf(schema, u).Ok?
    ensures ChangesOf(schema, AllOnInsert(u)).Ok?
  {
    if u != [] {
      InsertingIsOk(schema, u[..|u| - 1]);
      assert AllOnInsert(u)[..|u| - 1] == AllOnInsert(u[..|u| - 1]);
    }
  }

  lemma StartIsShaped(schema: Schema, values: map<string, Written>, newId: Value)
    requires RecordOf(schema, values, newId).Ok?
    ensures Shaped(schema, RecordOf(schema, values, newId).value)
  {
  }

  lemma OwnOnInsert(u: Update, c: Change)
    requires NamesOnce(u) && c in u
    ensures Own(AllOnInsert(u), c.field) == if ChangesThere(OnInsert(c)) then [OnInsert(c)] else []
  {
    var all, d := AllOnInsert(u), OnInsert(c);
    var i :| 0 <= i < |u| && u[i] == c;
    assert all[i] == d && NamesOnce(all);
    if ChangesThere(d) {
      OwnOnce(all, d);
    } else {
      NoneThere(all, d);
    }
  }

  /** What the update makes of one field of the start, as its one change makes it. */
  lemma MadeCell(schema: Schema, u: Update, start: Doc, c: Change)
    requires ChangesOf(schema, u).Ok? && Shaped(schema, start) && NamesOnce(u) && c in u && schema.IsColumn(c.field)
    ensures ApplyUpdate(start, AllOnInsert(u)).Cell(c.field)
            == if ChangesThere(OnInsert(c)) then ChangedCell(OnInsert(c), start.Cell(c.field)) else start.Cell(c.field)
  {
    InsertingIsOk(schema, u);
    UpdateByField(schema, AllOnInsert(u), start);
    OwnOnInsert(u, c);
    OneMore([], OnInsert(c), [], start.Cell(c.field));
    assert [] + [OnInsert(c)] == [OnInsert(c)];
  }

  lemma MadeList(schema: Schema, u: Update, start: Doc, c: Change)
    requires ChangesOf(schema, u).Ok? && Shaped(schema, start) && NamesOnce(u) && c in u && schema.IsList(c.field)
    ensures ApplyUpdate(start, AllOnInsert(u)).List(c.field)
            == if ChangesThere(OnInsert(c)) then ChangedList(OnInsert(c), start.List(c.field)) else start.List(c.field)
  {
    InsertingIsOk(schema, u);
    UpdateByField(schema, AllOnInsert(u), start);
    OwnOnInsert(u, c);
    OneMore([], OnInsert(c), start.List(c.field), Null);
    assert [] + [OnInsert(c)] == [OnInsert(c)];
  }

  lemma NoneThere(u: Update, d: Change)
    requires NamesOnce(u) && d in u && !ChangesThere(d)
    ensures Own(u, d.field) == []
  {
    if Own(u, d.field) != [] {
      var c := Own(u, d.field)[0];
      OthersDiffer(u, c, d);
    }
  }

  lemma MadeOfNone(schema: Schema, u: Update, start: Doc, field: string)
    requires ChangesOf(schema, u).Ok? && Shaped(schema, start) && forall c :: c in u ==> c.field != field
    ensures var made := ApplyUpdate(start, AllOnInsert(u));
      && (field in start.cells ==> field in made.cells && made.cells[field] == start.cells[field])
      && (field in start.lists ==> field in made.lists && made.lists[field] == start.lists[field])
  {
    InsertingIsOk(schema, u);
    UpdateByField(schema, AllOnInsert(u), start);
    forall c | c in AllOnInsert(u) ensures c.field != field {
      var i :| 0 <= i < |u| && AllOnInsert(u)[i] == c;
      assert u[i] in u;
    }
    OwnIsEmpty(AllOnInsert(u), field);
  }

  // ---- the two compared ----

  /** Whether a field of two records is the same. */
  predicate SameField(a: Doc, b: Doc, field: string) { a.Cell(field) == b.Cell(field) && a.List(field) == b.List(field) }

  lemma AddToFresh(l: seq<Element>, x: Element)
    ensures AddToSet(l, x) == [x] <==> l == [] || l == [x]
  {
    if x !in l {
      assert (l + [x])[|l|] == x;
    }
  }

  lemma PullFromFresh(l: seq<Element>, x: Element)
    ensures Pull(l, x) == l <==> x !in l
  {
    ElementFacts(l, x, x);
  }

  /** A field of a record made of values. */
  lemma FieldOf(schema: Schema, values: map<string, Written>, newId: Value, field: string)
    requires RecordOf(schema, values, newId).Ok? && field in schema.fields && field in values
    ensures var record := RecordOf(schema, values, newId).value;
      && (schema.IsList(field) ==> values[field].ToList? && record.List(field) == values[field].es)
      && (schema.IsColumn(field) ==> values[field].ToValue? && record.Cell(field) == values[field].v)
  {
    assert FitsField(schema, field, values[field]);
  }

  lemma FieldsOfSame(schema: Schema, a: map<string, Written>, b: map<string, Written>, newId: Value, field: string)
    requires RecordOf(schema, a, newId).Ok? && RecordOf(schema, b, newId).Ok?
    requires (field in a <==> field in b) && (field in a ==> a[field] == b[field])
    ensures SameField(RecordOf(schema, a, newId).value, RecordOf(schema, b, newId).value, field)
  {
  }

  lemma ColumnFieldIff(schema: Schema, f: Filter, u: Update, newId: Value, c: Change)
    requires NamesOnce(u) && c in u && ChangesOf(schema, u).Ok? && IsColumnOnInsert(schema, c)
    requires StartOf(schema, f, newId).Ok? && UpsertedRecord(schema, f, u, newId).Ok?
    ensures var start := StartOf(schema, f, newId).value;
      UpsertedRecord(schema, f, u, newId).value.Cell(c.field) == ApplyUpdate(start, AllOnInsert(u)).Cell(c.field)
      <==> (c.op == Increment && start.Cell(c.field).Num? ==> start.Cell(c.field).n == 0.0)
  {
    var start := StartOf(schema, f, newId).value;
    StartIsShaped(schema, Equalities(f.entries), newId);
    CollectedOnce(f, u, c);
    FieldOf(schema, UpsertValues(f, u), newId, c.field);
    MadeCell(schema, u, start, c);
    ColumnChanged(OnInsert(c), start.Cell(c.field));
  }

  /** Changes of a column that an insert takes. */
  predicate IsColumnOnInsert(schema: Schema, c: Change) {
    schema.IsColumn(c.field) && c.op in {SetTo, SetOnInsert, Increment} && IsColumnChange(OnInsert(c))
  }

  lemma ListFieldIff(schema: Schema, f: Filter, u: Update, newId: Value, c: Change)
    requires NamesOnce(u) && c in u && ChangesOf(schema, u).Ok? && schema.IsList(c.field) && IsListChange(c)
    requires StartOf(schema, f, newId).Ok? && UpsertedRecord(schema, f, u, newId).Ok?
    ensures var start := StartOf(schema, f, newId).value;
      UpsertedRecord(schema, f, u, newId).value.List(c.field) == ApplyUpdate(start, AllOnInsert(u)).List(c.field)
      <==> StartsFresh(start, c)
  {
    var start := StartOf(schema, f, newId).value;
    StartIsShaped(schema, Equalities(f.entries), newId);
    CollectedOnce(f, u, c);
    MadeList(schema, u, start, c);
    ChangedLists(c, start.List(c.field));
    if c.op == PullElement {
      FieldsOfSame(schema, UpsertValues(f, u), Equalities(f.entries), newId, c.field);
      PullFromFresh(start.List(c.field), Scalar(c.written.v));
    } else {
      FieldOf(schema, UpsertValues(f, u), newId, c.field);
      if c.op == AddElement {
        AddToFresh(start.List(c.field), Scalar(c.written.v));
      }
    }
  }

  lemma ChangeIsOfKind(schema: Schema, u: Update, c: Change)
    requires ChangesOf(schema, u).Ok? && c in u
    ensures schema.IsList(c.field) && c.op != SetOnInsert && ChangesThere(c) ==> IsListChange(c)
    ensures c.op in {AddElement, PullElement} ==> schema.IsList(c.field)
    ensures c.op in {SetTo, SetOnInsert, Increment} && !schema.IsList(c.field) ==> IsColumnOnInsert(schema, c)
    ensures c.op == SetOnInsert ==> !schema.IsList(c.field)
    ensures c.op == Increment ==> !schema.IsList(c.field)
  {
    ChangesAreOk(schema, u);
    assert AddChange(schema, NO_CHANGES, c).Ok?;
  }

  /** A document has no list of a column's name, and no cell of a list's. */
  lemma OneSided(schema: Schema, doc: Doc, field: string)
    requires Shaped(schema, doc)
    ensures schema.IsList(field) ==> doc.Cell(field) == Null
    ensures !schema.IsList(field) ==> doc.List(field) == []
  {
  }

  lemma ChangedFieldIff(schema: Schema, f: Filter, u: Update, newId: Value, c: Change)
    requires NamesOnce(u) && c in u && ChangesOf(schema, u).Ok? && AreValued(u)
    requires StartOf(schema, f, newId).Ok? && UpsertedRecord(schema, f, u, newId).Ok?
    ensures var start := StartOf(schema, f, newId).value;
      SameField(UpsertedRecord(schema, f, u, newId).value, ApplyUpdate(start, AllOnInsert(u)), c.field)
      <==> StartsFresh(start, c)
  {
    var start, record := StartOf(schema, f, newId).value, UpsertedRecord(schema, f, u, newId).value;
    StartIsShaped(schema, Equalities(f.entries), newId);
    StartIsShaped(schema, UpsertValues(f, u), newId);
    UpdateKeepsShape(schema, u, start);
    OneSided(schema, record, c.field);
    OneSided(schema, ApplyUpdate(start, AllOnInsert(u)), c.field);
    ChangeIsOfKind(schema, u, c);
    if !ChangesThere(OnInsert(c)) {
      UnchangedFieldIsSame(schema, f, u, newId, c);
    } else if schema.IsList(c.field) {
      ListFieldIff(schema, f, u, newId, c);
    } else {
      ColumnFieldIff(schema, f, u, newId, c);
    }
  }

  lemma UnchangedFieldIsSame(schema: Schema, f: Filter, u: Update, newId: Value, c: Change)
    requires NamesOnce(u) && c in u && ChangesOf(schema, u).Ok? && !ChangesThere(OnInsert(c))
    requires StartOf(schema, f, newId).Ok? && UpsertedRecord(schema, f, u, newId).Ok?
    ensures SameField(UpsertedRecord(schema, f, u, newId).value,
                      ApplyUpdate(StartOf(schema, f, newId).value, AllOnInsert(u)), c.field)
  {
    var start := StartOf(schema, f, newId).value;
    StartIsShaped(schema, Equalities(f.entries), newId);
    CollectedOnce(f, u, c);
    FieldsOfSame(schema, UpsertValues(f, u), Equalities(f.entries), newId, c.field);
    InsertingIsOk(schema, u);
    UpdateByField(schema, AllOnInsert(u), start);
    OwnOnInsert(u, c);
  }

  lemma UpdateKeepsShape(schema: Schema, u: Update, start: Doc)
    requires ChangesOf(schema, u).Ok? && Shaped(schema, start)
    ensures Shaped(schema, ApplyUpdate(start, AllOnInsert(u)))
  {
    InsertingIsOk(schema, u);
    UpdateByField(schema, AllOnInsert(u), start);
  }

  lemma OtherFieldIsSame(schema: Schema, f: Filter, u: Update, newId: Value, field: string)
    requires ChangesOf(schema, u).Ok? && forall c :: c in u ==> c.field != field
    requires StartOf(schema, f, newId).Ok? && UpsertedRecord(schema, f, u, newId).Ok?
    ensures SameField(UpsertedRecord(schema, f, u, newId).value,
                      ApplyUpdate(StartOf(schema, f, newId).value, AllOnInsert(u)), field)
  {
    var start := StartOf(schema, f, newId).value;
    StartIsShaped(schema, Equalities(f.entries), newId);
    StartIsShaped(schema, UpsertValues(f, u), newId);
    CollectedOfNone(f, u, field);
    MadeOfNone(schema, u, start, field);
    UpdateKeepsShape(schema, u, start);
  }

  lemma SameFieldsSameRecord(schema: Schema, a: Doc, b: Doc)
    requires Shaped(schema, a) && Shaped(schema, b)
    ensures a == b <==> forall field :: SameField(a, b, field)
  {
    if forall field :: SameField(a, b, field) {
      forall field | field in a.cells ensures field in b.cells && a.cells[field] == b.cells[field] {
        assert SameField(a, b, field);
      }
      forall field | field in a.lists ensures field in b.lists && a.lists[field] == b.lists[field] {
        assert SameField(a, b, field);
      }
      assert a.cells.Keys == b.cells.Keys && a.lists.Keys == b.lists.Keys;
      SameParts(a, b);
    }
  }

  /** An upsert creates what the operators make of the document of the filter's equalities, as
      MongoDB does, exactly if every change starts from nothing there. */
  lemma UpsertIsUpdateOfStartIff(schema: Schema, f: Filter, u: Update, newId: Value)
    requires NamesOnce(u) && ChangesOf(schema, u).Ok? && AreValued(u)
    requires StartOf(schema, f, newId).Ok? && UpsertedRecord(schema, f, u, newId).Ok?
    ensures var start := StartOf(schema, f, newId).value;
      UpsertedRecord(schema, f, u, newId).value == ApplyUpdate(start, AllOnInsert(u))
      <==> forall c :: c in u ==> StartsFresh(start, c)
  {
    var start, record := StartOf(schema, f, newId).value, UpsertedRecord(schema, f, u, newId).value;
    var made := ApplyUpdate(start, AllOnInsert(u));
    StartIsShaped(schema, Equalities(f.entries), newId);
    StartIsShaped(schema, UpsertValues(f, u), newId);
    UpdateKeepsShape(schema, u, start);
    SameFieldsSameRecord(schema, record, made);
    forall c | c in u ensures SameField(record, made, c.field) <==> StartsFresh(start, c) {
      ChangedFieldIff(schema, f, u, newId, c);
    }
    forall field | forall c :: c in u ==> c.field != field ensures SameField(record, made, field) {
      OtherFieldIsSame(schema, f, u, newId, field);
    }
  }

  /** It does not of a filter that makes a number equal 5 and an update that increases it by 1:
      SQL creates 1, and MongoDB 6. */
  lemma IncreasingTheFiltersOwn(schema: Schema, newId: Value)
    requires schema.fields == map["n" := Column]
    ensures var f, u := Filter([OnField("n", Simple(Equals(One(Num(5.0)))))]), [INCREASE_BY_1];
      && StartOf(schema, f, newId).Ok? && UpsertedRecord(schema, f, u, newId).Ok?
      && UpsertedRecord(schema, f, u, newId).value.Cell("n") == Num(1.0)
      && ApplyUpdate(StartOf(schema, f, newId).value, AllOnInsert(u)).Cell("n") == Num(6.0)
  {
    var entry := OnField("n", Simple(Equals(One(Num(5.0)))));
    var f, u := Filter([entry]), [INCREASE_BY_1];
    assert [entry][..0] == [] && u[..0] == [];
    assert Equalities([entry]) == map["n" := ToValue(Num(5.0))];
    CollectedOnce(f, u, INCREASE_BY_1);
    CollectedOnlyN(f, u);
    assert AllOnInsert(u) == u;
    assert ApplyUpdate(StartOf(schema, f, newId).value, u) == ApplyChange(StartOf(schema, f, newId).value, INCREASE_BY_1);
  }

  lemma CollectedOnlyN(f: Filter, u: Update)
    requires u == [INCREASE_BY_1]
    ensures "n" in UpsertValues(f, u) && UpsertValues(f, u)["n"] == ToValue(Num(1.0))
  {
    assert INCREASE_BY_1 in u;
    CollectedOnce(f, u, INCREASE_BY_1);
  }
}
