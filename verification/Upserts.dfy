/** The record an upsert creates: the filter's equalities, then the update's values. */
module Upserts {
  import opened Wrappers
  import opened Sequences
  import opened Values
  import opened Dialect
  import opened ListTables
  import opened Updates
  import opened SqlTables

  function ToWritten(operand: Operand): Written {
    match operand
    case One(v) => ToValue(v)
    case Many(vs) => ToList(Map(vs, v => Scalar(v)))
  }

  /** The value an entry of a filter makes its field equal, if it does. */
  function EqualityOf(e: Entry): Option<Operand> {
    match e
    case OnField(_, Simple(Equals(operand))) => Some(operand)
    case OnField(_, Simple(Operators(ops))) => Lookup(ops, Eq)
    case _ => None
  }

  function Equalities(entries: seq<Entry>): map<string, Written> {
    if entries == [] then map[]
    else
      var init := Equalities(entries[..|entries| - 1]);
      var last := entries[|entries| - 1];
      if EqualityOf(last).Some? then init[last.field := ToWritten(EqualityOf(last).value)] else init
  }

  function AsInserted(c: Change): Written {
    if c.op == AddElement && c.written.ToValue? then ToList([Scalar(c.written.v)]) else c.written
  }

  /** The values with those the update's changes by the operator give. */
  function WithChanges(values: map<string, Written>, u: Update, op: UpdateOp): map<string, Written> {
    if u == [] then values
    else
      var init := WithChanges(values, u[..|u| - 1], op);
      var last := u[|u| - 1];
      if last.op == op then init[last.field := AsInserted(last)] else init
  }

  /** The operators whose values a new record takes, in the order it takes them. */
  const ON_INSERT: seq<UpdateOp> := [SetTo, SetOnInsert, Increment, AddElement]

  function WithOperators(values: map<string, Written>, u: Update, ops: seq<UpdateOp>): map<string, Written> {
    if ops == [] then values
    else WithChanges(WithOperators(values, u, ops[..|ops| - 1]), u, ops[|ops| - 1])
  }

  function UpsertValues(f: Filter, u: Update): map<string, Written> {
    WithOperators(Equalities(f.entries), u, ON_INSERT)
  }

  method CollectValues(f: Filter, u: Update) returns (values: map<string, Written>)
    ensures values == UpsertValues(f, u)
  {
    values := map[];
    for i := 0 to |f.entries|
      invariant values == Equalities(f.entries[..i])
    {
      assert f.entries[..i + 1][..i] == f.entries[..i];
      var operand := EqualityOf(f.entries[i]);
      if operand.Some? {
        values := values[f.entries[i].field := ToWritten(operand.value)];
      }
    }
    assert f.entries[..|f.entries|] == f.entries;
    for k := 0 to |ON_INSERT|
      invariant values == WithOperators(Equalities(f.entries), u, ON_INSERT[..k])
    {
      assert ON_INSERT[..k + 1][..k] == ON_INSERT[..k];
      var before := values;
      for i := 0 to |u|
        invariant values == WithChanges(before, u[..i], ON_INSERT[k])
      {
        assert u[..i + 1][..i] == u[..i];
        if u[i].op == ON_INSERT[k] {
          values := values[u[i].field := AsInserted(u[i])];
        }
      }
      assert u[..|u|] == u;
    }
    assert ON_INSERT[..|ON_INSERT|] == ON_INSERT;
  }

  /** Whether a value fits a field: a column takes a value, and a list a list of its kind. */
  predicate FitsField(schema: Schema, f: string, w: Written) {
    if schema.IsList(f) then w.ToList? && forall e :: e in w.es ==> FitsKind(schema.fields[f], e)
    else w.ToValue?
  }

  /** The record of the values, with a new id if they name none. */
  function RecordOf(schema: Schema, values: map<string, Written>, newId: Value): Result<Doc> {
    var all := if "id" in schema.fields && "id" !in values then values["id" := ToValue(newId)] else values;
    if exists f :: f in schema.fields && f in all && !FitsField(schema, f, all[f]) then Err(InvalidRecord)
    else
      Ok(Doc(map f | f in schema.fields && schema.IsColumn(f) :: if f in all then all[f].v else Null,
             map f | f in ListFields(schema) :: if f in all then all[f].es else []))
  }

  function UpsertedRecord(schema: Schema, f: Filter, u: Update, newId: Value): Result<Doc> {
    RecordOf(schema, UpsertValues(f, u), newId)
  }

  // ---- the key of the record created ----

  /** What the update's last change of a field by an operator writes, if one does. */
  function LastWritten(u: Update, op: UpdateOp, f: string): Option<Written> {
    if u == [] then None
    else
      var last := u[|u| - 1];
      if last.op == op && last.field == f then Some(AsInserted(last)) else LastWritten(u[..|u| - 1], op, f)
  }

  lemma {:induction false} WithChangesGives(values: map<string, Written>, u: Update, op: UpdateOp, f: string)
    ensures f in WithChanges(values, u, op) <==> LastWritten(u, op, f).Some? || f in values
    ensures LastWritten(u, op, f).Some? ==> WithChanges(values, u, op)[f] == LastWritten(u, op, f).value
    ensures LastWritten(u, op, f).None? && f in values ==> WithChanges(values, u, op)[f] == values[f]
  {
    if u != [] {
      WithChangesGives(values, u[..|u| - 1], op, f);
    }
  }

  lemma {:induction false} LastWrittenIsChange(u: Update, op: UpdateOp, f: string)
    requires LastWritten(u, op, f).Some?
    ensures exists c :: c in u && c.op == op && c.field == f && AsInserted(c) == LastWritten(u, op, f).value
  {
    var last := u[|u| - 1];
    assert last in u;
    if !(last.op == op && last.field == f) {
      LastWrittenIsChange(u[..|u| - 1], op, f);
    }
  }

  /** A filter holds each field once, as a map does. */
  predicate IsMapping(entries: seq<Entry>) {
    forall i, j :: 0 <= i < j < |entries| && entries[i].OnField? && entries[j].OnField? ==>
      entries[i].field != entries[j].field
  }

  lemma {:induction false} EqualitiesHoldMatchedKey(schema: Schema, entries: seq<Entry>)
    requires IsMapping(entries) && MatchedKey(schema, entries).Some?
    ensures schema.key in Equalities(entries)
    ensures Equalities(entries)[schema.key] == ToWritten(MatchedKey(schema, entries).value)
  {
    var init, last := entries[..|entries| - 1], entries[|entries| - 1];
    assert entries == init + [last];
    MatchedKeyAppend(schema, init, last);
    if MatchedKey(schema, init).Some? {
      MatchedKeyNamesKey(schema, init);
      EqualitiesHoldMatchedKey(schema, init);
    }
  }

  lemma {:induction false} MatchedKeyNamesKey(schema: Schema, entries: seq<Entry>)
    requires MatchedKey(schema, entries).Some?
    ensures exists i :: 0 <= i < |entries| && entries[i].OnField? && entries[i].field == schema.key
  {
    if !(entries[0].OnField? && entries[0].field == schema.key) {
      MatchedKeyNamesKey(schema, entries[1..]);
      var i :| 0 <= i < |entries[1..]| && entries[1..][i].OnField? && entries[1..][i].field == schema.key;
      assert entries[i + 1] == entries[1..][i];
    }
  }

  lemma {:induction false} MatchedKeyAppend(schema: Schema, init: seq<Entry>, last: Entry)
    requires MatchedKey(schema, init + [last]).Some?
    ensures MatchedKey(schema, init).Some? ==> MatchedKey(schema, init) == MatchedKey(schema, init + [last])
    ensures MatchedKey(schema, init).None? ==>
      last.OnField? && last.field == schema.key && EqualityOf(last) == MatchedKey(schema, init + [last])
  {
    if init == [] {
      assert init + [last] == [last];
    } else {
      assert (init + [last])[0] == init[0] && (init + [last])[1..] == init[1..] + [last];
      if !(init[0].OnField? && init[0].field == schema.key) {
        MatchedKeyAppend(schema, init[1..], last);
      }
    }
  }

  lemma UpsertValuesInOrder(f: Filter, u: Update)
    ensures UpsertValues(f, u) == WithChanges(WithChanges(WithChanges(WithChanges(
              Equalities(f.entries), u, SetTo), u, SetOnInsert), u, Increment), u, AddElement)
  {
    var ops := ON_INSERT;
    assert ops[..3][..2] == [SetTo, SetOnInsert] && ops[..3] == [SetTo, SetOnInsert, Increment];
    assert [SetTo, SetOnInsert][..1] == [SetTo] && [SetTo][..0] == [];
    var first := Equalities(f.entries);
    assert WithOperators(first, u, []) == first;
    assert WithOperators(first, u, [SetTo]) == WithChanges(first, u, SetTo);
    assert WithOperators(first, u, [SetTo, SetOnInsert]) == WithChanges(WithOperators(first, u, [SetTo]), u, SetOnInsert);
    assert WithOperators(first, u, ops[..3]) == WithChanges(WithOperators(first, u, [SetTo, SetOnInsert]), u, Increment);
  }

  /** An upsert creates its record under the key the filter names, unless `$setOnInsert` gives
      another, which is the one exception. */
  lemma UpsertIsUnderNamedKey(schema: Schema, f: Filter, u: Update, newId: Value, k: Value)
    requires schema.Valid() && IsMapping(f.entries)
    requires MatchedKey(schema, f.entries) == Some(One(k))
    requires CheckKeyKept(schema, f, u).None? && UpsertedRecord(schema, f, u, newId).Ok?
    ensures UpsertedRecord(schema, f, u, newId).value.Cell(schema.key)
            == match LastWritten(u, SetOnInsert, schema.key) case Some(ToValue(w)) => w case _ => k
  {
    var key := schema.key;
    EqualitiesHoldMatchedKey(schema, f.entries);
    forall c | c in u && c.field == key && c.op != SetOnInsert
      ensures c.op == SetTo && c.written == ToValue(k)
    {
      assert KeepsKey(schema, f, c);
    }
    var first := Equalities(f.entries);
    var second := WithChanges(first, u, SetTo);
    var third := WithChanges(second, u, SetOnInsert);
    var fourth := WithChanges(third, u, Increment);
    WithChangesGives(first, u, SetTo, key);
    WithChangesGives(second, u, SetOnInsert, key);
    WithChangesGives(third, u, Increment, key);
    WithChangesGives(fourth, u, AddElement, key);
    UpsertValuesInOrder(f, u);
    forall op | op in {SetTo, Increment, AddElement} && LastWritten(u, op, key).Some?
      ensures op == SetTo && LastWritten(u, op, key).value == ToValue(k)
    {
      LastWrittenIsChange(u, op, key);
    }
    assert UpsertValues(f, u)[key] == match LastWritten(u, SetOnInsert, key) case Some(w) => w case None => ToValue(k);
    assert FitsField(schema, key, UpsertValues(f, u)[key]);
  }
}
