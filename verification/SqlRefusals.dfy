/** Which of the filters that pass the check SQL takes. */
module SqlRefusals {
  import opened Wrappers
  import opened Values
  import opened Dialect
  import opened Sql
  import opened SqlTranslate
  import opened SqlReads
  import Q = QueryMeaning

  /** Operators a column can be compared by: a list for `$in` and `$nin`, one value for the others,
      and one that can be ordered against for an order. */
  predicate IsColumnOp(a: OpArg) {
    match a.op
    case In => a.operand.Many?
    case Nin => a.operand.Many?
    case Eq => a.operand.One?
    case Ne => a.operand.One?
    case Regex => a.operand.One? && a.operand.v.Text?
    case Options => true
    case Other(_) => true
    case _ => a.operand.One? && IsOrdered(a.operand.v)
  }

  /** Operators a list of scalars can be matched by. */
  predicate IsListOp(a: OpArg) {
    match a.op
    case In => a.operand.Many?
    case Nin => a.operand.Many?
    case Eq => a.operand.One?
    case Ne => a.operand.One?
    case _ => false
  }

  predicate IsColumnCondition(c: Condition) { forall a :: a in OpsOf(c) ==> IsColumnOp(a) }

  /** Filters on columns, by operators they can be compared by, on lists of scalars, by operators
      they can be matched by, and on lists of models, by `$elemMatch`; in any nesting. */
  predicate IsCompilable(schema: Schema, f: Filter) {
    forall e :: e in f.entries ==> IsCompilableEntry(schema, e)
  }

  predicate IsCompilableEntry(schema: Schema, e: Entry) {
    match e
    case Logical(_, items) => forall item :: item in items ==> IsCompilable(schema, item)
    case UnknownOperator(_) => false
    case OnField(field, Simple(c)) =>
      field in schema.fields &&
      if schema.fields[field].ScalarList? then forall a :: a in OpsOf(c) ==> IsListOp(a)
      else schema.fields[field].Column? && IsColumnCondition(c)
    case OnField(field, ElemMatch(entries, _)) =>
      field in schema.fields && schema.fields[field].ModelList?
      && forall x :: x in entries ==> IsColumnCondition(x.condition)
  }

  lemma OpCompilesIff(e: Expr, ignoresCase: bool, a: OpArg)
    ensures OpClause(e, ignoresCase, a).Ok? <==> IsColumnOp(a)
  {
  }

  lemma {:induction false} OpsCompileIff(e: Expr, ignoresCase: bool, ops: seq<OpArg>)
    ensures OpClauses(e, ignoresCase, ops).Ok? <==> forall a :: a in ops ==> IsColumnOp(a)
  {
    if ops != [] {
      var init, last := ops[..|ops| - 1], ops[|ops| - 1];
      assert ops == init + [last];
      OpsCompileIff(e, ignoresCase, init);
      OpCompilesIff(e, ignoresCase, last);
    }
  }

  lemma ListOpCompilesIff(schema: Schema, field: string, a: OpArg)
    ensures ListOpClause(schema, field, a).Ok? <==> IsListOp(a)
  {
  }

  lemma {:induction false} ListOpsCompileIff(schema: Schema, field: string, ops: seq<OpArg>)
    ensures ListOpClauses(schema, field, ops).Ok? <==> forall a :: a in ops ==> IsListOp(a)
  {
    if ops != [] {
      var init, last := ops[..|ops| - 1], ops[|ops| - 1];
      assert ops == init + [last];
      ListOpsCompileIff(schema, field, init);
      ListOpCompilesIff(schema, field, last);
    }
  }

  lemma {:induction false} ElementsCompileIff(entries: seq<ElementEntry>)
    ensures ElementClauses(entries).Ok? <==> forall x :: x in entries ==> IsColumnCondition(x.condition)
  {
    if entries != [] {
      var init, last := entries[..|entries| - 1], entries[|entries| - 1];
      assert entries == init + [last];
      ElementsCompileIff(init);
      OpsCompileIff(ChildCell(last.field), false, OpsOf(last.condition));
    }
  }

  lemma FieldCompilesIff(schema: Schema, field: string, c: FieldCondition)
    requires c.ElemMatch? ==> c.others == []
    ensures FieldClause(schema, field, c).Ok? <==> IsCompilableEntry(schema, OnField(field, c))
  {
    match c
    case Simple(condition) =>
      ListOpsCompileIff(schema, field, OpsOf(condition));
      OpsCompileIff(ColumnExpr(schema, field), field in schema.ignoresCase, OpsOf(condition));
    case ElemMatch(entries, _) => ElementsCompileIff(entries);
  }

  lemma {:induction false} EntryCompilesIff(schema: Schema, e: Entry)
    requires CheckEntry(schema, e).None?
    ensures EntryClause(schema, e).Ok? <==> IsCompilableEntry(schema, e)
    decreases e, 0
  {
    match e
    case Logical(_, items) =>
      Q.CheckedFilters(schema, items);
      FiltersCompileIff(schema, items);
    case OnField(field, c) => FieldCompilesIff(schema, field, c);
  }

  lemma {:induction false} EntriesCompileIff(schema: Schema, entries: seq<Entry>)
    requires forall e :: e in entries ==> CheckEntry(schema, e).None?
    ensures EntryClauses(schema, entries).Ok? <==> forall e :: e in entries ==> IsCompilableEntry(schema, e)
    decreases entries
  {
    if entries != [] {
      var init, last := entries[..|entries| - 1], entries[|entries| - 1];
      assert entries == init + [last];
      EntriesCompileIff(schema, init);
      EntryCompilesIff(schema, last);
    }
  }

  lemma {:induction false} FiltersCompileIff(schema: Schema, items: seq<Filter>)
    requires forall item :: item in items ==> CheckFilter(schema, item).None?
    ensures FilterClauses(schema, items).Ok? <==> forall item :: item in items ==> IsCompilable(schema, item)
    decreases items
  {
    if items != [] {
      var init, last := items[..|items| - 1], items[|items| - 1];
      assert items == init + [last];
      FiltersCompileIff(schema, init);
      FilterCompilesIff(schema, last);
    }
  }

  lemma {:induction false} FilterCompilesIff(schema: Schema, f: Filter)
    requires CheckFilter(schema, f).None?
    ensures Conditions(schema, f).Ok? <==> IsCompilable(schema, f)
    decreases f
  {
    Q.CheckedEntries(schema, f.entries);
    EntriesCompileIff(schema, f.entries);
  }

  /** Of the filters the check accepts, SQL takes exactly those, however they are nested. */
  lemma CheckedFilterCompilesIff(schema: Schema, f: Filter, now: Value)
    requires CheckFilter(schema, f).None?
    ensures Where(schema, f, now).Ok? <==> IsCompilable(schema, f)
  {
    FilterCompilesIff(schema, f);
  }

  /** A dotted path into JSON passes the check, whatever its operand, and SQL refuses it. */
  lemma PathsIntoJsonAreRefused(schema: Schema, field: string, rest: string, v: Value, now: Value)
    requires schema.Valid() && field in schema.fields && schema.fields[field].JsonField?
    ensures var f := Filter([OnField(field + "." + rest, Simple(Equals(One(v))))]);
      CheckFilter(schema, f).None? && Where(schema, f, now) == Err(QueryError)
  {
    var path := field + "." + rest;
    var entry := OnField(path, Simple(Equals(One(v))));
    FirstDot(field, rest);
    assert path[|field|] == '.';
    assert [entry][1..] == [] && [entry][..0] == [];
    assert CheckEntry(schema, entry).None?;
    assert CheckEntries(schema, [entry]).None?;
    assert EntryClause(schema, entry) == Err(QueryError);
    assert EntryClauses(schema, []) == Ok([]);
    assert EntryClauses(schema, [entry]) == Err(QueryError);
  }

  lemma {:induction false} FirstDot(field: string, rest: string)
    requires '.' !in field
    ensures SplitAtDot(field + "." + rest) == Some((field, rest))
  {
    if field == [] {
      assert field + "." + rest == "." + rest && ("." + rest)[1..] == rest;
    } else {
      assert field[0] in field;
      assert (field + "." + rest)[0] == field[0] && (field + "." + rest)[1..] == field[1..] + "." + rest;
      FirstDot(field[1..], rest);
      assert field == [field[0]] + field[1..];
    }
  }
}
