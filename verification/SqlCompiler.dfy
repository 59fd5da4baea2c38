/** The loops that compile a filter: each appends the clauses of what it walks. */
module SqlCompiler {
  import opened Wrappers
  import opened Values
  import opened Dialect
  import opened Sql
  import opened SqlTranslate
  import opened QueryMeaning

  method GetComparisonClause(e: Expr, condition: Condition, ignoresCase: bool) returns (r: Result<Clause>)
    ensures r == ComparisonClause(e, ignoresCase, condition)
  {
    var operators := OpsOf(condition);
    var clauses := [];
    for i := 0 to |operators|
      invariant OpClauses(e, ignoresCase, operators[..i]) == Ok(clauses)
    {
      assert operators[..i + 1][..i] == operators[..i];
      var clause := OpClause(e, ignoresCase, operators[i]);
      if clause.Err? {
        OpClausesFail(e, ignoresCase, operators, i);
        return Err(clause.error);
      }
      clauses := clauses + clause.value;
    }
    assert operators[..|operators|] == operators;
    return Ok(All(clauses));
  }

  /** The first operator that fails decides the error. */
  lemma {:induction false} OpClausesFail(e: Expr, ignoresCase: bool, ops: seq<OpArg>, i: nat)
    requires i < |ops| && OpClauses(e, ignoresCase, ops[..i]).Ok? && OpClause(e, ignoresCase, ops[i]).Err?
    ensures OpClauses(e, ignoresCase, ops) == Err(OpClause(e, ignoresCase, ops[i]).error)
    decreases |ops|
  {
    var init := ops[..|ops| - 1];
    if i < |init| {
      assert init[..i] == ops[..i];
      OpClausesFail(e, ignoresCase, init, i);
    }
  }

  method TranslateListCondition(schema: Schema, field: string, condition: Condition) returns (r: Result<Clause>)
    requires schema.IsList(field) && schema.fields[field].ScalarList?
    ensures r == FieldClause(schema, field, Simple(condition))
  {
    var operators := OpsOf(condition);
    var clauses := [];
    for i := 0 to |operators|
      invariant ListOpClauses(schema, field, operators[..i]) == Ok(clauses)
    {
      assert operators[..i + 1][..i] == operators[..i];
      var clause := ListOpClause(schema, field, operators[i]);
      if clause.Err? {
        ListOpClausesFail(schema, field, operators, i);
        return Err(clause.error);
      }
      clauses := clauses + [clause.value];
    }
    assert operators[..|operators|] == operators;
    return Ok(All(clauses));
  }

  lemma {:induction false} ListOpClausesFail(schema: Schema, field: string, ops: seq<OpArg>, i: nat)
    requires i < |ops| && ListOpClauses(schema, field, ops[..i]).Ok? && ListOpClause(schema, field, ops[i]).Err?
    ensures ListOpClauses(schema, field, ops) == Err(ListOpClause(schema, field, ops[i]).error)
    decreases |ops|
  {
    var init := ops[..|ops| - 1];
    if i < |init| {
      assert init[..i] == ops[..i];
      ListOpClausesFail(schema, field, init, i);
    }
  }

  method TranslateConditions(schema: Schema, f: Filter) returns (r: Result<Clause>)
    ensures r == Conditions(schema, f)
    decreases f, 0
  {
    var conditions := [];
    for i := 0 to |f.entries|
      invariant EntryClauses(schema, f.entries[..i]) == Ok(conditions)
    {
      assert f.entries[..i + 1][..i] == f.entries[..i];
      var clause: Result<Clause>;
      match f.entries[i] {
        case Logical(isAnd, items) =>
          var clauses := TranslateItems(schema, items);
          clause := if clauses.Err? then Err(clauses.error)
                    else Ok(if isAnd then All(clauses.value) else Any(clauses.value));
        case UnknownOperator(_) => clause := Err(QueryError);
        case OnField(field, Simple(condition)) =>
          if schema.IsList(field) && schema.fields[field].ScalarList? {
            clause := TranslateListCondition(schema, field, condition);
          } else if field in schema.fields && schema.fields[field].Column? {
            clause := GetComparisonClause(ColumnExpr(schema, field), condition, field in schema.ignoresCase);
          } else {
            clause := Err(QueryError);
          }
        case OnField(field, c) => clause := FieldClause(schema, field, c);
      }
      assert clause == EntryClause(schema, f.entries[i]);
      if clause.Err? {
        EntryClausesFail(schema, f.entries, i);
        return Err(clause.error);
      }
      conditions := conditions + [clause.value];
    }
    assert f.entries[..|f.entries|] == f.entries;
    return Ok(All([Constant(true)] + conditions));
  }

  lemma {:induction false} EntryClausesFail(schema: Schema, entries: seq<Entry>, i: nat)
    requires i < |entries| && EntryClauses(schema, entries[..i]).Ok? && EntryClause(schema, entries[i]).Err?
    ensures EntryClauses(schema, entries) == Err(EntryClause(schema, entries[i]).error)
    decreases |entries|
  {
    var init := entries[..|entries| - 1];
    if i < |init| {
      assert init[..i] == entries[..i];
      EntryClausesFail(schema, init, i);
    }
  }

  method TranslateItems(schema: Schema, items: seq<Filter>) returns (r: Result<seq<Clause>>)
    ensures r == FilterClauses(schema, items)
    decreases items, 1
  {
    var clauses := [];
    for i := 0 to |items|
      invariant FilterClauses(schema, items[..i]) == Ok(clauses)
    {
      assert items[..i + 1][..i] == items[..i];
      var clause := TranslateConditions(schema, items[i]);
      if clause.Err? {
        FilterClausesFail(schema, items, i);
        return Err(clause.error);
      }
      clauses := clauses + [clause.value];
    }
    assert items[..|items|] == items;
    return Ok(clauses);
  }

  lemma {:induction false} FilterClausesFail(schema: Schema, items: seq<Filter>, i: nat)
    requires i < |items| && FilterClauses(schema, items[..i]).Ok? && Conditions(schema, items[i]).Err?
    ensures FilterClauses(schema, items) == Err(Conditions(schema, items[i]).error)
    decreases |items|
  {
    var init := items[..|items| - 1];
    if i < |init| {
      assert init[..i] == items[..i];
      FilterClausesFail(schema, init, i);
    }
  }

  /** The WHERE clause of a checked filter: true of exactly the rows of the documents it matches. */
  method TranslateFilter(schema: Schema, f: Filter, now: Value) returns (r: Result<Clause>)
    requires now != Null
    ensures r == Where(schema, f, now)
    ensures r.Ok? && CheckFilter(schema, f).None? ==>
      forall t, row, doc | Represents(schema, t, row, doc) ::
        Selects(r.value, t, row) <==> Unexpired(schema, doc, now) && Matches(schema, f, doc)
  {
    var conditions := TranslateConditions(schema, f);
    if conditions.Err? {
      r := conditions;
    } else if schema.expires.None? {
      r := Ok(All([conditions.value]));
    } else {
      r := Ok(All([conditions.value, UnexpiredClause(schema.expires.value, now)]));
    }
    if r.Ok? && CheckFilter(schema, f).None? {
      forall t, row, doc | Represents(schema, t, row, doc)
        ensures Selects(r.value, t, row) <==> Unexpired(schema, doc, now) && Matches(schema, f, doc)
      {
        WhereIsExact(schema, f, now, t, row, doc);
      }
    }
  }
}
