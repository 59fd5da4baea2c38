/** The compilation of filters to WHERE clauses. */
module SqlTranslate {
  import opened Wrappers
  import opened Sequences
  import opened Values
  import opened TextSearch
  import opened Dialect
  import opened Sql

  // ---- clauses on one expression ----

  function Known(vs: seq<Value>): (r: seq<Value>) { Kept(vs, v => v != Null) }

  function Folded(vs: seq<Value>, ignoresCase: bool): (r: seq<Value>) { Map(vs, v => Fold(v, ignoresCase)) }

  function EqualityClause(e: Expr, v: Value): Clause {
    if v == Null then IsNull(e) else Compare(Equal, e, Literal(v))
  }

  function InequalityClause(e: Expr, v: Value): Clause {
    if v == Null then IsNotNull(e) else Any([Compare(NotEqual, e, Literal(v)), IsNull(e)])
  }

  function AnyOfClause(e: Expr, vs: seq<Value>): Clause {
    var known := Known(vs);
    var clause := if known != [] then IsIn(e, known) else Constant(false);
    if |known| < |vs| then Any([clause, IsNull(e)]) else clause
  }

  function NoneOfClause(e: Expr, vs: seq<Value>): Clause {
    var known := Known(vs);
    var clause := if known != [] then IsNotIn(e, known) else Constant(true);
    if |known| < |vs| then All([clause, IsNotNull(e)]) else Any([clause, IsNull(e)])
  }

  function SubstringClause(e: Expr, text: string): Clause {
    ILike(e, SubstringPattern(text))
  }

  /** Whether a value can be ordered against: None and a boolean are for equality alone, and the
      library that builds the clauses raises for an order comparison with one. */
  predicate IsOrdered(v: Value) { !v.Null? && !v.Bool? }

  function OrderClause(op: Comparison, e: Expr, v: Value): Result<seq<Clause>> {
    if IsOrdered(v) then Ok([Compare(op, e, Literal(v))]) else Err(StorageError)
  }

  /** The clause of one operator; an operand no clause can be built with is an error. */
  function OpClause(e: Expr, ignoresCase: bool, a: OpArg): Result<seq<Clause>> {
    match a
    case OpArg(In, Many(vs)) => Ok([AnyOfClause(e, Folded(vs, ignoresCase))])
    case OpArg(Nin, Many(vs)) => Ok([NoneOfClause(e, Folded(vs, ignoresCase))])
    case OpArg(Eq, One(v)) => Ok([EqualityClause(e, Fold(v, ignoresCase))])
    case OpArg(Ne, One(v)) => Ok([InequalityClause(e, Fold(v, ignoresCase))])
    case OpArg(Gt, One(v)) => OrderClause(Greater, e, Fold(v, ignoresCase))
    case OpArg(Gte, One(v)) => OrderClause(GreaterEqual, e, Fold(v, ignoresCase))
    case OpArg(Lt, One(v)) => OrderClause(Less, e, Fold(v, ignoresCase))
    case OpArg(Lte, One(v)) => OrderClause(LessEqual, e, Fold(v, ignoresCase))
    case OpArg(Regex, One(Text(p))) => Ok([SubstringClause(e, SearchedText(p))])
    case OpArg(Options, _) => Ok([])
    case OpArg(Other(_), _) => Ok([])
    case _ => Err(StorageError)
  }

  function OpClauses(e: Expr, ignoresCase: bool, ops: seq<OpArg>): Result<seq<Clause>> {
    if ops == [] then Ok([])
    else
      var init := OpClauses(e, ignoresCase, ops[..|ops| - 1]);
      if init.Err? then init
      else
        var last := OpClause(e, ignoresCase, ops[|ops| - 1]);
        if last.Err? then last else Ok(init.value + last.value)
  }

  function ComparisonClause(e: Expr, ignoresCase: bool, c: Condition): Result<Clause> {
    var clauses := OpClauses(e, ignoresCase, OpsOf(c));
    if clauses.Err? then Err(clauses.error) else Ok(All(clauses.value))
  }

  // ---- clauses on a list ----

  function MembershipClause(schema: Schema, field: string, vs: seq<Value>): Clause {
    var known := Known(vs);
    if known == [] then Constant(false)
    else Exists(field, [Compare(Equal, ChildParent, Cell(schema.key)), IsIn(ChildValue, known)])
  }

  function ListOpClause(schema: Schema, field: string, a: OpArg): Result<Clause> {
    match a
    case OpArg(Eq, One(v)) => Ok(MembershipClause(schema, field, [v]))
    case OpArg(Ne, One(v)) => Ok(Not(MembershipClause(schema, field, [v])))
    case OpArg(In, Many(vs)) => Ok(MembershipClause(schema, field, vs))
    case OpArg(Nin, Many(vs)) => Ok(Not(MembershipClause(schema, field, vs)))
    case _ => Err(QueryError)
  }

  function ListOpClauses(schema: Schema, field: string, ops: seq<OpArg>): Result<seq<Clause>> {
    if ops == [] then Ok([])
    else
      var init := ListOpClauses(schema, field, ops[..|ops| - 1]);
      if init.Err? then init
      else
        var last := ListOpClause(schema, field, ops[|ops| - 1]);
        if last.Err? then Err(last.error) else Ok(init.value + [last.value])
  }

  function ElementClauses(entries: seq<ElementEntry>): Result<seq<Clause>> {
    if entries == [] then Ok([])
    else
      var init := ElementClauses(entries[..|entries| - 1]);
      if init.Err? then init
      else
        var x := entries[|entries| - 1];
        var last := ComparisonClause(ChildCell(x.field), false, x.condition);
        if last.Err? then Err(last.error) else Ok(init.value + [last.value])
  }

  function ElementMatchClause(schema: Schema, field: string, entries: seq<ElementEntry>): Result<Clause> {
    var clauses := ElementClauses(entries);
    if clauses.Err? then Err(clauses.error)
    else Ok(Exists(field, [Compare(Equal, ChildParent, Cell(schema.key))] + clauses.value))
  }

  // ---- whole filters ----

  function ColumnExpr(schema: Schema, field: string): Expr {
    if field in schema.ignoresCase then LowerOf(Cell(field)) else Cell(field)
  }

  function FieldClause(schema: Schema, field: string, c: FieldCondition): Result<Clause> {
    if field !in schema.fields then Err(QueryError)    // dotted, or without a column
    else match (schema.fields[field], c)
      case (ScalarList, Simple(condition)) =>
        var clauses := ListOpClauses(schema, field, OpsOf(condition));
        if clauses.Err? then Err(clauses.error) else Ok(All(clauses.value))
      case (ModelList(_), ElemMatch(entries, others)) =>
        if others != [] then Err(QueryError) else ElementMatchClause(schema, field, entries)
      case (Column, Simple(condition)) =>
        ComparisonClause(ColumnExpr(schema, field), field in schema.ignoresCase, condition)
      case _ => Err(QueryError)
  }

  function EntryClause(schema: Schema, e: Entry): Result<Clause> {
    match e
    case Logical(isAnd, items) =>
      var clauses := FilterClauses(schema, items);
      if clauses.Err? then Err(clauses.error)
      else Ok(if isAnd then All(clauses.value) else Any(clauses.value))
    case UnknownOperator(_) => Err(QueryError)
    case OnField(field, c) => FieldClause(schema, field, c)
  }

  function EntryClauses(schema: Schema, entries: seq<Entry>): Result<seq<Clause>> {
    if entries == [] then Ok([])
    else
      var init := EntryClauses(schema, entries[..|entries| - 1]);
      if init.Err? then init
      else
        var last := EntryClause(schema, entries[|entries| - 1]);
        if last.Err? then Err(last.error) else Ok(init.value + [last.value])
  }

  function FilterClauses(schema: Schema, items: seq<Filter>): Result<seq<Clause>> {
    if items == [] then Ok([])
    else
      var init := FilterClauses(schema, items[..|items| - 1]);
      if init.Err? then init
      else
        var last := Conditions(schema, items[|items| - 1]);
        if last.Err? then Err(last.error) else Ok(init.value + [last.value])
  }

  function Conditions(schema: Schema, f: Filter): Result<Clause> {
    var clauses := EntryClauses(schema, f.entries);
    if clauses.Err? then Err(clauses.error) else Ok(All([Constant(true)] + clauses.value))
  }

  function UnexpiredClause(field: string, now: Value): Clause {
    Any([IsNull(Cell(field)), Compare(Greater, Cell(field), Literal(now))])
  }

  function Where(schema: Schema, f: Filter, now: Value): Result<Clause> {
    var conditions := Conditions(schema, f);
    if conditions.Err? then conditions
    else if schema.expires.None? then Ok(All([conditions.value]))
    else Ok(All([conditions.value, UnexpiredClause(schema.expires.value, now)]))
  }
}
