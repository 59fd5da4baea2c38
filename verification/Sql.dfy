/** Tables, and WHERE clauses as SQL evaluates them, in three-valued logic
    (ISO/IEC 9075-2, section 8.2 for comparisons with null and section 8.5 for LIKE). */
module Sql {
  import opened Wrappers
  import opened Values
  import opened TextSearch
  import opened Dialect

  /** A row of a schema's table: its row_id, and its columns. */
  datatype Row = Row(id: nat, cells: map<string, Value>) {
    function Cell(f: string): Value { if f in cells then cells[f] else Null }
  }

  /** A row of a list field's child table. */
  datatype ChildRow = ChildRow(parent: Value, position: nat, element: Element)

  /** A schema's table, in the order of its row_ids, and the child tables of its list fields. */
  datatype Tables = Tables(rows: seq<Row>, children: map<string, seq<ChildRow>>, nextId: nat) {
    function Children(f: string): seq<ChildRow> { if f in children then children[f] else [] }
  }

  datatype Expr =
    | Cell(column: string)
    | LowerOf(e: Expr)
    | Literal(v: Value)
    | ChildParent                    // the columns of the child row of the enclosing EXISTS
    | ChildValue
    | ChildCell(column: string)

  datatype Comparison = Equal | NotEqual | Greater | GreaterEqual | Less | LessEqual

  datatype Clause =
    | Constant(b: bool)
    | All(cs: seq<Clause>)
    | Any(cs: seq<Clause>)
    | Not(c: Clause)
    | IsNull(e: Expr)
    | IsNotNull(e: Expr)
    | Compare(op: Comparison, left: Expr, right: Expr)
    | IsIn(e: Expr, vs: seq<Value>)
    | IsNotIn(e: Expr, vs: seq<Value>)
    | ILike(e: Expr, pattern: string)
    | Exists(list: string, cs: seq<Clause>)

  datatype Tri = True | False | Unknown

  function Truth(b: bool): Tri { if b then True else False }

  function Negation(t: Tri): Tri {
    match t
    case True => False
    case False => True
    case Unknown => Unknown
  }

  function ExprValue(e: Expr, row: Row, child: Option<ChildRow>): Value {
    match e
    case Cell(c) => row.Cell(c)
    case LowerOf(inner) => Fold(ExprValue(inner, row, child), true)
    case Literal(v) => v
    case ChildParent => if child.Some? then child.value.parent else Null
    case ChildValue => if child.Some? && child.value.element.Scalar? then child.value.element.v else Null
    case ChildCell(c) =>
      if child.Some? && child.value.element.Model? && c in child.value.element.cells
      then child.value.element.cells[c] else Null
  }

  /** A comparison with null is unknown; one of different types, which no typed column sees, is false. */
  function CompareValues(op: Comparison, a: Value, b: Value): Tri {
    if a == Null || b == Null then Unknown
    else match op
      case Equal => Truth(a == b)
      case NotEqual => Truth(a != b)
      case Greater => Truth(SameType(a, b) && Below(b, a))
      case GreaterEqual => Truth(SameType(a, b) && !Below(a, b))
      case Less => Truth(SameType(a, b) && Below(a, b))
      case LessEqual => Truth(SameType(a, b) && !Below(b, a))
  }

  /** `a IN vs` is a chain of equalities under OR. */
  function InValues(a: Value, vs: seq<Value>): Tri {
    if exists v :: v in vs && CompareValues(Equal, a, v) == True then True
    else if forall v :: v in vs ==> CompareValues(Equal, a, v) == False then False
    else Unknown
  }

  function Eval(c: Clause, t: Tables, row: Row, child: Option<ChildRow>): Tri {
    match c
    case Constant(b) => Truth(b)
    case All(cs) =>
      if exists x :: x in cs && Eval(x, t, row, child) == False then False
      else if forall x :: x in cs ==> Eval(x, t, row, child) == True then True
      else Unknown
    case Any(cs) =>
      if exists x :: x in cs && Eval(x, t, row, child) == True then True
      else if forall x :: x in cs ==> Eval(x, t, row, child) == False then False
      else Unknown
    case Not(x) => Negation(Eval(x, t, row, child))
    case IsNull(e) => Truth(ExprValue(e, row, child) == Null)
    case IsNotNull(e) => Truth(ExprValue(e, row, child) != Null)
    case Compare(op, l, r) => CompareValues(op, ExprValue(l, row, child), ExprValue(r, row, child))
    case IsIn(e, vs) => InValues(ExprValue(e, row, child), vs)
    case IsNotIn(e, vs) => Negation(InValues(ExprValue(e, row, child), vs))
    case ILike(e, pattern) =>
      var v := ExprValue(e, row, child);
      if v == Null then Unknown else Truth(v.Text? && Like(Lower(v.s), Lower(pattern)))
    case Exists(list, cs) =>
      // a subquery has a row or has none, so EXISTS is never unknown
      Truth(exists r :: r in t.Children(list) && forall x :: x in cs ==> Eval(x, t, row, Some(r)) == True)
  }

  /** The rows a WHERE clause selects are those it is true of; unknown selects no row. */
  predicate Selects(c: Clause, t: Tables, row: Row) {
    Eval(c, t, row, None) == True
  }
}
