/** The storage layer's query dialect: its filters, the check every filter passes, and what
    a filter means for a document. */
module Dialect {
  import opened Wrappers
  import opened Sequences
  import opened Values
  import opened TextSearch

  // ---- schemas and documents ----

  datatype Kind =
    | Column                             // a scalar, in a column of its own
    | JsonField(isModelList: bool)       // nested data, read and written whole
    | ScalarList                         // a list of scalars, in a child table
    | ModelList(fields: set<string>)     // a list of models with these fields, in a child table

  datatype Schema = Schema(
    key: string,
    fields: map<string, Kind>,
    isOpen: bool,                        // whether it allows fields it does not declare
    ignoresCase: set<string>,
    expires: Option<string>,
    unique: seq<seq<string>>)
  {
    /** What `_check_storage_spec` and the table builder demand, and a key compared as it is. */
    predicate Valid() {
      && (forall f :: f in fields ==> '.' !in f)
      && key in fields && fields[key] == Column && key !in ignoresCase
      && (expires.Some? ==> expires.value in fields && fields[expires.value] == Column)
    }

    predicate IsColumn(f: string) { f in fields && (fields[f].Column? || fields[f].JsonField?) }

    predicate IsList(f: string) { f in fields && (fields[f].ScalarList? || fields[f].ModelList?) }
  }

  datatype Element = Scalar(v: Value) | Model(cells: map<string, Value>)

  datatype Doc = Doc(cells: map<string, Value>, lists: map<string, seq<Element>>) {
    function Cell(f: string): Value { if f in cells then cells[f] else Null }
    function List(f: string): seq<Element> { if f in lists then lists[f] else [] }
  }

  predicate Unexpired(schema: Schema, doc: Doc, now: Value) {
    schema.expires.None?
    || doc.Cell(schema.expires.value) == Null
    || (SameType(now, doc.Cell(schema.expires.value)) && Below(now, doc.Cell(schema.expires.value)))
  }

  // ---- filters ----

  datatype Op = Eq | Ne | In | Nin | Gt | Gte | Lt | Lte | Regex | Options | Other(name: string)
  datatype Operand = One(v: Value) | Many(vs: seq<Value>)
  datatype OpArg = OpArg(op: Op, operand: Operand)

  /** A map of operators, which holds each operator once. */
  type OpMap = ops: seq<OpArg> | forall i, j :: 0 <= i < j < |ops| ==> ops[i].op != ops[j].op

  datatype Condition = Equals(operand: Operand) | Operators(ops: OpMap)
  datatype ElementEntry = ElementEntry(field: string, condition: Condition)

  datatype FieldCondition =
    | Simple(condition: Condition)
    | ElemMatch(entries: seq<ElementEntry>, others: seq<OpArg>)

  datatype Entry =
    | Logical(isAnd: bool, items: seq<Filter>)
    | UnknownOperator(name: string)
    | OnField(field: string, condition: FieldCondition)

  datatype Filter = Filter(entries: seq<Entry>)

  /** A value to equal is the operator `$eq` alone. */
  function OpsOf(c: Condition): (ops: OpMap) {
    match c
    case Equals(operand) => [OpArg(Eq, operand)]
    case Operators(ops) => ops
  }

  function KeyFilter(schema: Schema, key: Value): Filter {
    Filter([OnField(schema.key, Simple(Equals(One(key))))])
  }

  // ---- the check ----

  datatype Resolution = Missing | FreeForm | Declared(kind: Kind)

  /** The parts of a path before and after its first dot. */
  function SplitAtDot(path: string): (r: Option<(string, string)>) {
    if path == [] then None
    else if path[0] == '.' then Some(("", path[1..]))
    else match SplitAtDot(path[1..])
      case None => None
      case Some((head, rest)) => Some(([path[0]] + head, rest))
  }

  function Resolve(schema: Schema, path: string): Resolution {
    match SplitAtDot(path)
    case None =>
      if path in schema.fields then Declared(schema.fields[path])
      else if schema.isOpen then FreeForm else Missing
    case Some((head, rest)) =>
      if head !in schema.fields then (if schema.isOpen then FreeForm else Missing)
      else match schema.fields[head]
        case JsonField(_) => FreeForm
        case ModelList(fields) => if rest in fields then Declared(Column) else Missing
        case _ => Missing
  }

  predicate IsModelList(r: Resolution) {
    r.Declared? && (r.kind.ModelList? || r.kind == JsonField(true))
  }

  function Lookup(ops: seq<OpArg>, op: Op): (r: Option<Operand>)
    ensures r.Some? <==> exists i :: 0 <= i < |ops| && ops[i].op == op
  {
    if ops == [] then None
    else if ops[0].op == op then Some(ops[0].operand)
    else Lookup(ops[1..], op)
  }

  function CheckFilter(schema: Schema, f: Filter): Option<Error> {
    CheckEntries(schema, f.entries)
  }

  function CheckEntries(schema: Schema, entries: seq<Entry>): Option<Error> {
    if entries == [] then None
    else match CheckEntry(schema, entries[0])
      case Some(e) => Some(e)
      case None => CheckEntries(schema, entries[1..])
  }

  function CheckFilters(schema: Schema, items: seq<Filter>): Option<Error> {
    if items == [] then None
    else match CheckFilter(schema, items[0])
      case Some(e) => Some(e)
      case None => CheckFilters(schema, items[1..])
  }

  function CheckEntry(schema: Schema, entry: Entry): Option<Error> {
    match entry
    case Logical(_, items) => if items == [] then Some(QueryError) else CheckFilters(schema, items)
    case UnknownOperator(_) => Some(QueryError)
    case OnField(field, ElemMatch(entries, others)) =>
      if others != [] then Some(QueryError)
      else if Resolve(schema, field).Missing? then Some(UnknownField)
      else if !IsModelList(Resolve(schema, field)) || entries == [] then Some(QueryError)
      else CheckElementEntries(schema, field, entries)
    case OnField(field, Simple(condition)) =>
      if Resolve(schema, field).Missing? then Some(UnknownField)
      else if IsModelList(Resolve(schema, field)) then Some(QueryError)
      else CheckCondition(condition)
  }

  function CheckElementEntries(schema: Schema, field: string, entries: seq<ElementEntry>): Option<Error> {
    if entries == [] then None
    else if Resolve(schema, field + "." + entries[0].field).Missing? then Some(UnknownField)
    else match CheckCondition(entries[0].condition)
      case Some(e) => Some(e)
      case None => CheckElementEntries(schema, field, entries[1..])
  }

  function CheckCondition(c: Condition): Option<Error> {
    match c
    case Equals(_) => None
    case Operators(ops) =>
      if (Lookup(ops, Regex).Some? || Lookup(ops, Options).Some?) && !IsTextSearch(ops) then Some(QueryError)
      else if exists a :: a in ops && (a.op.Other? || (a.op in {In, Nin} && a.operand.One?)) then Some(QueryError)
      else None
  }

  /** `$regex` and `$options` together and alone: escaped text, in any case. */
  predicate IsTextSearch(ops: OpMap) {
    && (forall a :: a in ops ==> a.op in {Regex, Options})
    && Lookup(ops, Options) == Some(One(Text("i")))
    && Lookup(ops, Regex).Some?
    && Lookup(ops, Regex).value.One? && Lookup(ops, Regex).value.v.Text?
    && IsEscapedText(Lookup(ops, Regex).value.v.s)
  }

  // ---- the meaning ----

  /** Whether a field's value meets an operator, as MongoDB has it: None is a value to equal,
      and values of different types are neither below nor above each other. */
  ghost predicate OpHolds(v: Value, ignoresCase: bool, a: OpArg) {
    match a
    case OpArg(Eq, One(x)) => Fold(v, ignoresCase) == Fold(x, ignoresCase)
    case OpArg(Ne, One(x)) => Fold(v, ignoresCase) != Fold(x, ignoresCase)
    case OpArg(In, Many(xs)) => exists x :: x in xs && Fold(v, ignoresCase) == Fold(x, ignoresCase)
    case OpArg(Nin, Many(xs)) => forall x :: x in xs ==> Fold(v, ignoresCase) != Fold(x, ignoresCase)
    case OpArg(Gt, One(x)) => SameType(v, x) && Below(Fold(x, ignoresCase), Fold(v, ignoresCase))
    case OpArg(Lt, One(x)) => SameType(v, x) && Below(Fold(v, ignoresCase), Fold(x, ignoresCase))
    case OpArg(Gte, One(x)) => SameType(v, x) && !Below(Fold(v, ignoresCase), Fold(x, ignoresCase))
    case OpArg(Lte, One(x)) => SameType(v, x) && !Below(Fold(x, ignoresCase), Fold(v, ignoresCase))
    case OpArg(Regex, One(Text(p))) =>
      v.Text? && exists text :: p == ReEscape(text) && Contains(Lower(v.s), Lower(text))
    case OpArg(Options, _) => true
    case _ => false
  }

  ghost predicate ConditionHolds(v: Value, ignoresCase: bool, c: Condition) {
    forall a :: a in OpsOf(c) ==> OpHolds(v, ignoresCase, a)
  }

  /** Whether a list of scalars meets an operator: a value or `$in` matches a list that holds it. */
  ghost predicate ListOpHolds(es: seq<Element>, a: OpArg) {
    match a
    case OpArg(Eq, One(x)) => Scalar(x) in es
    case OpArg(Ne, One(x)) => Scalar(x) !in es
    case OpArg(In, Many(xs)) => exists x :: x in xs && Scalar(x) in es
    case OpArg(Nin, Many(xs)) => forall x :: x in xs ==> Scalar(x) !in es
    case _ => exists e :: e in es && e.Scalar? && OpHolds(e.v, false, a)
  }

  ghost predicate ElementHolds(e: Element, entries: seq<ElementEntry>) {
    e.Model? && forall x :: x in entries ==>
      ConditionHolds(if x.field in e.cells then e.cells[x.field] else Null, false, x.condition)
  }

  ghost predicate FieldHolds(schema: Schema, doc: Doc, field: string, c: FieldCondition) {
    field in schema.fields &&
    match c
    case ElemMatch(entries, _) => exists e :: e in doc.List(field) && ElementHolds(e, entries)
    case Simple(condition) =>
      match schema.fields[field]
      case Column => ConditionHolds(doc.Cell(field), field in schema.ignoresCase, condition)
      case ScalarList => forall a :: a in OpsOf(condition) ==> ListOpHolds(doc.List(field), a)
      case _ => false
  }

  ghost predicate Matches(schema: Schema, f: Filter, doc: Doc) {
    forall e :: e in f.entries ==> EntryMatches(schema, e, doc)
  }

  ghost predicate EntryMatches(schema: Schema, e: Entry, doc: Doc) {
    match e
    case Logical(true, items) => forall item :: item in items ==> Matches(schema, item, doc)
    case Logical(false, items) => exists item :: item in items && Matches(schema, item, doc)
    case UnknownOperator(_) => false
    case OnField(field, c) => FieldHolds(schema, doc, field, c)
  }
}
