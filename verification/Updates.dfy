/** The storage layer's update operators: their checks, what they mean for a document, and
    the column values and child-table writes SQL runs for them. */
module Updates {
  import opened Wrappers
  import opened Sequences
  import opened Values
  import opened Dialect
  import opened ListTables

  datatype UpdateOp = SetTo | SetOnInsert | Increment | AddElement | PullElement | OtherOp(name: string)

  /** What an operator writes: a value, a list, or a map of operators. */
  datatype Written = ToValue(v: Value) | ToList(es: seq<Element>) | ToOperators

  datatype Change = Change(op: UpdateOp, field: string, written: Written)

  /** The operators' changes, in order. */
  type Update = seq<Change>

  // ---- the checks ----

  function CheckUpdate(schema: Schema, u: Update): Option<Error> {
    if u == [] then Some(QueryError) else CheckChanges(schema, u)
  }

  function CheckChanges(schema: Schema, u: Update): Option<Error> {
    if u == [] then None
    else match CheckChange(schema, u[0])
      case Some(e) => Some(e)
      case None => CheckChanges(schema, u[1..])
  }

  function CheckChange(schema: Schema, c: Change): Option<Error> {
    if c.op.OtherOp? then Some(QueryError)
    else if Resolve(schema, c.field).Missing? then Some(UnknownField)
    else if c.op in {AddElement, PullElement} && IsModelList(Resolve(schema, c.field)) then Some(QueryError)
    else if c.op == Increment && !(c.written.ToValue? && c.written.v.Num?) then Some(QueryError)
    else if c.op == PullElement && c.written.ToOperators? then Some(QueryError)
    else None
  }

  /** The value the filter's own condition on the key makes it equal, if any. */
  function MatchedKey(schema: Schema, entries: seq<Entry>): Option<Operand> {
    if entries == [] then None
    else if entries[0].OnField? && entries[0].field == schema.key then
      match entries[0].condition
      case Simple(Equals(operand)) => Some(operand)
      case Simple(Operators(ops)) => Lookup(ops, Eq)
      case ElemMatch(_, _) => None
    else MatchedKey(schema, entries[1..])
  }

  function CheckKeyKept(schema: Schema, f: Filter, u: Update): Option<Error> {
    if exists c :: c in u && c.field == schema.key && c.op != SetOnInsert && !KeepsKey(schema, f, c)
    then Some(QueryError) else None
  }

  predicate KeepsKey(schema: Schema, f: Filter, c: Change) {
    && c.op == SetTo
    && MatchedKey(schema, f.entries).Some?
    && MatchedKey(schema, f.entries).value != One(Null)
    && c.written.ToValue?
    && MatchedKey(schema, f.entries).value == One(c.written.v)
  }

  // ---- the meaning ----

  function Plus(v: Value, n: real): Value {
    if v.Num? then Num(v.n + n) else Num(n)
  }

  /** One operator on a document; `$setOnInsert` changes no document there is. */
  function ApplyChange(doc: Doc, c: Change): Doc {
    match c
    case Change(SetTo, f, ToValue(v)) => doc.(cells := doc.cells[f := v])
    case Change(SetTo, f, ToList(es)) => doc.(lists := doc.lists[f := es])
    case Change(Increment, f, ToValue(Num(n))) => doc.(cells := doc.cells[f := Plus(doc.Cell(f), n)])
    case Change(AddElement, f, ToValue(v)) => doc.(lists := doc.lists[f := AddToSet(doc.List(f), Scalar(v))])
    case Change(PullElement, f, ToValue(v)) => doc.(lists := doc.lists[f := Pull(doc.List(f), Scalar(v))])
    case _ => doc
  }

  /** The operators one after another, as MongoDB has them. */
  function ApplyUpdate(doc: Doc, u: Update): Doc {
    if u == [] then doc else ApplyChange(ApplyUpdate(doc, u[..|u| - 1]), u[|u| - 1])
  }

  // ---- as SQL runs it ----

  datatype ColumnChange = Assign(v: Value) | Increase(n: real)

  datatype Changes = Changes(
    values: map<string, ColumnChange>,
    valuesOnInsert: map<string, Value>,
    replacements: map<string, seq<Element>>,
    additions: seq<(string, Value)>,
    removals: seq<(string, Value)>)

  const NO_CHANGES := Changes(map[], map[], map[], [], [])

  predicate IsScalarList(schema: Schema, f: string) { f in schema.fields && schema.fields[f].ScalarList? }

  /** The changes with one more; an operand the database cannot bind is an error. */
  function AddChange(schema: Schema, ch: Changes, c: Change): Result<Changes> {
    match c
    case Change(SetTo, f, w) =>
      if schema.IsList(f) then
        if w.ToList? then Ok(ch.(replacements := ch.replacements[f := w.es])) else Err(StorageError)
      else if !schema.IsColumn(f) then Err(QueryError)
      else if w.ToValue? then Ok(ch.(values := ch.values[f := Assign(w.v)])) else Err(StorageError)
    case Change(SetOnInsert, f, w) =>
      if !schema.IsColumn(f) then Err(QueryError)
      else if w.ToValue? then Ok(ch.(valuesOnInsert := ch.valuesOnInsert[f := w.v])) else Err(StorageError)
    case Change(Increment, f, w) =>
      if !(f in schema.fields && schema.fields[f].Column?) then Err(QueryError)
      else if w.ToValue? && w.v.Num? then Ok(ch.(values := ch.values[f := Increase(w.v.n)])) else Err(StorageError)
    case Change(AddElement, f, w) =>
      if !IsScalarList(schema, f) then Err(QueryError)
      else if w.ToValue? then Ok(ch.(additions := ch.additions + [(f, w.v)])) else Err(StorageError)
    case Change(PullElement, f, w) =>
      if !IsScalarList(schema, f) then Err(QueryError)
      else if w.ToValue? then Ok(ch.(removals := ch.removals + [(f, w.v)])) else Err(StorageError)
    case Change(OtherOp(_), _, _) => Ok(ch)
  }

  function ChangesOf(schema: Schema, u: Update): Result<Changes> {
    if u == [] then Ok(NO_CHANGES)
    else
      var init := ChangesOf(schema, u[..|u| - 1]);
      if init.Err? then init else AddChange(schema, init.value, u[|u| - 1])
  }

  method TranslateUpdate(schema: Schema, u: Update) returns (r: Result<Changes>)
    ensures r == ChangesOf(schema, u)
  {
    var changes := NO_CHANGES;
    for i := 0 to |u|
      invariant ChangesOf(schema, u[..i]) == Ok(changes)
    {
      assert u[..i + 1][..i] == u[..i];
      var next := AddChange(schema, changes, u[i]);
      if next.Err? {
        ChangesFail(schema, u, i);
        return next;
      }
      changes := next.value;
    }
    assert u[..|u|] == u;
    return Ok(changes);
  }

  lemma {:induction false} ChangesFail(schema: Schema, u: Update, i: nat)
    requires i < |u| && ChangesOf(schema, u[..i]).Ok? && AddChange(schema, ChangesOf(schema, u[..i]).value, u[i]).Err?
    ensures ChangesOf(schema, u) == AddChange(schema, ChangesOf(schema, u[..i]).value, u[i])
    decreases |u|
  {
    var init := u[..|u| - 1];
    if i < |init| {
      assert init[..i] == u[..i];
      ChangesFail(schema, init, i);
    }
  }

  function NewCell(ch: Changes, f: string, v: Value): Value {
    if f !in ch.values then v
    else match ch.values[f]
      case Assign(w) => w
      case Increase(n) => Plus(v, n)
  }

  function AddAll(additions: seq<(string, Value)>, f: string, list: seq<Element>): (r: seq<Element>) {
    if additions == [] then list
    else
      var init := AddAll(additions[..|additions| - 1], f, list);
      var last := additions[|additions| - 1];
      if last.0 == f then AddToSet(init, Scalar(last.1)) else init
  }

  function PullAll(removals: seq<(string, Value)>, f: string, list: seq<Element>): (r: seq<Element>) {
    if removals == [] then list
    else
      var init := PullAll(removals[..|removals| - 1], f, list);
      var last := removals[|removals| - 1];
      if last.0 == f then Pull(init, Scalar(last.1)) else init
  }

  function Replacement(ch: Changes, f: string, list: seq<Element>): seq<Element> {
    if f in ch.replacements then ch.replacements[f] else list
  }

  function NewList(ch: Changes, f: string, list: seq<Element>): (r: seq<Element>) {
    PullAll(ch.removals, f, AddAll(ch.additions, f, Replacement(ch, f, list)))
  }

  /** The document once its row and child rows have taken the changes: every column from the
      row as it was, then each list replaced, added to, and pulled from. */
  function ApplyChanges(doc: Doc, ch: Changes): (r: Doc) {
    Doc(map f | f in doc.cells :: NewCell(ch, f, doc.cells[f]),
        map f | f in doc.lists :: NewList(ch, f, doc.lists[f]))
  }

  /** The document has the schema's columns and lists, and no others. */
  ghost predicate Shaped(schema: Schema, doc: Doc) {
    && (forall f :: f in doc.cells <==> schema.IsColumn(f))
    && (forall f :: f in doc.lists <==> schema.IsList(f))
  }

  // ---- what SQL takes of what the check accepts ----

  /** Whether SQL can write a change: of a list to a list field, of an element to or from a list
      of scalars, of a number to a column, and of a value to any column, JSON whole included. */
  predicate IsWritable(schema: Schema, c: Change) {
    match c.op
    case SetTo => if schema.IsList(c.field) then c.written.ToList? else schema.IsColumn(c.field) && c.written.ToValue?
    case SetOnInsert => schema.IsColumn(c.field) && c.written.ToValue?
    case Increment => c.field in schema.fields && schema.fields[c.field].Column?
    case AddElement => IsScalarList(schema, c.field) && c.written.ToValue?
    case PullElement => IsScalarList(schema, c.field) && c.written.ToValue?
    case OtherOp(_) => false
  }

  lemma {:induction false} CheckedChanges(schema: Schema, u: Update)
    ensures CheckChanges(schema, u).None? <==> forall c :: c in u ==> CheckChange(schema, c).None?
  {
    if u != [] {
      CheckedChanges(schema, u[1..]);
      assert u == [u[0]] + u[1..];
    }
  }

  lemma {:induction false} ChangesOfWritable(schema: Schema, u: Update)
    requires forall c :: c in u ==> CheckChange(schema, c).None?
    ensures ChangesOf(schema, u).Ok? <==> forall c :: c in u ==> IsWritable(schema, c)
  {
    if u != [] {
      var init, last := u[..|u| - 1], u[|u| - 1];
      assert u == init + [last] && last in u;
      ChangesOfWritable(schema, init);
    }
  }

  /** Of an update that the check accepts, SQL refuses exactly those with a change it cannot
      write: into JSON, of a list on insert only, or of an element of what is no list of scalars. */
  lemma CheckedUpdateCompilesIff(schema: Schema, u: Update)
    requires CheckUpdate(schema, u).None?
    ensures ChangesOf(schema, u).Ok? <==> forall c :: c in u ==> IsWritable(schema, c)
  {
    CheckedChanges(schema, u);
    ChangesOfWritable(schema, u);
  }

  // ---- keys ----

  lemma {:induction false} MatchedKeyHolds(schema: Schema, entries: seq<Entry>, doc: Doc)
    requires schema.key in schema.fields && schema.fields[schema.key] == Column
    requires MatchedKey(schema, entries).Some? && MatchedKey(schema, entries).value.One?
    requires forall e :: e in entries ==> EntryMatches(schema, e, doc)
    ensures OpHolds(doc.Cell(schema.key), schema.key in schema.ignoresCase,
                    OpArg(Eq, MatchedKey(schema, entries).value))
  {
    var e := entries[0];
    if e.OnField? && e.field == schema.key {
      assert e in entries;
      var ops := OpsOf(e.condition.condition);
      if e.condition.condition.Operators? {
        LookupHolds(ops, Eq);
      }
      assert OpArg(Eq, MatchedKey(schema, entries).value) in ops;
    } else {
      MatchedKeyHolds(schema, entries[1..], doc);
    }
  }

  lemma {:induction false} LookupHolds(ops: seq<OpArg>, op: Op)
    requires Lookup(ops, op).Some?
    ensures OpArg(op, Lookup(ops, op).value) in ops
  {
    if ops[0].op != op {
      LookupHolds(ops[1..], op);
    }
  }

  lemma {:induction false} KeepingChangesKeepKey(schema: Schema, u: Update, doc: Doc)
    requires forall c :: c in u && c.field == schema.key && c.op != SetOnInsert ==>
               c.op == SetTo && c.written == ToValue(doc.Cell(schema.key))
    ensures ApplyUpdate(doc, u).Cell(schema.key) == doc.Cell(schema.key)
  {
    if u != [] {
      assert u[|u| - 1] in u;
      KeepingChangesKeepKey(schema, u[..|u| - 1], doc);
    }
  }

  /** Every accepted update keeps keys: whatever record the filter matches, its key stays. */
  lemma AcceptedUpdateKeepsKey(schema: Schema, f: Filter, u: Update, doc: Doc)
    requires schema.Valid()
    requires CheckKeyKept(schema, f, u).None? && Matches(schema, f, doc)
    ensures ApplyUpdate(doc, u).Cell(schema.key) == doc.Cell(schema.key)
  {
    forall c | c in u && c.field == schema.key && c.op != SetOnInsert
      ensures c.op == SetTo && c.written == ToValue(doc.Cell(schema.key))
    {
      assert KeepsKey(schema, f, c);
      MatchedKeyHolds(schema, f.entries, doc);
    }
    KeepingChangesKeepKey(schema, u, doc);
  }

  /** The check on its own is enough exactly for keys compared with their case: an accepted
      update of a record keyed "A" that the filter finds as "a" would move it. */
  lemma KeptExactlyIfCased(schema: Schema)
    requires schema.key in schema.fields && schema.fields[schema.key] == Column
    ensures schema.key !in schema.ignoresCase <==>
      forall f: Filter, u: Update, doc: Doc {:trigger CheckKeyKept(schema, f, u), Matches(schema, f, doc)} ::
        CheckKeyKept(schema, f, u).None? && Matches(schema, f, doc) ==>
        ApplyUpdate(doc, u).Cell(schema.key) == doc.Cell(schema.key)
  {
    if schema.key !in schema.ignoresCase {
      forall f: Filter, u: Update, doc: Doc | CheckKeyKept(schema, f, u).None? && Matches(schema, f, doc)
        ensures ApplyUpdate(doc, u).Cell(schema.key) == doc.Cell(schema.key)
      {
        forall c | c in u && c.field == schema.key && c.op != SetOnInsert
          ensures c.op == SetTo && c.written == ToValue(doc.Cell(schema.key))
        {
          assert KeepsKey(schema, f, c);
          MatchedKeyHolds(schema, f.entries, doc);
        }
        KeepingChangesKeepKey(schema, u, doc);
      }
    } else {
      var f := KeyFilter(schema, Text("a"));
      var change := Change(SetTo, schema.key, ToValue(Text("a")));
      var doc := Doc(map[schema.key := Text("A")], map[]);
      assert KeepsKey(schema, f, change);
      assert CheckKeyKept(schema, f, [change]).None?;
      assert Lower("A") == Lower("a");
      assert Matches(schema, f, doc);
      assert [change][..0] == [];
      assert ApplyUpdate(doc, []) == doc;
      assert ApplyUpdate(doc, [change]).Cell(schema.key) == Text("a");
    }
  }
}
