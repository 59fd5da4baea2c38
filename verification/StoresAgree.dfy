/** One dialect over two stores: the WHERE clause selects the row of a document exactly when the
    MongoDB query finds it there. */
module StoresAgree {
  import opened Wrappers
  import V = Values
  import opened Dialect
  import S = Sql
  import opened SqlTranslate
  import Q = QueryMeaning
  import R = SqlRefusals
  import M = MongoEncoding
  import N = MongoQueries
  import C = MongoCollation

  // ---- the same document and filter, as MongoDB's ----

  function FromValue(v: V.Value): (r: M.Data)
    ensures !r.List?
  {
    match v
    case Null => M.Null
    case Bool(b) => M.Bool(b)
    case Num(n) => M.Num(n)
    case Text(s) => M.Text(s)
    case Json(j) => M.Dict(map["json" := M.Text(j)])
  }

  function FromElement(e: Element): (r: M.Data)
    ensures !r.List?
  {
    match e
    case Scalar(v) => FromValue(v)
    case Model(cells) => M.Dict(map f | f in cells :: FromValue(cells[f]))
  }

  function FromList(es: seq<Element>): M.Data {
    M.List(seq(|es|, i requires 0 <= i < |es| => FromElement(es[i])))
  }

  function FromDoc(doc: Doc): map<string, M.Data> {
    map f | f in doc.cells.Keys + doc.lists.Keys :: if f in doc.lists then FromList(doc.lists[f]) else FromValue(doc.cells[f])
  }

  function FromOperand(o: Operand): M.Data {
    match o
    case One(v) => FromValue(v)
    case Many(vs) => M.List(seq(|vs|, i requires 0 <= i < |vs| => FromValue(vs[i])))
  }

  function FromCondition(c: Condition): N.Condition {
    match c
    case Equals(operand) => N.Equals(FromOperand(operand))
    case Operators(ops) =>
      N.Operators(seq(|ops|, i requires 0 <= i < |ops| => N.Operator(ops[i].op, FromOperand(ops[i].operand))))
  }

  function FromElementEntries(entries: seq<ElementEntry>): (r: seq<N.ElementEntry>)
    ensures |r| == |entries|
    ensures forall i :: 0 <= i < |r| ==> r[i] == N.ElementEntry(entries[i].field, FromCondition(entries[i].condition))
  {
    seq(|entries|, i requires 0 <= i < |entries| => N.ElementEntry(entries[i].field, FromCondition(entries[i].condition)))
  }

  function FromEntry(e: Entry): N.Entry {
    match e
    case Logical(isAnd, items) => N.Logical(isAnd, seq(|items|, i requires 0 <= i < |items| => FromFilter(items[i])))
    case UnknownOperator(_) => N.Logical(false, [])
    case OnField(field, Simple(c)) => N.OnField(field, FromCondition(c))
    case OnField(field, ElemMatch(entries, _)) => N.OnElements(field, FromElementEntries(entries))
  }

  function FromFilter(f: Filter): N.Query {
    N.Query(seq(|f.entries|, i requires 0 <= i < |f.entries| => FromEntry(f.entries[i])))
  }

  // ---- as the query compares them ----

  function View(folds: bool, v: M.Data): M.Data { if folds then C.Collate(v) else v }

  function ViewOperator(folds: bool, o: N.Operator): N.Operator { if folds then C.CollateOperator(o) else o }

  function ViewCondition(folds: bool, c: N.Condition): N.Condition { if folds then C.CollateCondition(c) else c }

  function ViewElements(folds: bool, entries: seq<N.ElementEntry>): (r: seq<N.ElementEntry>)
    ensures |r| == |entries|
    ensures forall i :: 0 <= i < |r| ==> r[i] == N.ElementEntry(entries[i].field, ViewCondition(folds, entries[i].condition))
  {
    if folds then C.CollateElements(entries) else entries
  }

  function ViewEntry(folds: bool, e: N.Entry): N.Entry { if folds then C.CollateEntry(e) else e }

  function ViewQuery(folds: bool, q: N.Query): N.Query { if folds then C.CollateQuery(q) else q }

  function ViewDoc(folds: bool, doc: Doc): map<string, M.Data> {
    if folds then C.CollateFields(FromDoc(doc)) else FromDoc(doc)
  }

  // ---- what the schema's types say ----

  predicate AreUndotted(schema: Schema) {
    forall f :: f in schema.fields && schema.fields[f].ModelList? ==> forall g :: g in schema.fields[f].fields ==> '.' !in g
  }

  /** Fields named without dots, and columns without JSON. */
  ghost predicate Comparable(schema: Schema, doc: Doc) {
    && schema.Valid()
    && AreUndotted(schema)
    && (forall f :: f in doc.cells ==> schema.IsColumn(f))
    && (forall f :: f in doc.lists ==> schema.IsList(f))
    && (forall f :: f in schema.fields && schema.fields[f].Column? ==> !doc.Cell(f).Json?)
    && (forall f, e :: schema.IsList(f) && e in doc.List(f) ==>
          (if schema.fields[f].ScalarList? then e.Scalar? && !e.v.Null?
           else e.Model? && forall g :: g in e.cells ==> !e.cells[g].Json?))
    && (forall f :: schema.IsList(f) ==> f in doc.lists)
  }

  // ---- where the case of a text does not matter ----

  predicate IsLetter(c: char) { 'A' <= c <= 'Z' || 'a' <= c <= 'z' }

  predicate HasNoLetters(s: string) { forall i :: 0 <= i < |s| ==> !IsLetter(s[i]) }

  predicate IsCaseless(v: V.Value) { (v.Text? ==> HasNoLetters(v.s)) && (v.Json? ==> HasNoLetters(v.j)) }

  /** Operands that the collation compares as SQL does with their case: texts only for equality, and
      those without a letter. */
  predicate IsCaselessArg(a: OpArg) {
    match a
    case OpArg(Regex, _) => true
    case OpArg(Options, _) => true
    case OpArg(_, Many(vs)) => forall v :: v in vs ==> IsCaseless(v)
    case OpArg(_, One(v)) => IsCaseless(v) && (a.op in {Eq, Ne} || !v.Text?)
  }

  predicate IsCaselessCondition(c: Condition) { forall a :: a in OpsOf(c) ==> IsCaselessArg(a) }

  /** Whether the filter names a field compared without case, which makes MongoDB compare all of it
      without case. */
  predicate IsCollated(schema: Schema, f: Filter) {
    exists e :: e in f.entries && IsCollatedEntry(schema, e)
  }

  predicate IsCollatedEntry(schema: Schema, e: Entry) {
    match e
    case Logical(_, items) => exists item :: item in items && IsCollated(schema, item)
    case UnknownOperator(_) => false
    case OnField(field, _) => field in schema.ignoresCase
  }

  /** Whether it makes no difference to the rest of the filter that all of it is compared so. */
  predicate IsUniform(schema: Schema, f: Filter) {
    forall e :: e in f.entries ==> IsUniformEntry(schema, e)
  }

  predicate IsUniformEntry(schema: Schema, e: Entry) {
    match e
    case Logical(_, items) => forall item :: item in items ==> IsUniform(schema, item)
    case UnknownOperator(_) => true
    case OnField(field, Simple(c)) =>
      (field in schema.ignoresCase && field in schema.fields && schema.fields[field].Column?) || IsCaselessCondition(c)
    case OnField(_, ElemMatch(entries, _)) => forall x :: x in entries ==> IsCaselessCondition(x.condition)
  }

  lemma LettersAlone(s: string, t: string)
    requires HasNoLetters(t)
    ensures V.Lower(s) == V.Lower(t) <==> s == t
  {
    assert forall i :: 0 <= i < |t| ==> V.Lower(t)[i] == t[i];
    if V.Lower(s) == V.Lower(t) {
      assert forall i :: 0 <= i < |s| ==> V.Lower(s)[i] == t[i] && !IsLetter(t[i]);
      assert forall i :: 0 <= i < |s| ==> s[i] == t[i];
    }
  }

  // ---- one operator ----

  /** Whether a field's value and an operand are compared alike: with the collation if the column is
      compared without case, and else without it unless it makes no difference. */
  ghost predicate IsAlike(folds: bool, ignoresCase: bool, x: V.Value) {
    (ignoresCase ==> folds) && (folds && !ignoresCase ==> IsCaseless(x))
  }

  lemma EqualityAgrees(folds: bool, ignoresCase: bool, v: V.Value, x: V.Value)
    requires IsAlike(folds, ignoresCase, x) && (ignoresCase ==> !v.Json?)
    ensures View(folds, FromValue(v)) == View(folds, FromValue(x)) <==> V.Fold(v, ignoresCase) == V.Fold(x, ignoresCase)
  {
    match (v, x)
    case (Text(s), Text(t)) => if folds && !ignoresCase { LettersAlone(s, t); }
    case (Json(s), Json(t)) =>
      JsonAgrees(folds, s, t);
      if folds { LettersAlone(s, t); }
    case _ =>
  }

  lemma JsonAgrees(folds: bool, s: string, t: string)
    ensures View(folds, FromValue(V.Json(s))) == View(folds, FromValue(V.Json(t)))
            <==> if folds then V.Lower(s) == V.Lower(t) else s == t
  {
    var a, b := View(folds, FromValue(V.Json(s))), View(folds, FromValue(V.Json(t)));
    assert a.fields["json"] == View(folds, M.Text(s)) && b.fields["json"] == View(folds, M.Text(t));
    assert a.fields.Keys == {"json"} && b.fields.Keys == {"json"};
    if a.fields["json"] == b.fields["json"] {
      assert a.fields == b.fields;
    }
  }

  lemma OrderAgrees(folds: bool, ignoresCase: bool, v: V.Value, x: V.Value)
    requires (ignoresCase ==> folds) && (folds && !ignoresCase ==> !x.Text?) && !v.Json?
    ensures N.Less(View(folds, FromValue(v)), View(folds, FromValue(x)))
            <==> V.SameType(v, x) && V.Below(V.Fold(v, ignoresCase), V.Fold(x, ignoresCase))
    ensures N.Less(View(folds, FromValue(x)), View(folds, FromValue(v)))
            <==> V.SameType(v, x) && V.Below(V.Fold(x, ignoresCase), V.Fold(v, ignoresCase))
  {
  }

  lemma ManyAgree(folds: bool, vs: seq<V.Value>, y: M.Data)
    ensures y in View(folds, FromOperand(Many(vs))).items <==> exists v :: v in vs && y == View(folds, FromValue(v))
  {
    var items := View(folds, FromOperand(Many(vs))).items;
    assert |items| == |vs| && forall i :: 0 <= i < |vs| ==> items[i] == View(folds, FromValue(vs[i]));
    if y in items {
      var i :| 0 <= i < |items| && items[i] == y;
      assert vs[i] in vs;
    }
    if v :| v in vs && y == View(folds, FromValue(v)) {
      var i :| 0 <= i < |vs| && vs[i] == v;
      assert items[i] == y;
    }
  }

  lemma MeetsOne(x: M.Data, o: N.Operator)
    ensures (exists y :: y in iset{x} && N.Meets(o, y)) <==> N.Meets(o, x)
  {
  }

  function Theirs(folds: bool, a: OpArg): N.Operator { ViewOperator(folds, N.Operator(a.op, FromOperand(a.operand))) }

  lemma InequalityAgrees(folds: bool, ignoresCase: bool, v: V.Value, a: OpArg)
    requires a.op in {Gt, Gte, Lt, Lte} && R.IsColumnOp(a) && !v.Json?
    requires (ignoresCase ==> folds) && (folds && !ignoresCase ==> IsCaselessArg(a))
    ensures N.Holds(iset{View(folds, FromValue(v))}, Theirs(folds, a)) <==> OpHolds(v, ignoresCase, a)
  {
    var x := a.operand.v;
    MeetsOne(View(folds, FromValue(v)), Theirs(folds, a));
    OrderAgrees(folds, ignoresCase, v, x);
    EqualityAgrees(folds, ignoresCase, v, x);
    V.BelowTotal(V.Fold(v, ignoresCase), V.Fold(x, ignoresCase));
  }

  lemma SearchAgrees(folds: bool, ignoresCase: bool, v: V.Value, p: string)
    ensures N.Holds(iset{View(folds, FromValue(v))}, Theirs(folds, OpArg(Regex, One(V.Text(p)))))
            <==> OpHolds(v, ignoresCase, OpArg(Regex, One(V.Text(p))))
  {
    MeetsOne(View(folds, FromValue(v)), Theirs(folds, OpArg(Regex, One(V.Text(p)))));
    C.SearchesAnyCase(M.Text(p), FromValue(v));
  }

  lemma MembershipAgrees(folds: bool, ignoresCase: bool, v: V.Value, vs: seq<V.Value>)
    requires (forall x :: x in vs ==> IsAlike(folds, ignoresCase, x)) && (ignoresCase ==> !v.Json?)
    ensures (exists y :: y in View(folds, FromOperand(Many(vs))).items && y in iset{View(folds, FromValue(v))})
            <==> exists x :: x in vs && V.Fold(v, ignoresCase) == V.Fold(x, ignoresCase)
  {
    ManyAgree(folds, vs, View(folds, FromValue(v)));
    forall x | x in vs
      ensures View(folds, FromValue(v)) == View(folds, FromValue(x)) <==> V.Fold(v, ignoresCase) == V.Fold(x, ignoresCase)
    {
      EqualityAgrees(folds, ignoresCase, v, x);
    }
  }

  /** An operator on a column's one value means what MongoDB has it mean. */
  lemma OperatorAgrees(folds: bool, ignoresCase: bool, v: V.Value, a: OpArg)
    requires !v.Json? && Q.IsChecked(a) && R.IsColumnOp(a)
    requires (ignoresCase ==> folds) && (folds && !ignoresCase ==> IsCaselessArg(a))
    ensures N.Holds(iset{View(folds, FromValue(v))}, Theirs(folds, a)) <==> OpHolds(v, ignoresCase, a)
  {
    assert Theirs(folds, a).op == a.op;
    assert a.op !in {Regex, Options} ==> Theirs(folds, a).operand == View(folds, FromOperand(a.operand));
    match a
    case OpArg(Eq, One(x)) => EqualityAgrees(folds, ignoresCase, v, x);
    case OpArg(Ne, One(x)) => EqualityAgrees(folds, ignoresCase, v, x);
    case OpArg(In, Many(vs)) => MembershipAgrees(folds, ignoresCase, v, vs);
    case OpArg(Nin, Many(vs)) => MembershipAgrees(folds, ignoresCase, v, vs);
    case OpArg(Options, _) =>
    case OpArg(Regex, One(Text(p))) => SearchAgrees(folds, ignoresCase, v, p);
    case OpArg(_, One(_)) => InequalityAgrees(folds, ignoresCase, v, a);
  }

  /** Whether MongoDB's form of every operator holds of the values seen. */
  ghost predicate AllHold(folds: bool, seen: iset<M.Data>, ops: seq<OpArg>) {
    forall a :: a in ops ==> N.Holds(seen, Theirs(folds, a))
  }

  lemma ConditionHoldsInAll(folds: bool, seen: iset<M.Data>, c: Condition)
    ensures N.ConditionHolds(seen, ViewCondition(folds, FromCondition(c))) <==> AllHold(folds, seen, OpsOf(c))
  {
    match c
    case Equals(operand) =>
      assert OpsOf(c) == [OpArg(Eq, operand)];
      assert AllHold(folds, seen, [OpArg(Eq, operand)]) <==> N.Holds(seen, Theirs(folds, OpArg(Eq, operand))) by {
        assert [OpArg(Eq, operand)][0] == OpArg(Eq, operand);
      }
      assert ViewCondition(folds, FromCondition(c)) == N.Equals(View(folds, FromOperand(operand)));
    case Operators(ops) =>
      var theirs := ViewCondition(folds, FromCondition(c)).ops;
      assert |theirs| == |ops| && forall i :: 0 <= i < |ops| ==> theirs[i] == Theirs(folds, ops[i]);
      if AllHold(folds, seen, ops) {
        forall i | 0 <= i < |ops| ensures N.Holds(seen, theirs[i]) {
          assert ops[i] in ops;
        }
      }
  }

  lemma ConditionAgrees(folds: bool, ignoresCase: bool, v: V.Value, c: Condition)
    requires !v.Json? && CheckCondition(c).None? && R.IsColumnCondition(c)
    requires (ignoresCase ==> folds) && (folds && !ignoresCase ==> IsCaselessCondition(c))
    ensures N.ConditionHolds(iset{View(folds, FromValue(v))}, ViewCondition(folds, FromCondition(c)))
            <==> ConditionHolds(v, ignoresCase, c)
  {
    Q.CheckedCondition(c);
    ConditionHoldsInAll(folds, iset{View(folds, FromValue(v))}, c);
    forall a | a in OpsOf(c)
      ensures N.Holds(iset{View(folds, FromValue(v))}, Theirs(folds, a)) <==> OpHolds(v, ignoresCase, a)
    {
      OperatorAgrees(folds, ignoresCase, v, a);
    }
  }

  // ---- lists ----

  lemma SeenOfValue(x: M.Data)
    requires !x.List?
    ensures N.Seen(iset{x}) == iset{x}
  {
  }

  lemma SeenOfList(folds: bool, es: seq<Element>, v: V.Value)
    requires (forall e :: e in es ==> e.Scalar?) && (folds ==> IsCaseless(v))
    ensures View(folds, FromValue(v)) in N.Seen(iset{View(folds, FromList(es))}) <==> Scalar(v) in es
  {
    var l, x := View(folds, FromList(es)), View(folds, FromValue(v));
    assert |l.items| == |es| && forall i :: 0 <= i < |es| ==> l.items[i] == View(folds, FromElement(es[i]));
    assert x in N.Seen(iset{l}) <==> x in l.items;
    if x in l.items {
      var i :| 0 <= i < |es| && l.items[i] == x;
      EqualityAgrees(folds, false, es[i].v, v);
      assert es[i] in es;
    }
    if Scalar(v) in es {
      var i :| 0 <= i < |es| && es[i] == Scalar(v);
      assert l.items[i] == x;
    }
  }

  lemma ListMembershipAgrees(folds: bool, es: seq<Element>, vs: seq<V.Value>)
    requires (forall e :: e in es ==> e.Scalar?) && (folds ==> forall v :: v in vs ==> IsCaseless(v))
    ensures (exists y :: y in View(folds, FromOperand(Many(vs))).items && y in N.Seen(iset{View(folds, FromList(es))}))
            <==> exists v :: v in vs && Scalar(v) in es
  {
    var items, seen := View(folds, FromOperand(Many(vs))).items, N.Seen(iset{View(folds, FromList(es))});
    if y :| y in items && y in seen {
      ManyAgree(folds, vs, y);
      var v :| v in vs && y == View(folds, FromValue(v));
      SeenOfList(folds, es, v);
    }
    if v :| v in vs && Scalar(v) in es {
      SeenOfList(folds, es, v);
      ManyAgree(folds, vs, View(folds, FromValue(v)));
    }
  }

  lemma ListOpAgrees(folds: bool, es: seq<Element>, a: OpArg)
    requires (forall e :: e in es ==> e.Scalar?) && R.IsListOp(a) && (folds ==> IsCaselessArg(a))
    ensures N.Holds(N.Seen(iset{View(folds, FromList(es))}), Theirs(folds, a)) <==> ListOpHolds(es, a)
  {
    match a
    case OpArg(_, One(v)) => SeenOfList(folds, es, v);
    case OpArg(_, Many(vs)) => ListMembershipAgrees(folds, es, vs);
  }

  lemma ListConditionAgrees(folds: bool, es: seq<Element>, c: Condition)
    requires (forall e :: e in es ==> e.Scalar?) && (folds ==> IsCaselessCondition(c))
    requires forall a :: a in OpsOf(c) ==> R.IsListOp(a)
    ensures N.ConditionHolds(N.Seen(iset{View(folds, FromList(es))}), ViewCondition(folds, FromCondition(c)))
            <==> forall a :: a in OpsOf(c) ==> ListOpHolds(es, a)
  {
    ConditionHoldsInAll(folds, N.Seen(iset{View(folds, FromList(es))}), c);
    forall a | a in OpsOf(c)
      ensures N.Holds(N.Seen(iset{View(folds, FromList(es))}), Theirs(folds, a)) <==> ListOpHolds(es, a)
    {
      ListOpAgrees(folds, es, a);
    }
  }

  // ---- elements ----

  lemma {:induction false} SplitWithoutDot(name: string)
    requires '.' !in name
    ensures N.Split(name) == [name]
  {
    if name != [] {
      assert name == [name[0]] + name[1..] && name[0] in name;
      SplitWithoutDot(name[1..]);
      N.SplitFirst(name[1..], name[0]);
    }
  }

  lemma {:induction false} ElementFieldsAreKnown(schema: Schema, field: string, entries: seq<ElementEntry>)
    requires schema.Valid() && field in schema.fields && schema.fields[field].ModelList?
    requires CheckElementEntries(schema, field, entries).None?
    ensures forall x :: x in entries ==> x.field in schema.fields[field].fields && CheckCondition(x.condition).None?
  {
    if entries != [] {
      R.FirstDot(field, entries[0].field);
      ElementFieldsAreKnown(schema, field, entries[1..]);
    }
  }

  lemma SeenInElement(folds: bool, cells: map<string, V.Value>, field: string)
    requires '.' !in field
    ensures N.Seen(N.ValuesAt(View(folds, FromElement(Model(cells))), N.Split(field)))
            == iset{View(folds, FromValue(if field in cells then cells[field] else V.Null))}
  {
    SplitWithoutDot(field);
    N.ValueOfOne(View(folds, FromElement(Model(cells))).fields, field);
    SeenOfValue(View(folds, FromValue(if field in cells then cells[field] else V.Null)));
  }

  /** What is asked of an element: conditions of columns on its fields. */
  predicate IsAskable(folds: bool, x: ElementEntry) {
    '.' !in x.field && CheckCondition(x.condition).None? && R.IsColumnCondition(x.condition)
    && (folds ==> IsCaselessCondition(x.condition))
  }

  predicate AreAskable(folds: bool, entries: seq<ElementEntry>) { forall x :: x in entries ==> IsAskable(folds, x) }

  predicate AreModels(es: seq<Element>) {
    forall e :: e in es ==> e.Model? && forall g :: g in e.cells ==> !e.cells[g].Json?
  }

  lemma ElementAgrees(folds: bool, e: Element, entries: seq<ElementEntry>)
    requires AreModels([e]) && AreAskable(folds, entries)
    ensures N.ElementHolds(View(folds, FromElement(e)), ViewElements(folds, FromElementEntries(entries)))
            <==> ElementHolds(e, entries)
  {
    assert e in [e];
    var theirs := ViewElements(folds, FromElementEntries(entries));
    forall i | 0 <= i < |entries|
      ensures N.ConditionHolds(N.Seen(N.ValuesAt(View(folds, FromElement(e)), N.Split(theirs[i].field))), theirs[i].condition)
              <==> ConditionHolds(if entries[i].field in e.cells then e.cells[entries[i].field] else V.Null, false, entries[i].condition)
    {
      var x := entries[i];
      assert x in entries && IsAskable(folds, x);
      SeenInElement(folds, e.cells, x.field);
      ConditionAgrees(folds, false, if x.field in e.cells then e.cells[x.field] else V.Null, x.condition);
    }
  }

  lemma AnyElementAgrees(folds: bool, es: seq<Element>, entries: seq<ElementEntry>)
    requires AreModels(es) && AreAskable(folds, entries)
    ensures (exists x :: x in N.Elements(iset{View(folds, FromList(es))})
                         && N.ElementHolds(x, ViewElements(folds, FromElementEntries(entries))))
            <==> exists e :: e in es && ElementHolds(e, entries)
  {
    var l, theirs := View(folds, FromList(es)), ViewElements(folds, FromElementEntries(entries));
    assert |l.items| == |es| && forall i :: 0 <= i < |es| ==> l.items[i] == View(folds, FromElement(es[i]));
    assert forall x :: x in N.Elements(iset{l}) <==> x in l.items;
    if x :| x in N.Elements(iset{l}) && N.ElementHolds(x, theirs) {
      var i :| 0 <= i < |es| && l.items[i] == x;
      assert es[i] in es;
      ElementAgrees(folds, es[i], entries);
    }
    if e :| e in es && ElementHolds(e, entries) {
      var i :| 0 <= i < |es| && es[i] == e;
      ElementAgrees(folds, e, entries);
      assert l.items[i] == View(folds, FromElement(e));
    }
  }

  // ---- whole filters ----

  lemma ValueOfField(folds: bool, schema: Schema, doc: Doc, field: string)
    requires Comparable(schema, doc) && field in schema.fields
    ensures N.ValuesAt(M.Dict(ViewDoc(folds, doc)), N.Split(field))
            == iset{View(folds, if schema.IsList(field) then FromList(doc.List(field)) else FromValue(doc.Cell(field)))}
  {
    SplitWithoutDot(field);
    N.ValueOfOne(ViewDoc(folds, doc), field);
  }

  lemma ScalarListAgrees(folds: bool, schema: Schema, field: string, c: Condition, doc: Doc)
    requires Comparable(schema, doc) && field in schema.fields && schema.fields[field].ScalarList?
    requires (forall a :: a in OpsOf(c) ==> R.IsListOp(a)) && (folds ==> IsCaselessCondition(c))
    ensures N.EntryFinds(ViewEntry(folds, FromEntry(OnField(field, Simple(c)))), ViewDoc(folds, doc))
            <==> EntryMatches(schema, OnField(field, Simple(c)), doc)
  {
    ValueOfField(folds, schema, doc, field);
    ListConditionAgrees(folds, doc.List(field), c);
  }

  lemma ColumnAgrees(folds: bool, schema: Schema, field: string, c: Condition, doc: Doc)
    requires Comparable(schema, doc) && field in schema.fields && schema.fields[field].Column?
    requires CheckCondition(c).None? && R.IsColumnCondition(c)
    requires (field in schema.ignoresCase ==> folds) && (folds && field !in schema.ignoresCase ==> IsCaselessCondition(c))
    ensures N.EntryFinds(ViewEntry(folds, FromEntry(OnField(field, Simple(c)))), ViewDoc(folds, doc))
            <==> EntryMatches(schema, OnField(field, Simple(c)), doc)
  {
    ValueOfField(folds, schema, doc, field);
    SeenOfValue(View(folds, FromValue(doc.Cell(field))));
    ConditionAgrees(folds, field in schema.ignoresCase, doc.Cell(field), c);
  }

  lemma ModelsAreComparable(schema: Schema, field: string, doc: Doc)
    requires Comparable(schema, doc) && field in schema.fields && schema.fields[field].ModelList?
    ensures AreModels(doc.List(field))
  {
    assert schema.IsList(field);
  }

  lemma EntriesAreAskable(folds: bool, schema: Schema, field: string, entries: seq<ElementEntry>)
    requires schema.Valid() && field in schema.fields && schema.fields[field].ModelList?
    requires forall g :: g in schema.fields[field].fields ==> '.' !in g
    requires CheckElementEntries(schema, field, entries).None?
    requires forall x :: x in entries ==>
      R.IsColumnCondition(x.condition) && (folds ==> IsCaselessCondition(x.condition))
    ensures AreAskable(folds, entries)
  {
    ElementFieldsAreKnown(schema, field, entries);
    forall x | x in entries ensures IsAskable(folds, x) {
      assert x.field in schema.fields[field].fields;
    }
  }

  lemma ModelListAgrees(folds: bool, field: string, entries: seq<ElementEntry>, doc: Doc)
    requires AreModels(doc.List(field)) && AreAskable(folds, entries)
    requires N.ValuesAt(M.Dict(ViewDoc(folds, doc)), N.Split(field)) == iset{View(folds, FromList(doc.List(field)))}
    ensures N.FindsElement(field, ViewElements(folds, FromElementEntries(entries)), ViewDoc(folds, doc))
            <==> exists e :: e in doc.List(field) && ElementHolds(e, entries)
  {
    AnyElementAgrees(folds, doc.List(field), entries);
  }

  /** How a query compares a part of its filter: without case only if that makes no difference to
      what is compared with case, and with case only if nothing is compared without. */
  ghost predicate IsComparedEntry(folds: bool, schema: Schema, e: Entry) {
    if folds then IsUniformEntry(schema, e) else !IsCollatedEntry(schema, e)
  }

  lemma FieldAgrees(folds: bool, schema: Schema, e: Entry, doc: Doc)
    requires Comparable(schema, doc) && IsComparedEntry(folds, schema, e)
    requires e.OnField? && R.IsCompilableEntry(schema, e) && CheckEntry(schema, e).None?
    ensures N.EntryFinds(ViewEntry(folds, FromEntry(e)), ViewDoc(folds, doc)) <==> EntryMatches(schema, e, doc)
  {
    match (schema.fields[e.field], e.condition)
    case (ScalarList, Simple(c)) => ScalarListAgrees(folds, schema, e.field, c, doc);
    case (ModelList(_), ElemMatch(entries, _)) =>
      ValueOfField(folds, schema, doc, e.field);
      ModelsAreComparable(schema, e.field, doc);
      EntriesAreAskable(folds, schema, e.field, entries);
      ModelListAgrees(folds, e.field, entries, doc);
    case (Column, Simple(c)) => ColumnAgrees(folds, schema, e.field, c, doc);
  }

  lemma {:induction false} EntryAgrees(folds: bool, schema: Schema, e: Entry, doc: Doc)
    requires Comparable(schema, doc) && IsComparedEntry(folds, schema, e)
    requires R.IsCompilableEntry(schema, e) && CheckEntry(schema, e).None?
    ensures N.EntryFinds(ViewEntry(folds, FromEntry(e)), ViewDoc(folds, doc)) <==> EntryMatches(schema, e, doc)
  {
    match e
    case Logical(isAnd, items) =>
      Q.CheckedFilters(schema, items);
      var theirs := ViewEntry(folds, FromEntry(e)).items;
      forall i | 0 <= i < |items| ensures N.Finds(theirs[i], ViewDoc(folds, doc)) <==> Matches(schema, items[i], doc) {
        assert items[i] in items;
        assert theirs[i] == ViewQuery(folds, FromFilter(items[i]));
        FilterAgrees(folds, schema, items[i], doc);
      }
    case OnField(_, _) => FieldAgrees(folds, schema, e, doc);
  }

  /** A checked filter that SQL takes means for a document what MongoDB makes of it, compared with
      the collation or without. */
  lemma {:induction false} FilterAgrees(folds: bool, schema: Schema, f: Filter, doc: Doc)
    requires Comparable(schema, doc) && R.IsCompilable(schema, f) && CheckFilter(schema, f).None?
    requires if folds then IsUniform(schema, f) else !IsCollated(schema, f)
    ensures N.Finds(ViewQuery(folds, FromFilter(f)), ViewDoc(folds, doc)) <==> Matches(schema, f, doc)
  {
    Q.CheckedEntries(schema, f.entries);
    var theirs := ViewQuery(folds, FromFilter(f)).entries;
    forall i | 0 <= i < |f.entries|
      ensures N.EntryFinds(theirs[i], ViewDoc(folds, doc)) <==> EntryMatches(schema, f.entries[i], doc)
    {
      assert f.entries[i] in f.entries;
      assert theirs[i] == ViewEntry(folds, FromEntry(f.entries[i]));
      EntryAgrees(folds, schema, f.entries[i], doc);
    }
    assert Matches(schema, f, doc) <==> forall i :: 0 <= i < |f.entries| ==> EntryMatches(schema, f.entries[i], doc);
  }

  // ---- what is here is in values MongoDB can store already ----

  lemma ValueIsBson(v: V.Value)
    ensures M.ToBson(FromValue(v)) == FromValue(v)
  {
  }

  lemma ElementIsBson(e: Element)
    ensures M.ToBson(FromElement(e)) == FromElement(e)
  {
    if e.Model? {
      forall f | f in e.cells ensures M.ToBson(FromValue(e.cells[f])) == FromValue(e.cells[f]) {
        ValueIsBson(e.cells[f]);
      }
      assert M.ToBson(FromElement(e)).fields == FromElement(e).fields;
    } else {
      ValueIsBson(e.v);
    }
  }

  lemma DocIsBson(doc: Doc)
    ensures M.PlainRecord(FromDoc(doc)) == FromDoc(doc)
  {
    var record := FromDoc(doc);
    forall f | f in record ensures M.ToBson(record[f]) == record[f] {
      if f in doc.lists {
        var es := doc.lists[f];
        forall i | 0 <= i < |es| ensures M.ToBson(FromElement(es[i])) == FromElement(es[i]) {
          ElementIsBson(es[i]);
        }
        assert M.ToBson(record[f]).items == record[f].items;
      } else {
        ValueIsBson(doc.cells[f]);
      }
    }
  }

  lemma OperandIsBson(o: Operand)
    ensures M.ToBson(FromOperand(o)) == FromOperand(o)
  {
    match o
    case One(v) => ValueIsBson(v);
    case Many(vs) =>
      forall i | 0 <= i < |vs| ensures M.ToBson(FromValue(vs[i])) == FromValue(vs[i]) {
        ValueIsBson(vs[i]);
      }
      assert M.ToBson(FromOperand(o)).items == FromOperand(o).items;
  }

  lemma ConditionIsBson(c: Condition)
    ensures N.PlainCondition(FromCondition(c)) == FromCondition(c)
  {
    match c
    case Equals(operand) => OperandIsBson(operand);
    case Operators(ops) =>
      forall i | 0 <= i < |ops| ensures M.ToBson(FromOperand(ops[i].operand)) == FromOperand(ops[i].operand) {
        OperandIsBson(ops[i].operand);
      }
      assert N.PlainCondition(FromCondition(c)).ops == FromCondition(c).ops;
  }

  lemma {:induction false} EntryIsBson(e: Entry)
    ensures N.PlainEntry(FromEntry(e)) == FromEntry(e)
  {
    match e
    case Logical(_, items) =>
      forall i | 0 <= i < |items| ensures N.PlainQuery(FromFilter(items[i])) == FromFilter(items[i]) {
        FilterIsBson(items[i]);
      }
      assert N.PlainEntry(FromEntry(e)).items == FromEntry(e).items;
    case UnknownOperator(_) =>
    case OnField(_, Simple(c)) => ConditionIsBson(c);
    case OnField(_, ElemMatch(entries, _)) =>
      forall i | 0 <= i < |entries|
        ensures N.PlainCondition(FromCondition(entries[i].condition)) == FromCondition(entries[i].condition)
      {
        ConditionIsBson(entries[i].condition);
      }
      assert N.PlainEntries(FromElementEntries(entries)) == FromElementEntries(entries);
  }

  lemma {:induction false} FilterIsBson(f: Filter)
    ensures N.PlainQuery(FromFilter(f)) == FromFilter(f)
  {
    forall i | 0 <= i < |f.entries| ensures N.PlainEntry(FromEntry(f.entries[i])) == FromEntry(f.entries[i]) {
      EntryIsBson(f.entries[i]);
    }
    assert N.PlainQuery(FromFilter(f)).entries == FromFilter(f).entries;
  }

  /** The stores agree: the WHERE clause of a filter selects the row of an unexpired document exactly
      when the filter's MongoDB query finds the same document there. MongoDB compares all of a filter
      without case if it names one field compared so, which must make no difference to the others. */
  lemma StoresFindTheSame(schema: Schema, f: Filter, now: V.Value, t: S.Tables, row: S.Row, doc: Doc, model: M.Model)
    requires Q.Represents(schema, t, row, doc) && now != V.Null && Comparable(schema, doc)
    requires Where(schema, f, now).Ok? && CheckFilter(schema, f).None?
    requires IsCollated(schema, f) ==> IsUniform(schema, f)
    requires M.FitsRecord(model, FromDoc(doc)) && N.FitsQuery(model, FromFilter(f))
    ensures S.Selects(Where(schema, f, now).value, t, row)
            <==> Unexpired(schema, doc, now)
                 && C.FindsWith(IsCollated(schema, f), N.Translate(model, FromFilter(f)), M.Document(model, FromDoc(doc)))
  {
    var folds := IsCollated(schema, f);
    Q.WhereIsExact(schema, f, now, t, row, doc);
    R.FilterCompilesIff(schema, f);
    FilterAgrees(folds, schema, f, doc);
    C.CollatedCommutes(folds, model, FromFilter(f), FromDoc(doc));
    FilterIsBson(f);
    DocIsBson(doc);
  }

  // ---- a filter on fields of both kinds ----

  function MixedFilter(ignored: string, x: V.Value, cased: string, s: string): Filter {
    Filter([OnField(ignored, Simple(Equals(One(x)))), OnField(cased, Simple(Equals(One(V.Text(s)))))])
  }

  function MixedDoc(schema: Schema, ignored: string, x: V.Value, cased: string, s: string): Doc {
    Doc(map[ignored := x, cased := V.Text(s)], map f | f in schema.fields && schema.IsList(f) :: [])
  }

  /** A column compared without case and one compared with it. */
  predicate AreMixed(schema: Schema, ignored: string, cased: string) {
    && schema.Valid()
    && AreUndotted(schema)
    && ignored in schema.ignoresCase && ignored in schema.fields && schema.fields[ignored].Column?
    && cased !in schema.ignoresCase && cased in schema.fields && schema.fields[cased].Column?
  }

  function Swapped(s: string): (r: string)
    ensures |r| == |s|
  {
    seq(|s|, i requires 0 <= i < |s| =>
      if 'A' <= s[i] <= 'Z' then V.LowerChar(s[i]) else if 'a' <= s[i] <= 'z' then ((s[i] as int) - 32) as char else s[i])
  }

  lemma SwappedDiffers(s: string)
    ensures V.Lower(Swapped(s)) == V.Lower(s)
    ensures Swapped(s) == s <==> HasNoLetters(s)
  {
    if !HasNoLetters(s) {
      var i :| 0 <= i < |s| && IsLetter(s[i]);
      assert Swapped(s)[i] != s[i];
    }
  }

  /** Whether MongoDB finds exactly the documents a filter matches. */
  ghost predicate IsAgreedOn(schema: Schema, f: Filter) {
    forall doc :: Comparable(schema, doc) ==>
      (C.FindsWith(IsCollated(schema, f), FromFilter(f), FromDoc(doc)) <==> Matches(schema, f, doc))
  }

  lemma MixedFilterIsTaken(schema: Schema, ignored: string, x: V.Value, cased: string, s: string)
    requires AreMixed(schema, ignored, cased)
    ensures var f := MixedFilter(ignored, x, cased, s);
      && R.IsCompilable(schema, f) && CheckFilter(schema, f).None? && IsCollated(schema, f)
      && (HasNoLetters(s) ==> IsUniform(schema, f))
  {
    var f := MixedFilter(ignored, x, cased, s);
    var entries := f.entries;
    UndottedResolves(schema, ignored);
    UndottedResolves(schema, cased);
    assert entries[1..] == [entries[1]] && entries[1..][1..] == [];
    assert CheckEntry(schema, entries[0]).None? && CheckEntry(schema, entries[1]).None?;
    assert CheckEntries(schema, entries[1..]).None?;
    assert entries[0] in entries && IsCollatedEntry(schema, entries[0]);
  }

  lemma {:induction false} NotSplit(name: string)
    requires '.' !in name
    ensures SplitAtDot(name) == None
  {
    if name != [] {
      assert name[0] in name && name == [name[0]] + name[1..];
      NotSplit(name[1..]);
    }
  }

  lemma UndottedResolves(schema: Schema, field: string)
    requires schema.Valid() && field in schema.fields
    ensures Resolve(schema, field) == Declared(schema.fields[field])
  {
    NotSplit(field);
  }

  lemma EqualsEntry(field: string, x: V.Value)
    ensures C.CollateEntry(FromEntry(OnField(field, Simple(Equals(One(x)))))) == N.OnField(field, N.Equals(C.Collate(FromValue(x))))
  {
  }

  lemma EqualIsFound(schema: Schema, doc: Doc, field: string, x: V.Value)
    requires Comparable(schema, doc) && field in schema.fields && schema.fields[field].Column?
    requires C.Collate(FromValue(doc.Cell(field))) == C.Collate(FromValue(x))
    ensures N.EntryFinds(C.CollateEntry(FromEntry(OnField(field, Simple(Equals(One(x)))))), C.CollateFields(FromDoc(doc)))
  {
    EqualsEntry(field, x);
    ValueOfField(true, schema, doc, field);
    SeenOfValue(C.Collate(FromValue(x)));
  }

  lemma MixedDocIsFound(schema: Schema, ignored: string, x: V.Value, cased: string, s: string, t: string)
    requires AreMixed(schema, ignored, cased) && !x.Json? && V.Lower(t) == V.Lower(s)
    ensures Comparable(schema, MixedDoc(schema, ignored, x, cased, t))
    ensures C.FindsWith(true, FromFilter(MixedFilter(ignored, x, cased, s)), FromDoc(MixedDoc(schema, ignored, x, cased, t)))
  {
    var doc, f := MixedDoc(schema, ignored, x, cased, t), MixedFilter(ignored, x, cased, s);
    MixedDocIsComparable(schema, ignored, x, cased, t);
    EqualIsFound(schema, doc, ignored, x);
    EqualIsFound(schema, doc, cased, V.Text(s));
    var theirs := C.CollateQuery(FromFilter(f)).entries;
    assert |theirs| == 2 && theirs[0] == C.CollateEntry(FromEntry(f.entries[0]));
    assert theirs[1] == C.CollateEntry(FromEntry(f.entries[1]));
  }

  lemma MixedDocIsComparable(schema: Schema, ignored: string, x: V.Value, cased: string, t: string)
    requires AreMixed(schema, ignored, cased) && !x.Json?
    ensures Comparable(schema, MixedDoc(schema, ignored, x, cased, t))
  {
  }

  lemma MixedDocIsNoMatch(schema: Schema, ignored: string, x: V.Value, cased: string, s: string, t: string)
    requires AreMixed(schema, ignored, cased) && t != s
    ensures !Matches(schema, MixedFilter(ignored, x, cased, s), MixedDoc(schema, ignored, x, cased, t))
  {
    var f, doc := MixedFilter(ignored, x, cased, s), MixedDoc(schema, ignored, x, cased, t);
    var e := f.entries[1];
    assert e in f.entries;
    assert OpArg(Eq, One(V.Text(s))) in OpsOf(e.condition.condition);
    assert doc.Cell(cased) == V.Text(t);
  }

  /** A filter that equates a field compared without case, and one compared with it, means the same
      to both stores exactly if the text for the latter has no letter. */
  lemma MixedFilterAgreesIff(schema: Schema, ignored: string, x: V.Value, cased: string, s: string)
    requires AreMixed(schema, ignored, cased) && !x.Json?
    ensures IsAgreedOn(schema, MixedFilter(ignored, x, cased, s)) <==> HasNoLetters(s)
  {
    var f := MixedFilter(ignored, x, cased, s);
    MixedFilterIsTaken(schema, ignored, x, cased, s);
    if HasNoLetters(s) {
      forall doc | Comparable(schema, doc)
        ensures C.FindsWith(true, FromFilter(f), FromDoc(doc)) <==> Matches(schema, f, doc)
      {
        FilterAgrees(true, schema, f, doc);
      }
    } else {
      var t := Swapped(s);
      SwappedDiffers(s);
      MixedDocIsFound(schema, ignored, x, cased, s, t);
      MixedDocIsNoMatch(schema, ignored, x, cased, s, t);
    }
  }
}
