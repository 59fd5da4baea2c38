/** The compiled WHERE clause is true of exactly the rows whose document the filter matches. */
module QueryMeaning {
  import opened Wrappers
  import opened Sequences
  import opened Values
  import opened TextSearch
  import opened Dialect
  import opened Sql
  import opened SqlTranslate

  /** What a row and its child rows say a document is. */
  ghost predicate Represents(schema: Schema, t: Tables, row: Row, doc: Doc) {
    && row.Cell(schema.key) != Null
    && (forall f :: row.Cell(f) == doc.Cell(f))
    && (forall f, e :: schema.IsList(f) ==> (e in doc.List(f) <==> IsElement(schema, t, row, f, e)))
    && (forall f, r :: schema.IsList(f) && r in t.Children(f) ==>
          r.element.Scalar? == schema.fields[f].ScalarList? && r.element != Scalar(Null))
  }

  ghost predicate IsElement(schema: Schema, t: Tables, row: Row, f: string, e: Element) {
    exists r :: r in t.Children(f) && r.parent == row.Cell(schema.key) && r.element == e
  }

  ghost predicate AllTrue(cs: seq<Clause>, t: Tables, row: Row, child: Option<ChildRow>) {
    forall c :: c in cs ==> Eval(c, t, row, child) == True
  }

  lemma AllIsConjunction(cs: seq<Clause>, t: Tables, row: Row, child: Option<ChildRow>)
    ensures Eval(All(cs), t, row, child) == True <==> AllTrue(cs, t, row, child)
  {
  }

  lemma AllTrueAppend(a: seq<Clause>, b: seq<Clause>, t: Tables, row: Row, child: Option<ChildRow>)
    ensures AllTrue(a + b, t, row, child) <==> AllTrue(a, t, row, child) && AllTrue(b, t, row, child)
  {
    if AllTrue(a + b, t, row, child) {
      forall c | c in a || c in b ensures Eval(c, t, row, child) == True { assert c in a + b; }
    }
  }

  lemma TwoClauses(a: Clause, b: Clause, t: Tables, row: Row, child: Option<ChildRow>)
    ensures Eval(Any([a, b]), t, row, child) == True
            <==> Eval(a, t, row, child) == True || Eval(b, t, row, child) == True
    ensures Eval(All([a, b]), t, row, child) == True <==> AllTrue([a, b], t, row, child)
    ensures AllTrue([a, b], t, row, child)
            <==> Eval(a, t, row, child) == True && Eval(b, t, row, child) == True
  {
    assert [a, b][0] == a && [a, b][1] == b;
  }

  lemma OneClause(a: Clause, t: Tables, row: Row, child: Option<ChildRow>)
    ensures AllTrue([a], t, row, child) <==> Eval(a, t, row, child) == True
  {
    assert [a][0] == a;
  }

  lemma FoldTwice(v: Value, ignoresCase: bool)
    ensures Fold(Fold(v, true), true) == Fold(v, true)
    ensures Fold(v, ignoresCase) == Null <==> v == Null
  {
    if v.Text? {
      assert Lower(Lower(v.s)) == Lower(v.s);
    }
  }

  // ---- one operator ----

  lemma AnyOfExact(e: Expr, vs: seq<Value>, t: Tables, row: Row, child: Option<ChildRow>)
    ensures Eval(AnyOfClause(e, vs), t, row, child) == True <==> ExprValue(e, row, child) in vs
  {
    var w := ExprValue(e, row, child);
    var known := Known(vs);
    KnownLength(vs);
    assert InValues(w, known) == True <==> w in known;
    var inner := if known != [] then IsIn(e, known) else Constant(false);
    assert Eval(inner, t, row, child) == True <==> w in known;
    if |known| < |vs| {
      TwoClauses(inner, IsNull(e), t, row, child);
    }
  }

  lemma NotInExact(e: Expr, known: seq<Value>, t: Tables, row: Row, child: Option<ChildRow>)
    requires Null !in known && known != []
    ensures Eval(IsNotIn(e, known), t, row, child) == True
            <==> ExprValue(e, row, child) != Null && ExprValue(e, row, child) !in known
  {
    var w := ExprValue(e, row, child);
    if w == Null {
      assert CompareValues(Equal, w, known[0]) == Tri.Unknown;
    } else {
      assert forall v :: v in known ==> (CompareValues(Equal, w, v) == False <==> w != v);
    }
  }

  lemma KnownNoneExact(e: Expr, vs: seq<Value>, t: Tables, row: Row, child: Option<ChildRow>)
    requires |Known(vs)| == |vs|
    ensures Eval(NoneOfClause(e, vs), t, row, child) == True <==> ExprValue(e, row, child) !in vs
  {
    var known := Known(vs);
    KnownLength(vs);
    var inner := if known != [] then IsNotIn(e, known) else Constant(true);
    if known != [] {
      NotInExact(e, known, t, row, child);
    }
    TwoClauses(inner, IsNull(e), t, row, child);
  }

  lemma NoneOfExact(e: Expr, vs: seq<Value>, t: Tables, row: Row, child: Option<ChildRow>)
    ensures Eval(NoneOfClause(e, vs), t, row, child) == True <==> ExprValue(e, row, child) !in vs
  {
    var known := Known(vs);
    if |known| == |vs| {
      KnownNoneExact(e, vs, t, row, child);
    } else {
      KnownLength(vs);
      var inner := if known != [] then IsNotIn(e, known) else Constant(true);
      if known != [] {
        NotInExact(e, known, t, row, child);
      }
      TwoClauses(inner, IsNotNull(e), t, row, child);
    }
  }

  lemma {:induction false} KnownLength(vs: seq<Value>)
    ensures |Known(vs)| < |vs| <==> Null in vs
  {
    if vs != [] {
      KnownLength(vs[1..]);
      assert vs == [vs[0]] + vs[1..];
      assert Known(vs) == (if vs[0] != Null then [vs[0]] else []) + Known(vs[1..]);
    }
  }

  lemma FoldedMembers(vs: seq<Value>, ignoresCase: bool, w: Value)
    ensures w in Folded(vs, ignoresCase) <==> exists x :: x in vs && w == Fold(x, ignoresCase)
  {
    var folded := Folded(vs, ignoresCase);
    if w in folded {
      var i :| 0 <= i < |folded| && folded[i] == w;
      assert vs[i] in vs && w == Fold(vs[i], ignoresCase);
    }
    if x :| x in vs && w == Fold(x, ignoresCase) {
      var i :| 0 <= i < |vs| && vs[i] == x;
      assert folded[i] == w;
    }
  }

  lemma SubstringOfFolded(v: Value, ignoresCase: bool, text: string)
    requires v.Text?
    ensures Like(Lower(Fold(v, ignoresCase).s), Lower(SubstringPattern(text))) <==> Contains(Lower(v.s), Lower(text))
  {
    if ignoresCase {
      assert Lower(Lower(v.s)) == Lower(v.s);
    }
    LowerSubstringPattern(text);
    SubstringPatternIsExact(Lower(v.s), Lower(text));
  }

  lemma RegexMeaning(v: Value, ignoresCase: bool, p: string)
    requires IsEscapedText(p)
    ensures OpHolds(v, ignoresCase, OpArg(Regex, One(Text(p))))
            <==> v.Text? && Contains(Lower(v.s), Lower(SearchedText(p)))
  {
    CheckAcceptsExactlyEscapedTexts(p);
    assert p == ReEscape(SearchedText(p));
  }

  lemma SubstringClauseExact(e: Expr, text: string, v: Value, ignoresCase: bool,
                             t: Tables, row: Row, child: Option<ChildRow>)
    requires ExprValue(e, row, child) == Fold(v, ignoresCase)
    ensures Eval(SubstringClause(e, text), t, row, child) == True <==> v.Text? && Contains(Lower(v.s), Lower(text))
  {
    if v.Text? {
      SubstringOfFolded(v, ignoresCase, text);
    }
  }

  lemma SubstringExact(e: Expr, p: string, v: Value, ignoresCase: bool, t: Tables, row: Row, child: Option<ChildRow>)
    requires IsEscapedText(p)
    requires ExprValue(e, row, child) == Fold(v, ignoresCase)
    ensures Eval(SubstringClause(e, SearchedText(p)), t, row, child) == True
            <==> OpHolds(v, ignoresCase, OpArg(Regex, One(Text(p))))
  {
    RegexMeaning(v, ignoresCase, p);
    SubstringClauseExact(e, SearchedText(p), v, ignoresCase, t, row, child);
  }

  /** Whether the check lets an operator pass. */
  predicate IsChecked(a: OpArg) {
    && !a.op.Other?
    && (a.op == Regex ==> a.operand.One? && a.operand.v.Text? && IsEscapedText(a.operand.v.s))
  }

  lemma InequalityExact(e: Expr, x: Value, t: Tables, row: Row, child: Option<ChildRow>)
    ensures Eval(InequalityClause(e, x), t, row, child) == True <==> ExprValue(e, row, child) != x
  {
    if x != Null {
      TwoClauses(Compare(NotEqual, e, Literal(x)), IsNull(e), t, row, child);
    }
  }

  lemma OrderExact(e: Expr, v: Value, ignoresCase: bool, a: OpArg, t: Tables, row: Row, child: Option<ChildRow>)
    requires ExprValue(e, row, child) == Fold(v, ignoresCase)
    requires a.op in {Eq, Gt, Gte, Lt, Lte} && a.operand.One? && OpClause(e, ignoresCase, a).Ok?
    ensures Eval(OpClause(e, ignoresCase, a).value[0], t, row, child) == True <==> OpHolds(v, ignoresCase, a)
  {
    FoldTwice(v, ignoresCase);
    FoldTwice(a.operand.v, ignoresCase);
  }

  /** Of every checked operator that compiles, the clause is true exactly when the operator holds. */
  lemma OpClauseExact(e: Expr, v: Value, ignoresCase: bool, a: OpArg, t: Tables, row: Row, child: Option<ChildRow>)
    requires ExprValue(e, row, child) == Fold(v, ignoresCase)
    requires OpClause(e, ignoresCase, a).Ok? && IsChecked(a)
    ensures AllTrue(OpClause(e, ignoresCase, a).value, t, row, child) <==> OpHolds(v, ignoresCase, a)
  {
    if a.op != Options {
      OneClause(OpClause(e, ignoresCase, a).value[0], t, row, child);
      match a {
        case OpArg(In, Many(vs)) =>
          AnyOfExact(e, Folded(vs, ignoresCase), t, row, child);
          FoldedMembers(vs, ignoresCase, Fold(v, ignoresCase));
        case OpArg(Nin, Many(vs)) =>
          NoneOfExact(e, Folded(vs, ignoresCase), t, row, child);
          FoldedMembers(vs, ignoresCase, Fold(v, ignoresCase));
        case OpArg(Ne, One(x)) => InequalityExact(e, Fold(x, ignoresCase), t, row, child);
        case OpArg(Regex, One(Text(p))) => SubstringExact(e, p, v, ignoresCase, t, row, child);
        case _ => OrderExact(e, v, ignoresCase, a, t, row, child);
      }
    }
  }

  lemma {:induction false} OpClausesExact(e: Expr, v: Value, ignoresCase: bool, ops: seq<OpArg>,
                                          t: Tables, row: Row, child: Option<ChildRow>)
    requires ExprValue(e, row, child) == Fold(v, ignoresCase)
    requires OpClauses(e, ignoresCase, ops).Ok?
    requires forall a :: a in ops ==> IsChecked(a)
    ensures AllTrue(OpClauses(e, ignoresCase, ops).value, t, row, child)
            <==> forall a :: a in ops ==> OpHolds(v, ignoresCase, a)
  {
    if ops != [] {
      var init, last := ops[..|ops| - 1], ops[|ops| - 1];
      assert ops == init + [last];
      OpClausesExact(e, v, ignoresCase, init, t, row, child);
      OpClauseExact(e, v, ignoresCase, last, t, row, child);
      AllTrueAppend(OpClauses(e, ignoresCase, init).value, OpClause(e, ignoresCase, last).value, t, row, child);
    }
  }

  // ---- one condition ----

  lemma {:induction false} LookupFinds(ops: OpMap, a: OpArg)
    requires a in ops
    ensures Lookup(ops, a.op) == Some(a.operand)
    decreases |ops|
  {
    if ops[0] != a {
      LookupFinds(ops[1..], a);
      assert ops[0].op != a.op;
    }
  }

  lemma CheckedCondition(c: Condition)
    requires CheckCondition(c).None?
    ensures forall a :: a in OpsOf(c) ==> IsChecked(a)
  {
    if c.Operators? {
      forall a | a in c.ops ensures IsChecked(a) {
        LookupFinds(c.ops, a);
      }
    }
  }

  lemma ComparisonClauseExact(e: Expr, v: Value, ignoresCase: bool, c: Condition,
                              t: Tables, row: Row, child: Option<ChildRow>)
    requires ExprValue(e, row, child) == Fold(v, ignoresCase)
    requires CheckCondition(c).None?
    requires ComparisonClause(e, ignoresCase, c).Ok?
    ensures Eval(ComparisonClause(e, ignoresCase, c).value, t, row, child) == True
            <==> ConditionHolds(v, ignoresCase, c)
  {
    CheckedCondition(c);
    OpClausesExact(e, v, ignoresCase, OpsOf(c), t, row, child);
  }

  // ---- lists ----

  /** The rows an EXISTS on a list looks at: those of this record that meet a condition. */
  ghost predicate IsOwnIn(schema: Schema, row: Row, r: ChildRow, vs: seq<Value>) {
    r.parent == row.Cell(schema.key) && r.element.Scalar? && r.element.v in vs
  }

  lemma MembershipRow(schema: Schema, field: string, known: seq<Value>, t: Tables, row: Row, doc: Doc, r: ChildRow)
    requires Represents(schema, t, row, doc) && schema.IsList(field) && schema.fields[field].ScalarList?
    requires r in t.Children(field) && Null !in known
    ensures AllTrue([Compare(Equal, ChildParent, Cell(schema.key)), IsIn(ChildValue, known)], t, row, Some(r))
            <==> IsOwnIn(schema, row, r, known)
  {
    TwoClauses(Compare(Equal, ChildParent, Cell(schema.key)), IsIn(ChildValue, known), t, row, Some(r));
    assert r.element.Scalar? && r.element.v != Null;
  }

  lemma MembershipOfList(schema: Schema, field: string, vs: seq<Value>, t: Tables, row: Row, doc: Doc)
    requires Represents(schema, t, row, doc) && schema.IsList(field) && schema.fields[field].ScalarList?
    ensures (exists r :: r in t.Children(field) && IsOwnIn(schema, row, r, Known(vs)))
            <==> exists x :: x in vs && Scalar(x) in doc.List(field)
  {
    if x :| x in vs && Scalar(x) in doc.List(field) {
      assert IsElement(schema, t, row, field, Scalar(x));
      var r :| r in t.Children(field) && r.parent == row.Cell(schema.key) && r.element == Scalar(x);
      assert IsOwnIn(schema, row, r, Known(vs));
    }
    if r :| r in t.Children(field) && IsOwnIn(schema, row, r, Known(vs)) {
      assert IsElement(schema, t, row, field, Scalar(r.element.v));
    }
  }

  /** A membership clause is never unknown, so it may stand under NOT. */
  lemma MembershipExact(schema: Schema, field: string, vs: seq<Value>, t: Tables, row: Row, doc: Doc)
    requires Represents(schema, t, row, doc) && schema.IsList(field) && schema.fields[field].ScalarList?
    ensures Eval(MembershipClause(schema, field, vs), t, row, None)
            == Truth(exists x :: x in vs && Scalar(x) in doc.List(field))
  {
    var known := Known(vs);
    MembershipOfList(schema, field, vs, t, row, doc);
    forall r | r in t.Children(field)
      ensures known != [] ==>
        (AllTrue([Compare(Equal, ChildParent, Cell(schema.key)), IsIn(ChildValue, known)], t, row, Some(r))
         <==> IsOwnIn(schema, row, r, known))
    {
      MembershipRow(schema, field, known, t, row, doc, r);
    }
    assert known == [] ==> forall r :: !IsOwnIn(schema, row, r, known);
  }

  lemma ListOpExact(schema: Schema, field: string, a: OpArg, t: Tables, row: Row, doc: Doc)
    requires Represents(schema, t, row, doc) && schema.IsList(field) && schema.fields[field].ScalarList?
    requires ListOpClause(schema, field, a).Ok?
    ensures Eval(ListOpClause(schema, field, a).value, t, row, None) == Truth(ListOpHolds(doc.List(field), a))
  {
    match a
    case OpArg(_, One(v)) => MembershipExact(schema, field, [v], t, row, doc);
    case OpArg(_, Many(vs)) => MembershipExact(schema, field, vs, t, row, doc);
  }

  lemma {:induction false} ListOpsExact(schema: Schema, field: string, ops: seq<OpArg>, t: Tables, row: Row, doc: Doc)
    requires Represents(schema, t, row, doc) && schema.IsList(field) && schema.fields[field].ScalarList?
    requires ListOpClauses(schema, field, ops).Ok?
    ensures AllTrue(ListOpClauses(schema, field, ops).value, t, row, None)
            <==> forall a :: a in ops ==> ListOpHolds(doc.List(field), a)
  {
    if ops != [] {
      var init, last := ops[..|ops| - 1], ops[|ops| - 1];
      assert ops == init + [last];
      ListOpsExact(schema, field, init, t, row, doc);
      ListOpExact(schema, field, last, t, row, doc);
      AllTrueAppend(ListOpClauses(schema, field, init).value, [ListOpClause(schema, field, last).value], t, row, None);
    }
  }

  lemma {:induction false} CheckedElementEntries(schema: Schema, field: string, entries: seq<ElementEntry>)
    requires CheckElementEntries(schema, field, entries).None?
    ensures forall x :: x in entries ==> CheckCondition(x.condition).None?
  {
    if entries != [] {
      CheckedElementEntries(schema, field, entries[1..]);
    }
  }

  lemma ElementHoldsAppend(e: Element, init: seq<ElementEntry>, last: ElementEntry)
    ensures ElementHolds(e, init + [last]) <==> ElementHolds(e, init) && ElementHolds(e, [last])
  {
    assert forall x :: x in init + [last] <==> x in init || x in [last];
  }

  lemma ElementEntryExact(x: ElementEntry, t: Tables, row: Row, r: ChildRow)
    requires r.element.Model? && CheckCondition(x.condition).None?
    requires ComparisonClause(ChildCell(x.field), false, x.condition).Ok?
    ensures AllTrue([ComparisonClause(ChildCell(x.field), false, x.condition).value], t, row, Some(r))
            <==> ElementHolds(r.element, [x])
  {
    var v := if x.field in r.element.cells then r.element.cells[x.field] else Null;
    ComparisonClauseExact(ChildCell(x.field), v, false, x.condition, t, row, Some(r));
    OneClause(ComparisonClause(ChildCell(x.field), false, x.condition).value, t, row, Some(r));
  }

  lemma {:induction false} ElementClausesExact(entries: seq<ElementEntry>, t: Tables, row: Row, r: ChildRow)
    requires ElementClauses(entries).Ok? && r.element.Model?
    requires forall x :: x in entries ==> CheckCondition(x.condition).None?
    ensures AllTrue(ElementClauses(entries).value, t, row, Some(r)) <==> ElementHolds(r.element, entries)
  {
    if entries != [] {
      var init, last := entries[..|entries| - 1], entries[|entries| - 1];
      assert entries == init + [last];
      ElementClausesExact(init, t, row, r);
      ElementEntryExact(last, t, row, r);
      ElementHoldsAppend(r.element, init, last);
      var clause := ComparisonClause(ChildCell(last.field), false, last.condition).value;
      AllTrueAppend(ElementClauses(init).value, [clause], t, row, Some(r));
    }
  }

  /** The child row an EXISTS finds is this record's, and its element meets every condition. */
  lemma ElementMatchRow(schema: Schema, field: string, entries: seq<ElementEntry>, t: Tables, row: Row, doc: Doc, r: ChildRow)
    requires Represents(schema, t, row, doc) && schema.IsList(field) && schema.fields[field].ModelList?
    requires ElementClauses(entries).Ok? && r in t.Children(field)
    requires forall x :: x in entries ==> CheckCondition(x.condition).None?
    ensures AllTrue([Compare(Equal, ChildParent, Cell(schema.key))] + ElementClauses(entries).value, t, row, Some(r))
            <==> r.parent == row.Cell(schema.key) && ElementHolds(r.element, entries)
  {
    var own := Compare(Equal, ChildParent, Cell(schema.key));
    AllTrueAppend([own], ElementClauses(entries).value, t, row, Some(r));
    OneClause(own, t, row, Some(r));
    assert r.element.Model?;
    ElementClausesExact(entries, t, row, r);
  }

  ghost predicate IsOwnMatch(schema: Schema, row: Row, r: ChildRow, entries: seq<ElementEntry>) {
    r.parent == row.Cell(schema.key) && ElementHolds(r.element, entries)
  }

  lemma ElementMatchOfList(schema: Schema, field: string, entries: seq<ElementEntry>, t: Tables, row: Row, doc: Doc)
    requires Represents(schema, t, row, doc) && schema.IsList(field)
    ensures (exists r :: r in t.Children(field) && IsOwnMatch(schema, row, r, entries))
            <==> exists e :: e in doc.List(field) && ElementHolds(e, entries)
  {
    if e :| e in doc.List(field) && ElementHolds(e, entries) {
      assert IsElement(schema, t, row, field, e);
      var r :| r in t.Children(field) && r.parent == row.Cell(schema.key) && r.element == e;
      assert IsOwnMatch(schema, row, r, entries);
    }
    if r :| r in t.Children(field) && IsOwnMatch(schema, row, r, entries) {
      assert IsElement(schema, t, row, field, r.element);
    }
  }

  lemma ElementMatchExact(schema: Schema, field: string, entries: seq<ElementEntry>, t: Tables, row: Row, doc: Doc)
    requires Represents(schema, t, row, doc) && schema.IsList(field) && schema.fields[field].ModelList?
    requires CheckElementEntries(schema, field, entries).None?
    requires ElementMatchClause(schema, field, entries).Ok?
    ensures Eval(ElementMatchClause(schema, field, entries).value, t, row, None) == True
            <==> exists e :: e in doc.List(field) && ElementHolds(e, entries)
  {
    CheckedElementEntries(schema, field, entries);
    ElementMatchOfList(schema, field, entries, t, row, doc);
    var clauses := [Compare(Equal, ChildParent, Cell(schema.key))] + ElementClauses(entries).value;
    forall r | r in t.Children(field)
      ensures AllTrue(clauses, t, row, Some(r)) <==> IsOwnMatch(schema, row, r, entries)
    {
      ElementMatchRow(schema, field, entries, t, row, doc, r);
    }
    ExistsIsTwoValued(field, clauses, t, row);
  }

  lemma ExistsIsTwoValued(list: string, cs: seq<Clause>, t: Tables, row: Row)
    ensures Eval(Exists(list, cs), t, row, None)
            == Truth(exists r :: r in t.Children(list) && AllTrue(cs, t, row, Some(r)))
  {
  }

  // ---- whole filters ----

  lemma FieldExact(schema: Schema, e: Entry, t: Tables, row: Row, doc: Doc)
    requires Represents(schema, t, row, doc)
    requires e.OnField? && EntryClause(schema, e).Ok? && CheckEntry(schema, e).None?
    ensures Eval(EntryClause(schema, e).value, t, row, None) == True <==> EntryMatches(schema, e, doc)
  {
    match (schema.fields[e.field], e.condition)
    case (ScalarList, Simple(condition)) =>
      ListOpsExact(schema, e.field, OpsOf(condition), t, row, doc);
    case (ModelList(_), ElemMatch(entries, _)) =>
      ElementMatchExact(schema, e.field, entries, t, row, doc);
    case (Column, Simple(condition)) =>
      ComparisonClauseExact(ColumnExpr(schema, e.field), doc.Cell(e.field), e.field in schema.ignoresCase,
                            condition, t, row, None);
  }

  lemma {:induction false} EntryExact(schema: Schema, e: Entry, t: Tables, row: Row, doc: Doc)
    requires Represents(schema, t, row, doc)
    requires EntryClause(schema, e).Ok? && CheckEntry(schema, e).None?
    ensures Eval(EntryClause(schema, e).value, t, row, None) == True <==> EntryMatches(schema, e, doc)
  {
    match e
    case Logical(isAnd, items) => FiltersExact(schema, items, t, row, doc);
    case OnField(_, _) => FieldExact(schema, e, t, row, doc);
  }

  lemma {:induction false} EntriesExact(schema: Schema, entries: seq<Entry>, t: Tables, row: Row, doc: Doc)
    requires Represents(schema, t, row, doc)
    requires EntryClauses(schema, entries).Ok?
    requires forall e :: e in entries ==> CheckEntry(schema, e).None?
    ensures AllTrue(EntryClauses(schema, entries).value, t, row, None)
            <==> forall e :: e in entries ==> EntryMatches(schema, e, doc)
  {
    if entries != [] {
      var init, last := entries[..|entries| - 1], entries[|entries| - 1];
      assert entries == init + [last];
      EntriesExact(schema, init, t, row, doc);
      EntryExact(schema, last, t, row, doc);
      AllTrueAppend(EntryClauses(schema, init).value, [EntryClause(schema, last).value], t, row, None);
    }
  }

  lemma {:induction false} FiltersExact(schema: Schema, items: seq<Filter>, t: Tables, row: Row, doc: Doc)
    requires Represents(schema, t, row, doc)
    requires FilterClauses(schema, items).Ok?
    requires CheckFilters(schema, items).None?
    ensures AllTrue(FilterClauses(schema, items).value, t, row, None)
            <==> forall item :: item in items ==> Matches(schema, item, doc)
    ensures (exists c :: c in FilterClauses(schema, items).value && Eval(c, t, row, None) == True)
            <==> exists item :: item in items && Matches(schema, item, doc)
  {
    if items != [] {
      var init, last := items[..|items| - 1], items[|items| - 1];
      assert items == init + [last];
      CheckedFilters(schema, items);
      CheckedPrefix(schema, init, last);
      FiltersExact(schema, init, t, row, doc);
      ConditionsExact(schema, last, t, row, doc);
      var clauses, clause := FilterClauses(schema, init).value, Conditions(schema, last).value;
      AllTrueAppend(clauses, [clause], t, row, None);
      assert forall c :: c in clauses + [clause] <==> c in clauses || c == clause;
    }
  }

  lemma {:induction false} CheckedFilters(schema: Schema, items: seq<Filter>)
    requires CheckFilters(schema, items).None?
    ensures forall item :: item in items ==> CheckFilter(schema, item).None?
  {
    if items != [] {
      CheckedFilters(schema, items[1..]);
    }
  }

  lemma {:induction false} CheckedPrefix(schema: Schema, init: seq<Filter>, last: Filter)
    requires CheckFilters(schema, init + [last]).None?
    ensures CheckFilters(schema, init).None?
  {
    if init != [] {
      assert (init + [last])[1..] == init[1..] + [last];
      CheckedPrefix(schema, init[1..], last);
    }
  }

  lemma {:induction false} CheckedEntries(schema: Schema, entries: seq<Entry>)
    requires CheckEntries(schema, entries).None?
    ensures forall e :: e in entries ==> CheckEntry(schema, e).None?
  {
    if entries != [] {
      CheckedEntries(schema, entries[1..]);
    }
  }

  lemma {:induction false} ConditionsExact(schema: Schema, f: Filter, t: Tables, row: Row, doc: Doc)
    requires Represents(schema, t, row, doc)
    requires Conditions(schema, f).Ok? && CheckFilter(schema, f).None?
    ensures Eval(Conditions(schema, f).value, t, row, None) == True <==> Matches(schema, f, doc)
  {
    CheckedEntries(schema, f.entries);
    EntriesExact(schema, f.entries, t, row, doc);
    var clauses := EntryClauses(schema, f.entries).value;
    AllTrueAppend([Constant(true)], clauses, t, row, None);
    AllIsConjunction([Constant(true)] + clauses, t, row, None);
  }

  lemma UnexpiredExact(schema: Schema, now: Value, t: Tables, row: Row, doc: Doc)
    requires schema.expires.Some? && row.Cell(schema.expires.value) == doc.Cell(schema.expires.value) && now != Null
    ensures Eval(UnexpiredClause(schema.expires.value, now), t, row, None) == True <==> Unexpired(schema, doc, now)
  {
    var column := Cell(schema.expires.value);
    TwoClauses(IsNull(column), Compare(Greater, column, Literal(now)), t, row, None);
  }

  /** Compilation preserves meaning: of every checked filter that compiles, the WHERE clause is
      true of exactly the rows whose document is unexpired and matches. */
  lemma WhereIsExact(schema: Schema, f: Filter, now: Value, t: Tables, row: Row, doc: Doc)
    requires Represents(schema, t, row, doc) && now != Null
    requires Where(schema, f, now).Ok? && CheckFilter(schema, f).None?
    ensures Selects(Where(schema, f, now).value, t, row)
            <==> Unexpired(schema, doc, now) && Matches(schema, f, doc)
  {
    ConditionsExact(schema, f, t, row, doc);
    var conditions := Conditions(schema, f).value;
    if schema.expires.Some? {
      UnexpiredExact(schema, now, t, row, doc);
      TwoClauses(conditions, UnexpiredClause(schema.expires.value, now), t, row, None);
    } else {
      OneClause(conditions, t, row, None);
      AllIsConjunction([conditions], t, row, None);
    }
  }
}
