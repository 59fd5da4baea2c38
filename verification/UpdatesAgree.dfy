/** One dialect over two stores: SQL's writes make of a document what the MongoDB update makes of
    it there. */
module UpdatesAgree {
  import opened Wrappers
  import opened Sequences
  import V = Values
  import opened Dialect
  import L = ListTables
  import opened Updates
  import UpdateMeaning
  import M = MongoEncoding
  import U = MongoUpdates
  import S = StoresAgree

  // ---- the same update, as MongoDB's ----

  function FromWritten(w: Written): M.Data {
    match w
    case ToValue(v) => S.FromValue(v)
    case ToList(es) => S.FromList(es)
    case ToOperators => M.Dict(map[])
  }

  function FromChange(c: Change): U.Change { U.Change(c.op, c.field, FromWritten(c.written)) }

  function FromUpdate(u: Update): (r: seq<U.Change>)
    ensures |r| == |u|
    ensures forall i :: 0 <= i < |r| ==> r[i] == FromChange(u[i])
  {
    seq(|u|, i requires 0 <= i < |u| => FromChange(u[i]))
  }

  // ---- what the schema's types say ----

  predicate AreScalars(es: seq<Element>) { forall e :: e in es ==> e.Scalar? }

  /** The schema's columns and lists, scalars in lists of scalars. */
  ghost predicate IsTyped(schema: Schema, doc: Doc) {
    Shaped(schema, doc) && forall f :: f in doc.lists && schema.fields[f].ScalarList? ==> AreScalars(doc.lists[f])
  }

  /** A change that SQL can write, of values of the field's type. */
  predicate IsTaken(schema: Schema, c: Change) {
    && IsWritable(schema, c)
    && (c.op == Increment ==> c.written.ToValue? && c.written.v.Num?)
    && (c.op == SetTo && IsScalarList(schema, c.field) ==> AreScalars(c.written.es))
  }

  predicate AreTaken(schema: Schema, u: Update) { forall c :: c in u ==> IsTaken(schema, c) }

  // ---- one change ----

  /** MongoDB refuses to increase what is no number, also a stored null, which SQL counts as 0; it
      takes every other change. */
  lemma IncreaseIsTakenIffNumber(schema: Schema, doc: Doc, c: Change)
    requires IsTyped(schema, doc) && IsTaken(schema, c)
    ensures U.CanApply(S.FromDoc(doc), FromChange(c)) <==> (c.op == Increment ==> doc.Cell(c.field).Num?)
  {
    var data := S.FromDoc(doc);
    match c.op
    case Increment => assert c.field in data && data[c.field] == S.FromValue(doc.Cell(c.field));
    case AddElement => assert c.field in data && data[c.field] == S.FromList(doc.List(c.field));
    case PullElement => assert c.field in data && data[c.field] == S.FromList(doc.List(c.field));
    case _ =>
  }

  lemma ScalarsAreKept(e: Element, x: V.Value)
    requires e.Scalar?
    ensures S.FromElement(e) == S.FromValue(x) <==> e == Scalar(x)
  {
    S.EqualityAgrees(false, false, e.v, x);
  }

  lemma AddAgrees(es: seq<Element>, x: V.Value)
    requires AreScalars(es)
    ensures S.FromList(L.AddToSet(es, Scalar(x)))
            == M.List(if S.FromValue(x) in S.FromList(es).items then S.FromList(es).items
                      else S.FromList(es).items + [S.FromValue(x)])
  {
    var items := S.FromList(es).items;
    forall i | 0 <= i < |es| ensures items[i] == S.FromValue(x) <==> es[i] == Scalar(x) {
      assert es[i] in es;
      ScalarsAreKept(es[i], x);
    }
    assert S.FromElement(Scalar(x)) == S.FromValue(x);
    if Scalar(x) !in es {
      assert S.FromList(es + [Scalar(x)]).items == items + [S.FromValue(x)];
    } else {
      var i :| 0 <= i < |es| && es[i] == Scalar(x);
      assert items[i] == S.FromValue(x);
    }
  }

  function ElementToData(): Element -> M.Data { (e: Element) => S.FromElement(e) }

  lemma ListIsMapped(es: seq<Element>)
    ensures S.FromList(es).items == Map(es, ElementToData())
  {
  }

  lemma PullAgrees(es: seq<Element>, x: V.Value)
    requires AreScalars(es)
    ensures S.FromList(L.Pull(es, Scalar(x))) == M.List(Kept(S.FromList(es).items, U.Other(S.FromValue(x))))
  {
    forall e | e in es ensures L.IsNot(Scalar(x))(e) <==> U.Other(S.FromValue(x))(ElementToData()(e)) {
      ScalarsAreKept(e, x);
    }
    KeptMap(es, ElementToData(), U.Other(S.FromValue(x)), L.IsNot(Scalar(x)));
    ListIsMapped(es);
    ListIsMapped(L.Pull(es, Scalar(x)));
  }

  /** A field of a document replaced is replaced in MongoDB's. */
  lemma CellReplaced(schema: Schema, doc: Doc, f: string, v: V.Value)
    requires IsTyped(schema, doc) && schema.IsColumn(f)
    ensures S.FromDoc(doc.(cells := doc.cells[f := v])) == S.FromDoc(doc)[f := S.FromValue(v)]
    ensures IsTyped(schema, doc.(cells := doc.cells[f := v]))
  {
  }

  lemma ListReplaced(schema: Schema, doc: Doc, f: string, es: seq<Element>)
    requires IsTyped(schema, doc) && schema.IsList(f) && (schema.fields[f].ScalarList? ==> AreScalars(es))
    ensures S.FromDoc(doc.(lists := doc.lists[f := es])) == S.FromDoc(doc)[f := S.FromList(es)]
    ensures IsTyped(schema, doc.(lists := doc.lists[f := es]))
  {
  }

  lemma ChangeAgrees(schema: Schema, doc: Doc, c: Change)
    requires IsTyped(schema, doc) && IsTaken(schema, c) && U.CanApply(S.FromDoc(doc), FromChange(c))
    ensures U.Apply(S.FromDoc(doc), FromChange(c)) == S.FromDoc(ApplyChange(doc, c))
    ensures IsTyped(schema, ApplyChange(doc, c))
  {
    var data, f := S.FromDoc(doc), c.field;
    match c
    case Change(SetTo, _, ToValue(v)) => CellReplaced(schema, doc, f, v);
    case Change(SetTo, _, ToList(es)) => ListReplaced(schema, doc, f, es);
    case Change(Increment, _, ToValue(Num(n))) =>
      IncreaseIsTakenIffNumber(schema, doc, c);
      CellReplaced(schema, doc, f, Plus(doc.Cell(f), n));
    case Change(AddElement, _, ToValue(v)) =>
      AddAgrees(doc.List(f), v);
      ListReplaced(schema, doc, f, L.AddToSet(doc.List(f), Scalar(v)));
    case Change(PullElement, _, ToValue(v)) =>
      PullAgrees(doc.List(f), v);
      ListReplaced(schema, doc, f, L.Pull(doc.List(f), Scalar(v)));
    case _ =>
  }

  // ---- whole updates ----

  /** Every cell increased holds a number when its turn comes. */
  predicate IncreasesNumbers(doc: Doc, u: Update) {
    forall i :: 0 <= i < |u| && u[i].op == Increment ==> ApplyUpdate(doc, u[..i]).Cell(u[i].field).Num?
  }

  lemma IncreasesOneMore(doc: Doc, u: Update)
    requires u != []
    ensures var init, last := u[..|u| - 1], u[|u| - 1];
      IncreasesNumbers(doc, u)
      <==> IncreasesNumbers(doc, init) && (last.op == Increment ==> ApplyUpdate(doc, init).Cell(last.field).Num?)
  {
    var init := u[..|u| - 1];
    assert forall i :: 0 <= i < |init| ==> init[..i] == u[..i] && init[i] == u[i];
    if IncreasesNumbers(doc, u) {
      forall i | 0 <= i < |init| && init[i].op == Increment ensures ApplyUpdate(doc, init[..i]).Cell(init[i].field).Num? {
        assert u[i].op == Increment && init[..i] == u[..i];
      }
    }
  }

  /** MongoDB takes the operators, one after another, exactly if every cell they increase holds a
      number then; and makes of the document what they mean. */
  lemma {:induction false} OperatorsAgree(schema: Schema, doc: Doc, u: Update)
    requires IsTyped(schema, doc) && AreTaken(schema, u)
    ensures IsTyped(schema, ApplyUpdate(doc, u)) && Agrees(doc, u)
  {
    if u != [] {
      var init, last := u[..|u| - 1], u[|u| - 1];
      assert u == init + [last];
      OperatorsAgree(schema, doc, init);
      TypedAfter(schema, ApplyUpdate(doc, init), last);
      OneMoreAgrees(schema, doc, u);
    }
  }

  ghost predicate Agrees(doc: Doc, u: Update) {
    && (U.CanApplyAll(S.FromDoc(doc), FromUpdate(u)) <==> IncreasesNumbers(doc, u))
    && (IncreasesNumbers(doc, u) ==> U.ApplyAll(S.FromDoc(doc), FromUpdate(u)) == S.FromDoc(ApplyUpdate(doc, u)))
  }

  lemma OneMoreAgrees(schema: Schema, doc: Doc, u: Update)
    requires u != [] && IsTyped(schema, ApplyUpdate(doc, u[..|u| - 1])) && IsTaken(schema, u[|u| - 1])
    requires Agrees(doc, u[..|u| - 1])
    ensures Agrees(doc, u)
  {
    var init, last := u[..|u| - 1], u[|u| - 1];
    assert FromUpdate(u) == FromUpdate(init) + [FromChange(last)];
    U.OneMoreChange(S.FromDoc(doc), FromUpdate(init), FromChange(last));
    IncreasesOneMore(doc, u);
    if IncreasesNumbers(doc, init) {
      IncreaseIsTakenIffNumber(schema, ApplyUpdate(doc, init), last);
      if U.CanApply(S.FromDoc(ApplyUpdate(doc, init)), FromChange(last)) {
        ChangeAgrees(schema, ApplyUpdate(doc, init), last);
      }
    }
  }

  lemma TypedAfter(schema: Schema, doc: Doc, c: Change)
    requires IsTyped(schema, doc) && IsTaken(schema, c)
    ensures IsTyped(schema, ApplyChange(doc, c))
  {
    if c.op == Increment {
      CellReplaced(schema, doc, c.field, Plus(doc.Cell(c.field), c.written.v.n));
    } else {
      IncreaseIsTakenIffNumber(schema, doc, c);
      ChangeAgrees(schema, doc, c);
    }
  }

  predicate NamesOnce(u: Update) { forall i, j :: 0 <= i < j < |u| ==> u[i].field != u[j].field }

  /** What names each field once increases numbers exactly if the cells hold numbers to begin with. */
  lemma IncreasesNumbersIff(schema: Schema, doc: Doc, u: Update)
    requires NamesOnce(u)
    ensures IncreasesNumbers(doc, u) <==> forall c :: c in u && c.op == Increment ==> doc.Cell(c.field).Num?
  {
    forall i | 0 <= i < |u| ensures ApplyUpdate(doc, u[..i]).Cell(u[i].field) == doc.Cell(u[i].field) {
      forall c | c in u[..i] ensures c.field != u[i].field {
        var k :| 0 <= k < i && u[k] == c;
      }
      UnnamedIsKept(doc, u[..i], u[i].field);
    }
    if IncreasesNumbers(doc, u) {
      forall c | c in u && c.op == Increment ensures doc.Cell(c.field).Num? {
        var i :| 0 <= i < |u| && u[i] == c;
      }
    } else {
      var i :| 0 <= i < |u| && u[i].op == Increment && !ApplyUpdate(doc, u[..i]).Cell(u[i].field).Num?;
      assert u[i] in u;
    }
  }

  lemma {:induction false} UnnamedIsKept(doc: Doc, u: Update, f: string)
    requires forall c :: c in u ==> c.field != f
    ensures ApplyUpdate(doc, u).Cell(f) == doc.Cell(f)
  {
    if u != [] {
      assert u[|u| - 1] in u;
      UnnamedIsKept(doc, u[..|u| - 1], f);
    }
  }

  lemma {:induction false} TakenChanges(schema: Schema, u: Update)
    requires AreTaken(schema, u)
    ensures ChangesOf(schema, u).Ok?
  {
    if u != [] {
      assert u[|u| - 1] in u;
      TakenChanges(schema, u[..|u| - 1]);
    }
  }

  /** The stores update alike: of what names each field once, as MongoDB demands, and is of the
      fields' types, SQL takes all, and MongoDB, which refuses to increase a stored null, takes all
      if every cell increased holds a number; then both make the same document. */
  lemma StoresUpdateTheSame(schema: Schema, doc: Doc, u: Update, model: M.Model)
    requires IsTyped(schema, doc) && AreTaken(schema, u) && NamesOnce(u)
    requires U.IsStoredRecord(model, S.FromDoc(doc)) && forall c :: c in u ==> U.FitsChange(model, FromChange(c))
    ensures ChangesOf(schema, u).Ok?
    ensures var document, translated := M.Document(model, S.FromDoc(doc)), U.TranslateUpdate(model, FromUpdate(u));
      && (U.CanApplyAll(document, translated) <==> forall c :: c in u && c.op == Increment ==> doc.Cell(c.field).Num?)
      && (U.CanApplyAll(document, translated) ==>
            U.ApplyAll(document, translated) == M.Document(model, S.FromDoc(ApplyChanges(doc, ChangesOf(schema, u).value))))
  {
    TakenChanges(schema, u);
    OperatorsAgree(schema, doc, u);
    IncreasesNumbersIff(schema, doc, u);
    UpdateMeaning.ChangesAreOk(schema, u);
    UpdateMeaning.NamingOnceIsHarmless(u);
    UpdateMeaning.HarmlessWritesAreUpdate(schema, u, doc);
    U.UpdateCommutes(model, S.FromDoc(doc), FromUpdate(u));
  }
}
