/** What an update's column values and list writes make of a document, against its operators one
    after another. */
module UpdateMeaning {
  import opened Wrappers
  import opened Sequences
  import opened Values
  import opened Dialect
  import opened ListTables
  import opened Updates

  /** An update maps operators to fields, so no operator names a field twice. */
  predicate IsMapping(u: Update) {
    forall i, j :: 0 <= i < j < |u| ==> !(u[i].op == u[j].op && u[i].field == u[j].field)
  }

  predicate ChangesThere(c: Change) { c.op in {SetTo, Increment, AddElement, PullElement} }

  /** The changes of one field of a record there is, in order. */
  function Own(u: Update, f: string): (r: Update)
    ensures forall c :: c in r ==> c in u && c.field == f && ChangesThere(c)
  {
    if u == [] then []
    else
      var last := u[|u| - 1];
      Own(u[..|u| - 1], f) + if last.field == f && ChangesThere(last) then [last] else []
  }

  /** Elements are added and pulled as values. */
  predicate AreValued(cs: Update) { forall c :: c in cs && c.op in {AddElement, PullElement} ==> c.written.ToValue? }

  /** Whether a field's changes come in an order that SQL's own, which sets a list, adds to it and
      then pulls from it, and increases a column as it was, makes no difference to: no column is
      increased after it is set; what a later set overwrites would have added nothing and pulled
      nothing from the list set; and nothing is pulled and then added back. */
  predicate IsHarmless(cs: Update)
    requires AreValued(cs)
  {
    forall i, j :: 0 <= i < j < |cs| ==> IsHarmlessAt(cs, i, j)
  }

  predicate IsHarmlessAt(cs: Update, i: nat, j: nat)
    requires i < j < |cs| && AreValued(cs)
  {
    && !(cs[i].op == SetTo && cs[j].op == Increment)
    && (cs[i].op == AddElement && cs[j].op == SetTo && cs[j].written.ToList? ==>
          Scalar(cs[i].written.v) in cs[j].written.es || Pulls(cs, cs[i].written))
    && (cs[i].op == PullElement && cs[j].op == SetTo && cs[j].written.ToList? ==>
          Scalar(cs[i].written.v) !in cs[j].written.es)
    && (cs[i].op == PullElement && cs[j].op == AddElement ==> cs[i].written != cs[j].written || SetAfter(cs, j))
  }

  predicate Pulls(cs: Update, w: Written) { exists k :: 0 <= k < |cs| && cs[k].op == PullElement && cs[k].written == w }

  predicate SetAfter(cs: Update, j: nat) { exists k :: j < k < |cs| && cs[k].op == SetTo }

  /** Whether every field's changes come in a harmless order. */
  predicate OrderIsHarmless(u: Update)
    requires AreValued(u)
  {
    forall c :: c in u ==> IsHarmless(Own(u, c.field))
  }

  // ---- one field ----

  /** A list after one change of its own. */
  function ChangedList(c: Change, list: seq<Element>): seq<Element> {
    ApplyChange(Doc(map[], map[c.field := list]), c).List(c.field)
  }

  /** A cell after one change of its own. */
  function ChangedCell(c: Change, v: Value): Value {
    ApplyChange(Doc(map[c.field := v], map[]), c).Cell(c.field)
  }

  function ListAfter(cs: Update, list: seq<Element>): seq<Element> {
    if cs == [] then list else ChangedList(cs[|cs| - 1], ListAfter(cs[..|cs| - 1], list))
  }

  function CellAfter(cs: Update, v: Value): Value {
    if cs == [] then v else ChangedCell(cs[|cs| - 1], CellAfter(cs[..|cs| - 1], v))
  }

  function SetList(cs: Update, list: seq<Element>): seq<Element> {
    if cs == [] then list
    else if cs[|cs| - 1].op == SetTo then ChangedList(cs[|cs| - 1], list)
    else SetList(cs[..|cs| - 1], list)
  }

  function AddedTo(cs: Update, list: seq<Element>): seq<Element> {
    if cs == [] then list
    else
      var init := AddedTo(cs[..|cs| - 1], list);
      if cs[|cs| - 1].op == AddElement then ChangedList(cs[|cs| - 1], init) else init
  }

  function PulledFrom(cs: Update, list: seq<Element>): seq<Element> {
    if cs == [] then list
    else
      var init := PulledFrom(cs[..|cs| - 1], list);
      if cs[|cs| - 1].op == PullElement then ChangedList(cs[|cs| - 1], init) else init
  }

  /** A list as SQL writes it: set, then added to, then pulled from. */
  function ListWritten(cs: Update, list: seq<Element>): seq<Element> { PulledFrom(cs, AddedTo(cs, SetList(cs, list))) }

  /** A cell as SQL writes it: by its last change, from the row as it was. */
  function CellWritten(cs: Update, v: Value): Value { if cs == [] then v else ChangedCell(cs[|cs| - 1], v) }

  // ---- what SQL writes of an update, field by field ----

  lemma OwnOneMore(u: Update, f: string)
    requires u != []
    ensures var init, last := u[..|u| - 1], u[|u| - 1];
      Own(u, f) == if last.field == f && ChangesThere(last) then Own(init, f) + [last] else Own(init, f)
  {
  }

  lemma OneMore(cs: Update, c: Change, l: seq<Element>, v: Value)
    ensures ListAfter(cs + [c], l) == ChangedList(c, ListAfter(cs, l))
    ensures CellAfter(cs + [c], v) == ChangedCell(c, CellAfter(cs, v))
    ensures SetList(cs + [c], l) == if c.op == SetTo then ChangedList(c, l) else SetList(cs, l)
    ensures AddedTo(cs + [c], l) == if c.op == AddElement then ChangedList(c, AddedTo(cs, l)) else AddedTo(cs, l)
    ensures PulledFrom(cs + [c], l)
            == if c.op == PullElement then ChangedList(c, PulledFrom(cs, l)) else PulledFrom(cs, l)
    ensures CellWritten(cs + [c], v) == ChangedCell(c, v)
  {
    assert (cs + [c])[..|cs|] == cs;
  }

  lemma OneMoreSet(schema: Schema, ch: Changes, c: Change, f: string, l: seq<Element>)
    requires AddChange(schema, ch, c).Ok? && schema.IsList(f)
    ensures Replacement(AddChange(schema, ch, c).value, f, l)
            == if c.field == f && c.op == SetTo then ChangedList(c, l) else Replacement(ch, f, l)
  {
  }

  lemma OneMoreAddition(schema: Schema, ch: Changes, c: Change, f: string, l: seq<Element>)
    requires AddChange(schema, ch, c).Ok?
    ensures AddAll(AddChange(schema, ch, c).value.additions, f, l)
            == var init := AddAll(ch.additions, f, l);
               if c.field == f && c.op == AddElement then ChangedList(c, init) else init
  {
    if c.op == AddElement {
      assert (ch.additions + [(c.field, c.written.v)])[..|ch.additions|] == ch.additions;
    }
  }

  lemma OneMoreRemoval(schema: Schema, ch: Changes, c: Change, f: string, l: seq<Element>)
    requires AddChange(schema, ch, c).Ok?
    ensures PullAll(AddChange(schema, ch, c).value.removals, f, l)
            == var init := PullAll(ch.removals, f, l);
               if c.field == f && c.op == PullElement then ChangedList(c, init) else init
  {
    if c.op == PullElement {
      assert (ch.removals + [(c.field, c.written.v)])[..|ch.removals|] == ch.removals;
    }
  }

  lemma OneMoreValue(schema: Schema, ch: Changes, c: Change, f: string, v: Value)
    requires AddChange(schema, ch, c).Ok? && schema.IsColumn(f)
    ensures NewCell(AddChange(schema, ch, c).value, f, v)
            == if c.field == f && ChangesThere(c) then ChangedCell(c, v) else NewCell(ch, f, v)
  {
  }

  lemma {:induction false} SetByField(schema: Schema, u: Update, f: string, list: seq<Element>)
    requires ChangesOf(schema, u).Ok? && schema.IsList(f)
    ensures Replacement(ChangesOf(schema, u).value, f, list) == SetList(Own(u, f), list)
  {
    if u != [] {
      var init, last := u[..|u| - 1], u[|u| - 1];
      SetByField(schema, init, f, list);
      OwnOneMore(u, f);
      OneMore(Own(init, f), last, list, Null);
      OneMoreSet(schema, ChangesOf(schema, init).value, last, f, list);
    }
  }

  lemma {:induction false} AddsByField(schema: Schema, u: Update, ch: Changes, f: string, list: seq<Element>)
    requires ChangesOf(schema, u) == Ok(ch)
    ensures AddAll(ch.additions, f, list) == AddedTo(Own(u, f), list)
  {
    if u != [] {
      var init, last := u[..|u| - 1], u[|u| - 1];
      var before := ChangesOf(schema, init).value;
      AddsByField(schema, init, before, f, list);
      OwnOneMore(u, f);
      OneMore(Own(init, f), last, list, Null);
      OneMoreAddition(schema, before, last, f, list);
    }
  }

  lemma {:induction false} PullsByField(schema: Schema, u: Update, ch: Changes, f: string, list: seq<Element>)
    requires ChangesOf(schema, u) == Ok(ch)
    ensures PullAll(ch.removals, f, list) == PulledFrom(Own(u, f), list)
  {
    if u != [] {
      var init, last := u[..|u| - 1], u[|u| - 1];
      var before := ChangesOf(schema, init).value;
      PullsByField(schema, init, before, f, list);
      OwnOneMore(u, f);
      OneMore(Own(init, f), last, list, Null);
      OneMoreRemoval(schema, before, last, f, list);
    }
  }

  lemma ListByField(schema: Schema, u: Update, f: string, list: seq<Element>)
    requires ChangesOf(schema, u).Ok? && schema.IsList(f)
    ensures NewList(ChangesOf(schema, u).value, f, list) == ListWritten(Own(u, f), list)
  {
    var ch := ChangesOf(schema, u).value;
    SetByField(schema, u, f, list);
    AddsByField(schema, u, ch, f, Replacement(ch, f, list));
    PullsByField(schema, u, ch, f, AddAll(ch.additions, f, Replacement(ch, f, list)));
  }

  lemma {:induction false} CellByField(schema: Schema, u: Update, f: string, v: Value)
    requires ChangesOf(schema, u).Ok? && schema.IsColumn(f)
    ensures NewCell(ChangesOf(schema, u).value, f, v) == CellWritten(Own(u, f), v)
  {
    if u != [] {
      var init, last := u[..|u| - 1], u[|u| - 1];
      CellByField(schema, init, f, v);
      OwnOneMore(u, f);
      OneMore(Own(init, f), last, [], v);
      OneMoreValue(schema, ChangesOf(schema, init).value, last, f, v);
    }
  }

  // ---- what the operators make of a document, field by field ----

  /** A change of a column changes its cell, and one of a list its list, and nothing else. */
  lemma ApplyChangeParts(schema: Schema, ch: Changes, c: Change, doc: Doc)
    requires Shaped(schema, doc) && AddChange(schema, ch, c).Ok?
    ensures ApplyChange(doc, c).cells.Keys == doc.cells.Keys
    ensures ApplyChange(doc, c).lists.Keys == doc.lists.Keys
    ensures forall f :: f in doc.cells ==>
      ApplyChange(doc, c).cells[f] == if f == c.field && ChangesThere(c) then ChangedCell(c, doc.cells[f]) else doc.cells[f]
    ensures forall f :: f in doc.lists ==>
      ApplyChange(doc, c).lists[f] == if f == c.field && ChangesThere(c) then ChangedList(c, doc.lists[f]) else doc.lists[f]
  {
  }

  lemma {:induction false} UpdateKeepsFields(schema: Schema, u: Update, doc: Doc)
    requires Shaped(schema, doc) && ChangesOf(schema, u).Ok?
    ensures Shaped(schema, ApplyUpdate(doc, u))
    ensures ApplyUpdate(doc, u).cells.Keys == doc.cells.Keys && ApplyUpdate(doc, u).lists.Keys == doc.lists.Keys
  {
    if u != [] {
      var init, last := u[..|u| - 1], u[|u| - 1];
      UpdateKeepsFields(schema, init, doc);
      ApplyChangeParts(schema, ChangesOf(schema, init).value, last, ApplyUpdate(doc, init));
    }
  }

  lemma {:induction false} CellAfterUpdate(schema: Schema, u: Update, doc: Doc, f: string)
    requires Shaped(schema, doc) && ChangesOf(schema, u).Ok? && f in doc.cells
    ensures f in ApplyUpdate(doc, u).cells && ApplyUpdate(doc, u).cells[f] == CellAfter(Own(u, f), doc.cells[f])
  {
    if u != [] {
      var init, last := u[..|u| - 1], u[|u| - 1];
      CellAfterUpdate(schema, init, doc, f);
      UpdateKeepsFields(schema, init, doc);
      ApplyChangeParts(schema, ChangesOf(schema, init).value, last, ApplyUpdate(doc, init));
      OwnOneMore(u, f);
      OneMore(Own(init, f), last, [], doc.cells[f]);
    }
  }

  lemma {:induction false} ListAfterUpdate(schema: Schema, u: Update, doc: Doc, f: string)
    requires Shaped(schema, doc) && ChangesOf(schema, u).Ok? && f in doc.lists
    ensures f in ApplyUpdate(doc, u).lists && ApplyUpdate(doc, u).lists[f] == ListAfter(Own(u, f), doc.lists[f])
  {
    if u != [] {
      var init, last := u[..|u| - 1], u[|u| - 1];
      ListAfterUpdate(schema, init, doc, f);
      UpdateKeepsFields(schema, init, doc);
      ApplyChangeParts(schema, ChangesOf(schema, init).value, last, ApplyUpdate(doc, init));
      OwnOneMore(u, f);
      OneMore(Own(init, f), last, doc.lists[f], Null);
    }
  }

  lemma UpdateByField(schema: Schema, u: Update, doc: Doc)
    requires Shaped(schema, doc) && ChangesOf(schema, u).Ok?
    ensures Shaped(schema, ApplyUpdate(doc, u))
    ensures ApplyUpdate(doc, u).cells.Keys == doc.cells.Keys && ApplyUpdate(doc, u).lists.Keys == doc.lists.Keys
    ensures forall f :: f in doc.cells ==> ApplyUpdate(doc, u).cells[f] == CellAfter(Own(u, f), doc.cells[f])
    ensures forall f :: f in doc.lists ==> ApplyUpdate(doc, u).lists[f] == ListAfter(Own(u, f), doc.lists[f])
  {
    UpdateKeepsFields(schema, u, doc);
    forall f | f in doc.cells ensures ApplyUpdate(doc, u).cells[f] == CellAfter(Own(u, f), doc.cells[f]) {
      CellAfterUpdate(schema, u, doc, f);
    }
    forall f | f in doc.lists ensures ApplyUpdate(doc, u).lists[f] == ListAfter(Own(u, f), doc.lists[f]) {
      ListAfterUpdate(schema, u, doc, f);
    }
  }

  // ---- a list's changes ----

  predicate IsListChange(c: Change) {
    if c.op == SetTo then c.written.ToList? else c.op in {AddElement, PullElement} && c.written.ToValue?
  }

  predicate IsColumnChange(c: Change) {
    c.written.ToValue? && (c.op == SetTo || (c.op == Increment && c.written.v.Num?))
  }

  predicate OpsDiffer(cs: Update) { forall i, j :: 0 <= i < j < |cs| ==> cs[i].op != cs[j].op }

  lemma ElementFacts(l: seq<Element>, x: Element, y: Element)
    ensures y !in l ==> Pull(l, y) == l
    ensures forall z :: z in Pull(l, y) <==> z in l && z != y
    ensures x != y ==> Pull(AddToSet(l, x), y) == AddToSet(Pull(l, y), x)
    ensures Pull(AddToSet(l, x), x) == Pull(l, x)
    ensures x in AddToSet(l, x) && (x !in l ==> AddToSet(l, x) != l)
  {
    if y !in l {
      KeptAll(l, IsNot(y));
    }
    KeptAppend(l, [x], IsNot(y));
    KeptAppend(l, [x], IsNot(x));
    assert Kept([x], IsNot(y)) == (if x != y then [x] else []) && Kept([x], IsNot(x)) == [];
  }

  /** The element a change adds or pulls. */
  function ElementOf(c: Change): Element
    requires c.written.ToValue?
  {
    Scalar(c.written.v)
  }

  lemma ChangedLists(c: Change, l: seq<Element>)
    requires IsListChange(c)
    ensures ChangedList(c, l) == match c.op
      case SetTo => c.written.es
      case AddElement => AddToSet(l, ElementOf(c))
      case _ => Pull(l, ElementOf(c))
  {
  }

  /** The change by an operator, if there is one. */
  function The(cs: Update, op: UpdateOp): (r: Option<Change>)
    ensures r.Some? ==> r.value in cs && r.value.op == op
  {
    if cs == [] then None else if cs[|cs| - 1].op == op then Some(cs[|cs| - 1]) else The(cs[..|cs| - 1], op)
  }

  function IfSome(c: Option<Change>, l: seq<Element>): seq<Element> { if c.Some? then ChangedList(c.value, l) else l }

  lemma {:induction false} TheAbsent(cs: Update, op: UpdateOp)
    requires forall c :: c in cs ==> c.op != op
    ensures The(cs, op) == None
  {
    if cs != [] {
      TheAbsent(cs[..|cs| - 1], op);
    }
  }

  lemma OpsDifferBefore(cs: Update)
    requires cs != [] && OpsDiffer(cs)
    ensures OpsDiffer(cs[..|cs| - 1]) && The(cs[..|cs| - 1], cs[|cs| - 1].op) == None
  {
    TheAbsent(cs[..|cs| - 1], cs[|cs| - 1].op);
  }

  lemma {:induction false} SetListIs(cs: Update, l: seq<Element>)
    ensures SetList(cs, l) == IfSome(The(cs, SetTo), l)
  {
    if cs != [] {
      SetListIs(cs[..|cs| - 1], l);
    }
  }

  lemma {:induction false} AddedToIs(cs: Update, l: seq<Element>)
    requires OpsDiffer(cs)
    ensures AddedTo(cs, l) == IfSome(The(cs, AddElement), l)
  {
    if cs != [] {
      OpsDifferBefore(cs);
      AddedToIs(cs[..|cs| - 1], l);
    }
  }

  lemma {:induction false} PulledFromIs(cs: Update, l: seq<Element>)
    requires OpsDiffer(cs)
    ensures PulledFrom(cs, l) == IfSome(The(cs, PullElement), l)
  {
    if cs != [] {
      OpsDifferBefore(cs);
      PulledFromIs(cs[..|cs| - 1], l);
    }
  }

  /** Whatever their order, SQL sets the list, adds to it and pulls from it. */
  lemma WrittenIs(cs: Update, l: seq<Element>)
    requires OpsDiffer(cs)
    ensures ListWritten(cs, l)
            == IfSome(The(cs, PullElement), IfSome(The(cs, AddElement), IfSome(The(cs, SetTo), l)))
  {
    SetListIs(cs, l);
    AddedToIs(cs, SetList(cs, l));
    PulledFromIs(cs, AddedTo(cs, SetList(cs, l)));
  }

  lemma One(a: Change, l: seq<Element>, op: UpdateOp)
    ensures ListAfter([a], l) == ChangedList(a, l)
    ensures The([a], op) == if a.op == op then Some(a) else None
  {
    assert [a][..0] == [];
  }

  lemma Two(a: Change, b: Change, l: seq<Element>, op: UpdateOp)
    ensures ListAfter([a, b], l) == ChangedList(b, ChangedList(a, l))
    ensures The([a, b], op) == if b.op == op then Some(b) else if a.op == op then Some(a) else None
  {
    One(a, l, op);
    assert [a, b][..1] == [a];
  }

  lemma Three(a: Change, b: Change, c: Change, l: seq<Element>, op: UpdateOp)
    ensures ListAfter([a, b, c], l) == ChangedList(c, ChangedList(b, ChangedList(a, l)))
    ensures The([a, b, c], op)
            == if c.op == op then Some(c) else if b.op == op then Some(b) else if a.op == op then Some(a) else None
  {
    Two(a, b, l, op);
    assert [a, b, c][..2] == [a, b];
  }

  // ---- which orders of a list's changes are harmless ----

  /** What an earlier and a later change of one list may be, if no other stands by them. */
  predicate IsHarmlessPair(a: Change, b: Change)
    requires IsListChange(a) && IsListChange(b)
  {
    && (a.op == AddElement && b.op == SetTo ==> ElementOf(a) in b.written.es)
    && (a.op == PullElement && b.op == SetTo ==> ElementOf(a) !in b.written.es)
    && (a.op == PullElement && b.op == AddElement ==> ElementOf(a) != ElementOf(b))
  }

  lemma TwoAreHarmless(a: Change, b: Change)
    requires IsListChange(a) && IsListChange(b) && a.op != b.op
    ensures IsHarmless([a, b]) <==> IsHarmlessPair(a, b)
  {
    var cs := [a, b];
    assert cs[0] == a && cs[1] == b && !SetAfter(cs, 1);
    assert a.op == AddElement && b.op == SetTo ==> !Pulls(cs, a.written);
    assert IsHarmless(cs) <==> IsHarmlessAt(cs, 0, 1);
  }

  /** SQL writes one of two changes first: what is set, and before what is pulled. */
  lemma TwoWritten(a: Change, b: Change, l: seq<Element>)
    requires IsListChange(a) && IsListChange(b) && a.op != b.op
    ensures ListAfter([a, b], l) == ChangedList(b, ChangedList(a, l))
    ensures ListWritten([a, b], l) == if a.op == SetTo || b.op == PullElement
      then ChangedList(b, ChangedList(a, l)) else ChangedList(a, ChangedList(b, l))
  {
    Two(a, b, l, SetTo);
    Two(a, b, l, AddElement);
    Two(a, b, l, PullElement);
    WrittenIs([a, b], l);
  }

  lemma TwoAreHarmlessIff(a: Change, b: Change, l: seq<Element>)
    requires IsListChange(a) && IsListChange(b) && a.op != b.op
    ensures ListWritten([a, b], l) == ListAfter([a, b], l) <==> IsHarmless([a, b])
  {
    TwoWritten(a, b, l);
    TwoAreHarmless(a, b);
    if b.op == SetTo {
      ElementFacts(b.written.es, ElementOf(a), ElementOf(a));
    } else if a.op == PullElement {
      ElementFacts(l, ElementOf(b), ElementOf(a));
      ElementFacts(Pull(l, ElementOf(a)), ElementOf(b), ElementOf(b));
      ElementFacts(AddToSet(l, ElementOf(b)), ElementOf(a), ElementOf(a));
    }
  }

  lemma {:induction false} ThePresent(cs: Update, c: Change)
    requires OpsDiffer(cs) && c in cs
    ensures The(cs, c.op) == Some(c)
  {
    if cs[|cs| - 1] != c {
      assert c in cs[..|cs| - 1];
      ThePresent(cs[..|cs| - 1], c);
    }
  }

  /** A list's three changes, in any order. */
  ghost predicate AreThree(cs: Update, s: Change, x: Change, p: Change) {
    && |cs| == 3 && OpsDiffer(cs) && s in cs && x in cs && p in cs
    && IsListChange(s) && IsListChange(x) && IsListChange(p)
    && s.op == SetTo && x.op == AddElement && p.op == PullElement
    && forall c :: c in cs ==> IsListChange(c)
  }

  lemma ThreeWritten(cs: Update, s: Change, x: Change, p: Change, l: seq<Element>)
    requires AreThree(cs, s, x, p)
    ensures ListWritten(cs, l) == Pull(AddToSet(s.written.es, ElementOf(x)), ElementOf(p))
    ensures ListAfter(cs, l) == ChangedList(cs[2], ChangedList(cs[1], ChangedList(cs[0], l)))
  {
    ThePresent(cs, s);
    ThePresent(cs, x);
    ThePresent(cs, p);
    WrittenIs(cs, l);
    assert cs == [cs[0], cs[1], cs[2]];
    Three(cs[0], cs[1], cs[2], l, SetTo);
  }

  lemma ThreePairs(cs: Update)
    requires |cs| == 3 && AreValued(cs)
    ensures IsHarmless(cs) <==> IsHarmlessAt(cs, 0, 1) && IsHarmlessAt(cs, 0, 2) && IsHarmlessAt(cs, 1, 2)
  {
  }

  lemma ThreeAreHarmless(cs: Update, s: Change, x: Change, p: Change)
    requires AreThree(cs, s, x, p)
    ensures IsHarmless(cs) <==>
      && (cs[0] == x || cs[2] == s ==> ElementOf(x) in s.written.es || x.written == p.written)
      && (cs[0] == p || cs[2] == s ==> ElementOf(p) !in s.written.es)
      && (cs[2] == x ==> x.written != p.written)
  {
    ThreePairs(cs);
    assert Pulls(cs, x.written) <==> x.written == p.written;
    assert !SetAfter(cs, 2) && (SetAfter(cs, 1) <==> cs[2] == s);
  }

  lemma ThreeAreHarmlessIff(cs: Update, s: Change, x: Change, p: Change, l: seq<Element>)
    requires AreThree(cs, s, x, p)
    ensures ListWritten(cs, l) == ListAfter(cs, l) <==> IsHarmless(cs)
  {
    ThreeWritten(cs, s, x, p, l);
    ThreeAreHarmless(cs, s, x, p);
    ThreeAfter(cs, s, x, p, l);
    ThreeCompare(s.written.es, ElementOf(x), ElementOf(p));
  }

  lemma ThreeAfter(cs: Update, s: Change, x: Change, p: Change, l: seq<Element>)
    requires AreThree(cs, s, x, p)
    ensures ListAfter(cs, l) ==
      if cs[2] == s then s.written.es
      else if cs[2] == x && cs[0] == s then AddToSet(Pull(s.written.es, ElementOf(p)), ElementOf(x))
      else if cs[2] == x then AddToSet(s.written.es, ElementOf(x))
      else if cs[0] == s then Pull(AddToSet(s.written.es, ElementOf(x)), ElementOf(p))
      else Pull(s.written.es, ElementOf(p))
  {
    ThreeWritten(cs, s, x, p, l);
    var one := ChangedList(cs[0], l);
    ChangedLists(cs[0], l);
    ChangedLists(cs[1], one);
    ChangedLists(cs[2], ChangedList(cs[1], one));
  }

  /** What is set, added to and pulled from, against each other order of the three. */
  lemma ThreeCompare(es: seq<Element>, x: Element, p: Element)
    ensures var written := Pull(AddToSet(es, x), p);
      && (written == es <==> p !in es && (x in es || x == p))
      && (written == AddToSet(Pull(es, p), x) <==> x != p)
      && (written == AddToSet(es, x) <==> x != p && p !in es)
      && (written == Pull(es, p) <==> x in es || x == p)
  {
    ElementFacts(es, x, p);
    ElementFacts(Pull(es, p), x, x);
    ElementFacts(AddToSet(es, x), p, p);
  }

  /** Of a list's changes, each by another operator, SQL's writes make what the changes make, of
      any list, exactly in a harmless order. */
  lemma ListIsHarmlessIff(cs: Update, l: seq<Element>)
    requires OpsDiffer(cs) && AreValued(cs) && forall c :: c in cs ==> IsListChange(c)
    ensures ListWritten(cs, l) == ListAfter(cs, l) <==> IsHarmless(cs)
  {
    if |cs| == 1 {
      assert cs == [cs[0]];
      One(cs[0], l, SetTo);
      One(cs[0], l, AddElement);
      One(cs[0], l, PullElement);
      WrittenIs(cs, l);
    } else if |cs| == 2 {
      assert cs == [cs[0], cs[1]];
      TwoAreHarmlessIff(cs[0], cs[1], l);
    } else if |cs| >= 3 {
      AtMostThree(cs);
      var s :| s in cs && s.op == SetTo;
      var x :| x in cs && x.op == AddElement;
      var p :| p in cs && p.op == PullElement;
      ThreeAreHarmlessIff(cs, s, x, p, l);
    }
  }

  lemma AtMostThree(cs: Update)
    requires OpsDiffer(cs) && |cs| >= 3 && forall c :: c in cs ==> IsListChange(c)
    ensures |cs| == 3
    ensures exists c :: c in cs && c.op == SetTo
    ensures exists c :: c in cs && c.op == AddElement
    ensures exists c :: c in cs && c.op == PullElement
  {
    var other := if |cs| > 3 then cs[3] else cs[0];
    assert other in cs && IsListChange(other);
    assert IsListChange(cs[0]) && IsListChange(cs[1]) && IsListChange(cs[2]);
  }

  // ---- a column's changes ----

  /** A value that tells a column's set-then-increased from its increased. */
  function Telling(w: Value): Value { if w.Num? then Num(w.n + 1.0) else Num(1.0) }

  lemma ColumnChanged(c: Change, v: Value)
    requires IsColumnChange(c)
    ensures ChangedCell(c, v) == if c.op == SetTo then c.written.v else Plus(v, c.written.v.n)
  {
  }

  /** Of a column's changes the last one decides, unless it increases what an earlier one set. */
  lemma ColumnIsHarmless(cs: Update, v: Value)
    requires OpsDiffer(cs) && AreValued(cs) && forall c :: c in cs ==> IsColumnChange(c)
    ensures IsHarmless(cs) ==> CellWritten(cs, v) == CellAfter(cs, v)
    ensures !IsHarmless(cs) ==> |cs| == 2 && cs[0].written.ToValue?
    ensures !IsHarmless(cs) ==> CellWritten(cs, Telling(cs[0].written.v)) != CellAfter(cs, Telling(cs[0].written.v))
  {
    if |cs| >= 2 {
      var other := if |cs| > 2 then cs[2] else cs[0];
      assert other in cs && IsColumnChange(other);
      assert IsColumnChange(cs[0]) && IsColumnChange(cs[1]);
      ColumnPair(cs, v);
    } else if |cs| == 1 {
      assert cs[..0] == [];
    }
  }

  lemma ColumnPair(cs: Update, v: Value)
    requires |cs| == 2 && cs[0].op != cs[1].op && AreValued(cs) && IsColumnChange(cs[0]) && IsColumnChange(cs[1])
    ensures IsHarmless(cs) <==> cs[0].op != SetTo
    ensures IsHarmless(cs) ==> CellWritten(cs, v) == CellAfter(cs, v)
    ensures !IsHarmless(cs) ==> CellWritten(cs, Telling(cs[0].written.v)) != CellAfter(cs, Telling(cs[0].written.v))
  {
    assert IsHarmless(cs) <==> IsHarmlessAt(cs, 0, 1);
    assert cs[..1] == [cs[0]] && [cs[0]][..0] == [];
    assert CellAfter([cs[0]], v) == ChangedCell(cs[0], v);
    ColumnChanged(cs[0], v);
    ColumnChanged(cs[1], v);
    ColumnChanged(cs[1], ChangedCell(cs[0], v));
    var w := Telling(cs[0].written.v);
    assert CellAfter([cs[0]], w) == ChangedCell(cs[0], w);
    ColumnChanged(cs[0], w);
    ColumnChanged(cs[1], w);
    ColumnChanged(cs[1], ChangedCell(cs[0], w));
  }

  // ---- whole updates ----

  lemma {:induction false} OwnOpsDiffer(u: Update, f: string)
    requires IsMapping(u)
    ensures OpsDiffer(Own(u, f))
  {
    if u != [] {
      var init, last := u[..|u| - 1], u[|u| - 1];
      OwnOpsDiffer(init, f);
      forall c | c in Own(init, f) && last.field == f ensures c.op != last.op {
        var i :| 0 <= i < |init| && init[i] == c;
        assert u[i] == c;
      }
    }
  }

  lemma {:induction false} ChangesAreOk(schema: Schema, u: Update)
    requires ChangesOf(schema, u).Ok?
    ensures forall c :: c in u ==> AddChange(schema, NO_CHANGES, c).Ok?
    ensures AreValued(u)
  {
    if u != [] {
      var init, last := u[..|u| - 1], u[|u| - 1];
      ChangesAreOk(schema, init);
      assert u == init + [last];
      AddingIsOk(schema, ChangesOf(schema, init).value, last);
    }
  }

  /** Whether a change can be added depends on nothing that was added before. */
  lemma AddingIsOk(schema: Schema, ch: Changes, c: Change)
    ensures AddChange(schema, ch, c).Ok? <==> AddChange(schema, NO_CHANGES, c).Ok?
    ensures AddChange(schema, ch, c).Ok? && c.op in {AddElement, PullElement} ==> c.written.ToValue?
  {
  }

  lemma OwnAreOfKind(schema: Schema, u: Update, f: string)
    requires ChangesOf(schema, u).Ok?
    ensures AreValued(Own(u, f))
    ensures schema.IsList(f) ==> forall c :: c in Own(u, f) ==> IsListChange(c)
    ensures schema.IsColumn(f) ==> forall c :: c in Own(u, f) ==> IsColumnChange(c)
    ensures Own(u, f) != [] ==> schema.IsList(f) || schema.IsColumn(f)
  {
    ChangesAreOk(schema, u);
    forall c | c in Own(u, f)
      ensures c.op in {AddElement, PullElement} ==> c.written.ToValue?
      ensures schema.IsList(f) ==> IsListChange(c)
      ensures schema.IsColumn(f) ==> IsColumnChange(c)
      ensures schema.IsList(f) || schema.IsColumn(f)
    {
      assert AddChange(schema, NO_CHANGES, c).Ok?;
    }
    if Own(u, f) != [] {
      assert Own(u, f)[0] in Own(u, f);
    }
  }

  /** Whether SQL's writes of an update make of a document what its operators make of it. */
  ghost predicate WritesAreUpdate(schema: Schema, u: Update, doc: Doc)
    requires ChangesOf(schema, u).Ok?
  {
    ApplyChanges(doc, ChangesOf(schema, u).value) == ApplyUpdate(doc, u)
  }

  lemma {:induction false} OwnIsEmpty(u: Update, f: string)
    requires forall c :: c in u ==> c.field != f
    ensures Own(u, f) == []
  {
    if u != [] {
      OwnIsEmpty(u[..|u| - 1], f);
    }
  }

  lemma HarmlessIsHarmless(u: Update, f: string)
    requires AreValued(u) && OrderIsHarmless(u)
    ensures AreValued(Own(u, f)) && IsHarmless(Own(u, f))
  {
    if c :| c in u && c.field == f {
      assert IsHarmless(Own(u, c.field));
    } else {
      OwnIsEmpty(u, f);
    }
  }

  lemma HarmlessCell(schema: Schema, u: Update, f: string, v: Value)
    requires ChangesOf(schema, u).Ok? && IsMapping(u) && schema.IsColumn(f)
    requires AreValued(u) && OrderIsHarmless(u)
    ensures NewCell(ChangesOf(schema, u).value, f, v) == CellAfter(Own(u, f), v)
  {
    CellByField(schema, u, f, v);
    OwnOpsDiffer(u, f);
    OwnAreOfKind(schema, u, f);
    HarmlessIsHarmless(u, f);
    ColumnIsHarmless(Own(u, f), v);
  }

  lemma HarmlessList(schema: Schema, u: Update, f: string, l: seq<Element>)
    requires ChangesOf(schema, u).Ok? && IsMapping(u) && schema.IsList(f)
    requires AreValued(u) && OrderIsHarmless(u)
    ensures NewList(ChangesOf(schema, u).value, f, l) == ListAfter(Own(u, f), l)
  {
    ListByField(schema, u, f, l);
    OwnOpsDiffer(u, f);
    OwnAreOfKind(schema, u, f);
    HarmlessIsHarmless(u, f);
    ListIsHarmlessIff(Own(u, f), l);
  }

  lemma HarmlessWritesAreUpdate(schema: Schema, u: Update, doc: Doc)
    requires Shaped(schema, doc) && ChangesOf(schema, u).Ok? && IsMapping(u)
    requires AreValued(u) && OrderIsHarmless(u)
    ensures WritesAreUpdate(schema, u, doc)
  {
    forall f | f in doc.cells ensures NewCell(ChangesOf(schema, u).value, f, doc.cells[f]) == CellAfter(Own(u, f), doc.cells[f]) {
      HarmlessCell(schema, u, f, doc.cells[f]);
    }
    forall f | f in doc.lists ensures NewList(ChangesOf(schema, u).value, f, doc.lists[f]) == ListAfter(Own(u, f), doc.lists[f]) {
      HarmlessList(schema, u, f, doc.lists[f]);
    }
    FieldsMakeWhole(schema, u, doc);
  }

  lemma FieldsMakeWhole(schema: Schema, u: Update, doc: Doc)
    requires Shaped(schema, doc) && ChangesOf(schema, u).Ok?
    requires forall f :: f in doc.cells ==>
      NewCell(ChangesOf(schema, u).value, f, doc.cells[f]) == CellAfter(Own(u, f), doc.cells[f])
    requires forall f :: f in doc.lists ==>
      NewList(ChangesOf(schema, u).value, f, doc.lists[f]) == ListAfter(Own(u, f), doc.lists[f])
    ensures WritesAreUpdate(schema, u, doc)
  {
    UpdateByField(schema, u, doc);
    SameParts(ApplyChanges(doc, ChangesOf(schema, u).value), ApplyUpdate(doc, u));
  }

  lemma SameParts(left: Doc, right: Doc)
    requires left.cells.Keys == right.cells.Keys && forall f :: f in left.cells ==> left.cells[f] == right.cells[f]
    requires left.lists.Keys == right.lists.Keys && forall f :: f in left.lists ==> left.lists[f] == right.lists[f]
    ensures left == right
  {
    assert left.cells == right.cells && left.lists == right.lists;
  }

  /** A document with a value in one column, and nothing else. */
  function DocWith(schema: Schema, field: string, v: Value): (doc: Doc)
    ensures Shaped(schema, doc)
  {
    Doc(map f | f in schema.fields && schema.IsColumn(f) :: if f == field then v else Null,
        map f | f in schema.fields && schema.IsList(f) :: [])
  }

  lemma HarmfulDiffers(schema: Schema, u: Update, f: string) returns (doc: Doc)
    requires ChangesOf(schema, u).Ok? && IsMapping(u)
    requires AreValued(Own(u, f)) && !IsHarmless(Own(u, f))
    ensures Shaped(schema, doc) && !WritesAreUpdate(schema, u, doc)
  {
    var cs := Own(u, f);
    OwnOpsDiffer(u, f);
    OwnAreOfKind(schema, u, f);
    doc := DocWith(schema, f, if schema.IsColumn(f) && cs[0].written.ToValue? then Telling(cs[0].written.v) else Null);
    UpdateByField(schema, u, doc);
    if schema.IsList(f) {
      ListByField(schema, u, f, []);
      ListIsHarmlessIff(cs, []);
      assert ApplyChanges(doc, ChangesOf(schema, u).value).lists[f] != ApplyUpdate(doc, u).lists[f];
    } else {
      ColumnIsHarmless(cs, Null);
      CellByField(schema, u, f, doc.cells[f]);
      assert ApplyChanges(doc, ChangesOf(schema, u).value).cells[f] != ApplyUpdate(doc, u).cells[f];
    }
  }

  /** SQL's writes make of every document what the operators, one after another, make of it,
      exactly if each field's changes come in a harmless order. */
  lemma WritesAreUpdateIffHarmless(schema: Schema, u: Update)
    requires ChangesOf(schema, u).Ok? && IsMapping(u)
    ensures AreValued(u)
    ensures (forall doc :: Shaped(schema, doc) ==> WritesAreUpdate(schema, u, doc)) <==> OrderIsHarmless(u)
  {
    ChangesAreOk(schema, u);
    if OrderIsHarmless(u) {
      forall doc | Shaped(schema, doc) ensures WritesAreUpdate(schema, u, doc) {
        HarmlessWritesAreUpdate(schema, u, doc);
      }
    } else {
      var c :| c in u && !IsHarmless(Own(u, c.field));
      var doc := HarmfulDiffers(schema, u, c.field);
    }
  }

  /** An update that names each field once, as MongoDB demands, is harmless. */
  lemma NamingOnceIsHarmless(u: Update)
    requires AreValued(u) && forall i, j :: 0 <= i < j < |u| ==> u[i].field != u[j].field
    ensures IsMapping(u) && OrderIsHarmless(u)
  {
    forall c | c in u ensures IsHarmless(Own(u, c.field)) {
      OwnIsOne(u, c.field);
    }
  }

  lemma {:induction false} OwnIsOne(u: Update, f: string)
    requires forall i, j :: 0 <= i < j < |u| ==> u[i].field != u[j].field
    ensures |Own(u, f)| <= 1
  {
    if u != [] {
      var init := u[..|u| - 1];
      OwnIsOne(init, f);
      if Own(init, f) != [] {
        var c := Own(init, f)[0];
        var i :| 0 <= i < |init| && init[i] == c;
        assert u[i].field == f;
      }
    }
  }

  const SET_TO_5 := Change(SetTo, "n", ToValue(Num(5.0)))
  const INCREASE_BY_1 := Change(Increment, "n", ToValue(Num(1.0)))

  /** Of one that names a field twice the order tells: `$set` to 5 then `$inc` by 1 leaves 1 of a
      null, where the operators leave 6; the other way round both leave 5, of any document. */
  lemma OrderTells(schema: Schema, doc: Doc)
    requires schema.fields == map["n" := Column] && doc == Doc(map["n" := Null], map[])
    ensures var u := [SET_TO_5, INCREASE_BY_1];
      && ChangesOf(schema, u).Ok? && AreValued(u) && !OrderIsHarmless(u) && OrderIsHarmless([INCREASE_BY_1, SET_TO_5])
      && ApplyChanges(doc, ChangesOf(schema, u).value).Cell("n") == Num(1.0)
      && ApplyUpdate(doc, u).Cell("n") == Num(6.0)
  {
    SetThenIncrease(schema, doc);
    SetThenIncreaseIsHarmful();
  }

  lemma SetThenIncreaseIsHarmful()
    ensures AreValued([SET_TO_5, INCREASE_BY_1]) && !OrderIsHarmless([SET_TO_5, INCREASE_BY_1])
    ensures AreValued([INCREASE_BY_1, SET_TO_5]) && OrderIsHarmless([INCREASE_BY_1, SET_TO_5])
  {
    PairIsHarmlessIff(SET_TO_5, INCREASE_BY_1);
    PairIsHarmlessIff(INCREASE_BY_1, SET_TO_5);
  }

  /** Two changes of one column. */
  lemma PairIsHarmlessIff(a: Change, b: Change)
    requires a.field == b.field && {a.op, b.op} == {SetTo, Increment}
    ensures AreValued([a, b])
    ensures OrderIsHarmless([a, b]) <==> a.op == Increment
  {
    var u := [a, b];
    OwnOfTwo(a, b);
    assert u[0] == a && u[1] == b && a in u;
    assert IsHarmless(u) <==> IsHarmlessAt(u, 0, 1);
    assert OrderIsHarmless(u) <==> IsHarmless(u) by {
      assert forall c :: c in u ==> Own(u, c.field) == u;
    }
  }

  lemma SetThenIncrease(schema: Schema, doc: Doc)
    requires schema.fields == map["n" := Column] && doc == Doc(map["n" := Null], map[])
    ensures var u := [SET_TO_5, INCREASE_BY_1];
      && ChangesOf(schema, u).Ok?
      && ApplyChanges(doc, ChangesOf(schema, u).value).Cell("n") == Num(1.0)
      && ApplyUpdate(doc, u).Cell("n") == Num(6.0)
  {
    var u := [SET_TO_5, INCREASE_BY_1];
    assert u[..1] == [SET_TO_5] && [SET_TO_5][..0] == [];
    assert ChangesOf(schema, [SET_TO_5]) == AddChange(schema, NO_CHANGES, SET_TO_5);
    assert ChangesOf(schema, u) == AddChange(schema, ChangesOf(schema, [SET_TO_5]).value, INCREASE_BY_1);
    assert ApplyUpdate(doc, [SET_TO_5]) == ApplyChange(doc, SET_TO_5);
    assert ApplyUpdate(doc, u) == ApplyChange(ApplyUpdate(doc, [SET_TO_5]), INCREASE_BY_1);
  }

  lemma OwnOfTwo(a: Change, b: Change)
    requires a.field == b.field && ChangesThere(a) && ChangesThere(b)
    ensures Own([a, b], a.field) == [a, b]
  {
    assert [a, b][..1] == [a] && [a][..0] == [];
    assert Own([a], a.field) == [a];
  }
}
