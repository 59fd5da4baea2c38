/** Sorting: ORDER BY against the dialect's sort, a stable one with None lowest. */
module SqlOrdering {
  import opened Wrappers
  import opened Sequences
  import opened Values
  import opened Dialect
  import opened Sql

  datatype SortKey = SortKey(field: string, isDescending: bool)

  function StripDashes(s: string): (r: string)
    ensures r == [] || r[0] != '-'
  {
    if s != [] && s[0] == '-' then StripDashes(s[1..]) else s
  }

  function ParseSort(sort: seq<string>): (r: seq<SortKey>) {
    Map(sort, s => SortKey(StripDashes(s), s != [] && s[0] == '-'))
  }

  // ---- the meaning ----

  /** Whether a sort key puts one value strictly before another. */
  predicate KeyBefore(k: SortKey, a: Value, b: Value) {
    if k.isDescending then Below(b, a) else Below(a, b)
  }

  predicate SortedBefore(keys: seq<SortKey>, a: Doc, b: Doc) {
    keys == []
    || KeyBefore(keys[0], a.Cell(keys[0].field), b.Cell(keys[0].field))
    || (!KeyBefore(keys[0], b.Cell(keys[0].field), a.Cell(keys[0].field)) && SortedBefore(keys[1..], a, b))
  }

  function DocOrder(keys: seq<SortKey>): (Doc, Doc) -> bool {
    (a, b) => SortedBefore(keys, a, b)
  }

  // ---- ORDER BY ----

  /** A column of an ORDER BY, and whether it puts nulls before or after every value. */
  datatype OrderTerm = OrderTerm(column: string, isDescending: bool, areNullsFirst: bool)

  predicate TermBefore(t: OrderTerm, a: Value, b: Value) {
    if a == Null then t.areNullsFirst && b != Null
    else if b == Null then !t.areNullsFirst
    else if t.isDescending then Below(b, a)
    else Below(a, b)
  }

  /** Rows that tie on every term follow their row_ids. */
  predicate RowBefore(terms: seq<OrderTerm>, a: Row, b: Row) {
    if terms == [] then a.id <= b.id
    else
      || TermBefore(terms[0], a.Cell(terms[0].column), b.Cell(terms[0].column))
      || (!TermBefore(terms[0], b.Cell(terms[0].column), a.Cell(terms[0].column)) && RowBefore(terms[1..], a, b))
  }

  function OrderBy(terms: seq<OrderTerm>): (Row, Row) -> bool {
    (a, b) => RowBefore(terms, a, b)
  }

  function TermOf(k: SortKey): OrderTerm {
    OrderTerm(k.field, k.isDescending, !k.isDescending)
  }

  predicate IsSortable(schema: Schema, field: string) {
    field in schema.fields && schema.fields[field].Column?
  }

  function OrderTerms(schema: Schema, sort: seq<string>): Result<seq<OrderTerm>> {
    if forall k :: k in ParseSort(sort) ==> IsSortable(schema, k.field)
    then Ok(Map(ParseSort(sort), k => TermOf(k))) else Err(QueryError)
  }

  method TranslateSort(schema: Schema, sort: seq<string>) returns (r: Result<seq<OrderTerm>>)
    ensures r == OrderTerms(schema, sort)
  {
    var keys := ParseSort(sort);
    var order := [];
    for i := 0 to |keys|
      invariant |order| == i
      invariant forall j :: 0 <= j < i ==> IsSortable(schema, keys[j].field) && order[j] == TermOf(keys[j])
    {
      if !IsSortable(schema, keys[i].field) {
        return Err(QueryError);
      }
      if keys[i].isDescending {
        order := order + [OrderTerm(keys[i].field, true, false)];
      } else {
        order := order + [OrderTerm(keys[i].field, false, true)];
      }
    }
    assert order == Map(keys, k => TermOf(k));
    return Ok(order);
  }

  // ---- ORDER BY is the sort ----

  lemma TermIsKey(k: SortKey, a: Value, b: Value)
    ensures TermBefore(TermOf(k), a, b) <==> KeyBefore(k, a, b)
  {
  }

  lemma KeyTransitive(k: SortKey, a: Value, b: Value, c: Value)
    ensures KeyBefore(k, a, b) && KeyBefore(k, b, c) ==> KeyBefore(k, a, c)
    ensures !KeyBefore(k, b, a) && !KeyBefore(k, c, b) ==> !KeyBefore(k, c, a)
    ensures KeyBefore(k, a, b) ==> !KeyBefore(k, b, a)
    ensures KeyBefore(k, a, b) && !KeyBefore(k, c, b) ==> KeyBefore(k, a, c)
    ensures !KeyBefore(k, b, a) && KeyBefore(k, b, c) ==> KeyBefore(k, a, c)
  {
    BelowTotal(a, b);
    BelowTotal(b, c);
    BelowTotal(a, c);
    if Below(a, b) && Below(b, c) { BelowTransitive(a, b, c); }
    if Below(c, b) && Below(b, a) { BelowTransitive(c, b, a); }
    if Below(b, a) && Below(a, c) { BelowTransitive(b, a, c); }
    if Below(c, a) && Below(a, b) { BelowTransitive(c, a, b); }
    if Below(a, c) && Below(c, b) { BelowTransitive(a, c, b); }
    if Below(b, c) && Below(c, a) { BelowTransitive(b, c, a); }
  }

  function TermsOf(keys: seq<SortKey>): (r: seq<OrderTerm>) { Map(keys, k => TermOf(k)) }

  lemma {:induction false} RowBeforeTotal(keys: seq<SortKey>, a: Row, b: Row)
    ensures RowBefore(TermsOf(keys), a, b) || RowBefore(TermsOf(keys), b, a)
    ensures RowBefore(TermsOf(keys), a, b) && RowBefore(TermsOf(keys), b, a) ==> a.id == b.id
  {
    if keys != [] {
      var k := keys[0];
      assert TermsOf(keys)[0] == TermOf(k) && TermsOf(keys)[1..] == TermsOf(keys[1..]);
      TermIsKey(k, a.Cell(k.field), b.Cell(k.field));
      TermIsKey(k, b.Cell(k.field), a.Cell(k.field));
      RowBeforeTotal(keys[1..], a, b);
      KeyTransitive(k, a.Cell(k.field), b.Cell(k.field), a.Cell(k.field));
    }
  }

  lemma {:induction false} RowBeforeTransitive(keys: seq<SortKey>, a: Row, b: Row, c: Row)
    requires RowBefore(TermsOf(keys), a, b) && RowBefore(TermsOf(keys), b, c)
    ensures RowBefore(TermsOf(keys), a, c)
  {
    if keys != [] {
      var k := keys[0];
      var x, y, z := a.Cell(k.field), b.Cell(k.field), c.Cell(k.field);
      assert TermsOf(keys)[0] == TermOf(k) && TermsOf(keys)[1..] == TermsOf(keys[1..]);
      TermIsKey(k, x, y);
      TermIsKey(k, y, x);
      TermIsKey(k, y, z);
      TermIsKey(k, z, y);
      TermIsKey(k, x, z);
      TermIsKey(k, z, x);
      KeyTransitive(k, x, y, z);
      if !KeyBefore(k, x, z) {
        RowBeforeTransitive(keys[1..], a, b, c);
      }
    }
  }

  lemma OrderByIsTotal(keys: seq<SortKey>)
    ensures Preorder(OrderBy(TermsOf(keys)))
    ensures forall a, b :: OrderBy(TermsOf(keys))(a, b) && OrderBy(TermsOf(keys))(b, a) ==> a.id == b.id
  {
    forall a, b
      ensures OrderBy(TermsOf(keys))(a, b) || OrderBy(TermsOf(keys))(b, a)
      ensures OrderBy(TermsOf(keys))(a, b) && OrderBy(TermsOf(keys))(b, a) ==> a.id == b.id
    {
      RowBeforeTotal(keys, a, b);
    }
    forall a, b, c | OrderBy(TermsOf(keys))(a, b) && OrderBy(TermsOf(keys))(b, c)
      ensures OrderBy(TermsOf(keys))(a, c)
    {
      RowBeforeTransitive(keys, a, b, c);
    }
  }

  /** Of an earlier and a later row, ORDER BY decides as the sort does of their documents. */
  lemma {:induction false} RowBeforeIsDocOrder(keys: seq<SortKey>, a: Row, b: Row, docA: Doc, docB: Doc)
    requires a.id < b.id && docA.cells == a.cells && docB.cells == b.cells
    ensures RowBefore(TermsOf(keys), a, b) <==> SortedBefore(keys, docA, docB)
  {
    if keys != [] {
      var k := keys[0];
      assert TermsOf(keys)[0] == TermOf(k) && TermsOf(keys)[1..] == TermsOf(keys[1..]);
      TermIsKey(k, a.Cell(k.field), b.Cell(k.field));
      TermIsKey(k, b.Cell(k.field), a.Cell(k.field));
      RowBeforeIsDocOrder(keys[1..], a, b, docA, docB);
    }
  }

  predicate InRowOrder(rows: seq<Row>) {
    forall i, j :: 0 <= i < j < |rows| ==> rows[i].id < rows[j].id
  }

  /** However a database orders the rows it selects by the translated terms, the documents come
      out as the stable sort leaves them: None lowest, ties in insertion order. */
  lemma OrderByIsStableSort(keys: seq<SortKey>, rows: seq<Row>, result: seq<Row>, docOf: Row -> Doc)
    requires InRowOrder(rows)
    requires forall r :: docOf(r).cells == r.cells
    requires multiset(result) == multiset(rows) && Ordered(result, OrderBy(TermsOf(keys)))
    ensures Map(result, docOf) == Sort(Map(rows, docOf), DocOrder(keys))
  {
    var order := OrderBy(TermsOf(keys));
    OrderByIsTotal(keys);
    SortOrdered(rows, order);
    var sorted := Sort(rows, order);
    SortedIsUniqueById(result, sorted, rows, order);
    forall i, j | 0 <= i < j < |rows|
      ensures order(rows[i], rows[j]) <==> DocOrder(keys)(docOf(rows[i]), docOf(rows[j]))
    {
      RowBeforeIsDocOrder(keys, rows[i], rows[j], docOf(rows[i]), docOf(rows[j]));
    }
    SortMap(rows, docOf, order, DocOrder(keys));
  }

  lemma SameIdSameRow(rows: seq<Row>, a: Row, b: Row)
    requires InRowOrder(rows) && a in rows && b in rows && a.id == b.id
    ensures a == b
  {
    var i :| 0 <= i < |rows| && rows[i] == a;
    var j :| 0 <= j < |rows| && rows[j] == b;
  }

  lemma {:induction false} SortedIsUniqueById(xs: seq<Row>, ys: seq<Row>, rows: seq<Row>, leq: (Row, Row) -> bool)
    requires InRowOrder(rows) && multiset(xs) == multiset(ys) && multiset(ys) <= multiset(rows)
    requires Ordered(xs, leq) && Ordered(ys, leq)
    requires forall a, b :: leq(a, b) && leq(b, a) ==> a.id == b.id
    ensures xs == ys
  {
    var strict := (a: Row, b: Row) => leq(a, b) && (a in rows && b in rows);
    forall x | x in xs || x in ys ensures x in rows {
      assert x in multiset(xs) || x in multiset(ys);
      assert x in multiset(rows);
    }
    forall a, b | strict(a, b) && strict(b, a) ensures a == b {
      SameIdSameRow(rows, a, b);
    }
    assert Ordered(xs, strict) && Ordered(ys, strict);
    SortedIsUnique(xs, ys, strict);
  }
}
