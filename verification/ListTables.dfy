/** Child tables: a list kept as one row per element, with its position. */
module ListTables {
  import opened Wrappers
  import opened Sequences
  import opened Values
  import opened Dialect
  import opened Sql

  function OfRecord(key: Value): ChildRow -> bool { (r: ChildRow) => r.parent == key }

  function OfOthers(key: Value): ChildRow -> bool { (r: ChildRow) => r.parent != key }

  function OtherThan(key: Value, e: Element): ChildRow -> bool { (r: ChildRow) => !(r.parent == key && r.element == e) }

  function ByPosition(): (ChildRow, ChildRow) -> bool { (a: ChildRow, b: ChildRow) => a.position <= b.position }

  function ElementOf(): ChildRow -> Element { (r: ChildRow) => r.element }

  function RowsOf(table: seq<ChildRow>, key: Value): (r: seq<ChildRow>) { Kept(table, OfRecord(key)) }

  /** The record's list, as SELECT ... WHERE parent = key ORDER BY position reads it. */
  function ReadList(table: seq<ChildRow>, key: Value): (r: seq<Element>) {
    Map(Sort(RowsOf(table, key), ByPosition()), ElementOf())
  }

  /** What the child table's keys and every write keep: a record's rows stand at growing
      positions, and those of a list of scalars hold no element twice and no null. */
  predicate ValidTable(kind: Kind, table: seq<ChildRow>) {
    && (forall i, j :: 0 <= i < j < |table| && table[i].parent == table[j].parent ==>
          table[i].position < table[j].position && (kind.ScalarList? ==> table[i].element != table[j].element))
    && (forall r :: r in table ==> FitsKind(kind, r.element))
  }

  predicate FitsKind(kind: Kind, e: Element) {
    e.Scalar? == kind.ScalarList? && e != Scalar(Null)
  }

  /** Whether the database takes the elements as one list: its keys refuse a scalar twice. */
  predicate FitsTable(kind: Kind, elements: seq<Element>) {
    && (forall e :: e in elements ==> FitsKind(kind, e))
    && (kind.ScalarList? ==> Distinct(elements))
  }

  // ---- reading ----

  lemma {:induction false} KeptGrows(kind: Kind, table: seq<ChildRow>, keep: ChildRow -> bool)
    requires ValidTable(kind, table)
    ensures ValidTable(kind, Kept(table, keep))
  {
    if table != [] {
      assert ValidTable(kind, table[1..]);
      KeptGrows(kind, table[1..], keep);
      if keep(table[0]) {
        ValidWithFirst(kind, table, Kept(table[1..], keep));
      }
    }
  }

  lemma ValidWithFirst(kind: Kind, table: seq<ChildRow>, rest: seq<ChildRow>)
    requires table != [] && ValidTable(kind, table) && ValidTable(kind, rest) && forall r :: r in rest ==> r in table[1..]
    ensures ValidTable(kind, [table[0]] + rest)
  {
    forall j | 0 <= j < |rest| && rest[j].parent == table[0].parent
      ensures table[0].position < rest[j].position && (kind.ScalarList? ==> table[0].element != rest[j].element)
    {
      assert rest[j] in table[1..];
      var k :| 1 <= k < |table| && table[k] == rest[j];
    }
  }

  /** A valid table holds a record's rows in the order of their positions already. */
  lemma ReadInOrder(kind: Kind, table: seq<ChildRow>, key: Value)
    requires ValidTable(kind, table)
    ensures Sort(RowsOf(table, key), ByPosition()) == RowsOf(table, key)
    ensures ReadList(table, key) == Map(RowsOf(table, key), ElementOf())
  {
    KeptGrows(kind, table, OfRecord(key));
    var rows := RowsOf(table, key);
    assert Ordered(rows, ByPosition()) by {
      forall i, j | 0 <= i < j < |rows| ensures rows[i].position <= rows[j].position {
        assert rows[i] in rows && rows[j] in rows;
      }
    }
    SortIdentity(rows, ByPosition());
  }

  /** The list holds exactly the elements of the record's rows. */
  lemma ReadListMembers(table: seq<ChildRow>, key: Value, e: Element)
    ensures e in ReadList(table, key) <==> exists r :: r in table && r.parent == key && r.element == e
  {
    var sorted := Sort(RowsOf(table, key), ByPosition());
    SortMember(RowsOf(table, key), ByPosition());
    var list := ReadList(table, key);
    if e in list {
      var i :| 0 <= i < |list| && list[i] == e;
      assert sorted[i] in sorted;
    }
    if r :| r in table && r.parent == key && r.element == e {
      assert r in sorted;
      var i :| 0 <= i < |sorted| && sorted[i] == r;
      assert list[i] == e;
    }
  }

  // ---- writing ----

  function ChildRows(key: Value, elements: seq<Element>): (r: seq<ChildRow>)
    ensures |r| == |elements|
    ensures forall i :: 0 <= i < |r| ==> r[i] == ChildRow(key, i, elements[i])
  {
    seq(|elements|, i requires 0 <= i < |elements| => ChildRow(key, i, elements[i]))
  }

  method GetChildRows(key: Value, elements: seq<Element>) returns (rows: seq<ChildRow>)
    ensures rows == ChildRows(key, elements)
  {
    rows := [];
    for position := 0 to |elements|
      invariant rows == ChildRows(key, elements[..position])
    {
      rows := rows + [ChildRow(key, position, elements[position])];
    }
    assert elements[..|elements|] == elements;
  }

  /** coalesce(max(position) + 1, 0) */
  function NextPosition(rows: seq<ChildRow>): (n: nat)
    ensures forall r :: r in rows ==> r.position < n
    ensures n == 0 || exists r :: r in rows && r.position == n - 1
  {
    if rows == [] then 0
    else
      var rest := NextPosition(rows[1..]);
      if rows[0].position < rest then rest else rows[0].position + 1
  }

  function Replaced(table: seq<ChildRow>, key: Value, elements: seq<Element>): (r: seq<ChildRow>) {
    Kept(table, OfOthers(key)) + ChildRows(key, elements)
  }

  /** A conflict on the (record, element) key means that the element is there already. */
  function Added(table: seq<ChildRow>, key: Value, e: Element): (r: seq<ChildRow>) {
    if exists r :: r in table && r.parent == key && r.element == e then table
    else table + [ChildRow(key, NextPosition(RowsOf(table, key)), e)]
  }

  function Pulled(table: seq<ChildRow>, key: Value, e: Element): (r: seq<ChildRow>) {
    Kept(table, OtherThan(key, e))
  }

  function AddToSet(list: seq<Element>, e: Element): seq<Element> {
    if e in list then list else list + [e]
  }

  function IsNot(e: Element): Element -> bool { (x: Element) => x != e }

  function Pull(list: seq<Element>, e: Element): seq<Element> { Kept(list, IsNot(e)) }

  lemma ReadWithOwn(kind: Kind, table: seq<ChildRow>, own: seq<ChildRow>, key: Value)
    requires ValidTable(kind, table + own) && ValidTable(kind, table) && forall r :: r in own ==> r.parent == key
    ensures ReadList(table + own, key) == ReadList(table, key) + Map(own, ElementOf())
  {
    ReadInOrder(kind, table + own, key);
    ReadInOrder(kind, table, key);
    KeptAppend(table, own, OfRecord(key));
    KeptAll(own, OfRecord(key));
    MapAppend(RowsOf(table, key), own, ElementOf());
  }

  lemma ReadWithOthers(table: seq<ChildRow>, others: seq<ChildRow>, key: Value)
    requires forall r :: r in others ==> r.parent != key
    ensures ReadList(table + others, key) == ReadList(table, key)
  {
    KeptAppend(table, others, OfRecord(key));
    KeptNone(others, OfRecord(key));
    assert RowsOf(table, key) + [] == RowsOf(table, key);
  }

  lemma ValidWithOwn(kind: Kind, others: seq<ChildRow>, own: seq<ChildRow>, key: Value)
    requires ValidTable(kind, others) && ValidTable(kind, own)
    requires forall r :: r in own ==> r.parent == key
    requires forall r :: r in others ==> r.parent != key
    ensures ValidTable(kind, others + own)
  {
    forall i | 0 <= i < |others| ensures others[i].parent != key { assert others[i] in others; }
    forall i | 0 <= i < |own| ensures own[i].parent == key { assert own[i] in own; }
  }

  lemma ReplaceIsSet(kind: Kind, table: seq<ChildRow>, key: Value, elements: seq<Element>)
    requires ValidTable(kind, table) && FitsTable(kind, elements)
    ensures ValidTable(kind, Replaced(table, key, elements))
    ensures ReadList(Replaced(table, key, elements), key) == elements
    ensures forall other :: other != key ==> ReadList(Replaced(table, key, elements), other) == ReadList(table, other)
  {
    var others, own := Kept(table, OfOthers(key)), ChildRows(key, elements);
    KeptGrows(kind, table, OfOthers(key));
    ValidWithOwn(kind, others, own, key);
    ReadWithOwn(kind, others, own, key);
    KeptNone(others, OfRecord(key));
    assert Map(own, ElementOf()) == elements;
    forall other | other != key ensures ReadList(others + own, other) == ReadList(table, other) {
      ReadWithOthers(others, own, other);
      KeptKept(table, OfOthers(key), OfRecord(other), OfRecord(other));
    }
  }

  lemma AddIsAddToSet(kind: Kind, table: seq<ChildRow>, key: Value, e: Element)
    requires ValidTable(kind, table) && FitsKind(kind, e)
    ensures ValidTable(kind, Added(table, key, e))
    ensures ReadList(Added(table, key, e), key) == AddToSet(ReadList(table, key), e)
    ensures forall other :: other != key ==> ReadList(Added(table, key, e), other) == ReadList(table, other)
  {
    ReadListMembers(table, key, e);
    if e !in ReadList(table, key) {
      var row := ChildRow(key, NextPosition(RowsOf(table, key)), e);
      forall i | 0 <= i < |table| && table[i].parent == key
        ensures table[i].position < row.position && table[i].element != e
      {
        assert table[i] in RowsOf(table, key);
      }
      assert ValidTable(kind, table + [row]);
      ReadWithOwn(kind, table, [row], key);
      assert Map([row], ElementOf()) == [e];
      forall other | other != key ensures ReadList(table + [row], other) == ReadList(table, other) {
        ReadWithOthers(table, [row], other);
      }
    }
  }

  lemma PullIsPull(kind: Kind, table: seq<ChildRow>, key: Value, e: Element)
    requires ValidTable(kind, table)
    ensures ValidTable(kind, Pulled(table, key, e))
    ensures ReadList(Pulled(table, key, e), key) == Pull(ReadList(table, key), e)
    ensures forall other :: other != key ==> ReadList(Pulled(table, key, e), other) == ReadList(table, other)
  {
    var left := Pulled(table, key, e);
    KeptGrows(kind, table, OtherThan(key, e));
    ReadInOrder(kind, left, key);
    ReadInOrder(kind, table, key);
    var both := (r: ChildRow) => r.parent == key && r.element != e;
    KeptKept(table, OtherThan(key, e), OfRecord(key), both);
    KeptKept(table, OfRecord(key), OtherThan(key, e), both);
    KeptMap(RowsOf(table, key), ElementOf(), IsNot(e), OtherThan(key, e));
    forall other | other != key ensures ReadList(left, other) == ReadList(table, other) {
      KeptKept(table, OtherThan(key, e), OfRecord(other), OfRecord(other));
    }
  }

  // ---- any sequence of writes ----

  datatype ListWrite = ReplaceWith(elements: seq<Element>) | Add(e: Element) | Remove(e: Element)

  function WriteTable(table: seq<ChildRow>, key: Value, w: ListWrite): (r: seq<ChildRow>) {
    match w
    case ReplaceWith(elements) => Replaced(table, key, elements)
    case Add(e) => Added(table, key, e)
    case Remove(e) => Pulled(table, key, e)
  }

  function WriteList(list: seq<Element>, w: ListWrite): (r: seq<Element>) {
    match w
    case ReplaceWith(elements) => elements
    case Add(e) => AddToSet(list, e)
    case Remove(e) => Pull(list, e)
  }

  predicate FitsWrite(kind: Kind, w: ListWrite) {
    match w
    case ReplaceWith(elements) => FitsTable(kind, elements)
    case Add(e) => FitsKind(kind, e)
    case Remove(_) => true
  }

  datatype RecordWrite = RecordWrite(key: Value, write: ListWrite)

  function WriteTables(table: seq<ChildRow>, ws: seq<RecordWrite>): (r: seq<ChildRow>)
    decreases ws
  {
    if ws == [] then table else WriteTables(WriteTable(table, ws[0].key, ws[0].write), ws[1..])
  }

  function WriteLists(list: seq<Element>, key: Value, ws: seq<RecordWrite>): (r: seq<Element>)
    decreases ws
  {
    if ws == [] then list
    else WriteLists(if ws[0].key == key then WriteList(list, ws[0].write) else list, key, ws[1..])
  }

  lemma WriteIsWrite(kind: Kind, table: seq<ChildRow>, key: Value, w: RecordWrite)
    requires ValidTable(kind, table) && FitsWrite(kind, w.write)
    ensures ValidTable(kind, WriteTable(table, w.key, w.write))
    ensures ReadList(WriteTable(table, w.key, w.write), key)
            == if w.key == key then WriteList(ReadList(table, key), w.write) else ReadList(table, key)
  {
    match w.write
    case ReplaceWith(elements) => ReplaceIsSet(kind, table, w.key, elements);
    case Add(e) => AddIsAddToSet(kind, table, w.key, e);
    case Remove(e) => PullIsPull(kind, table, w.key, e);
  }

  /** Child rows implement lists: through any sequence of writes to any records, each record
      reads back the list its own writes make of it. */
  lemma {:induction false} ChildTableImplementsLists(kind: Kind, table: seq<ChildRow>, key: Value, ws: seq<RecordWrite>)
    requires ValidTable(kind, table) && forall w :: w in ws ==> FitsWrite(kind, w.write)
    ensures ValidTable(kind, WriteTables(table, ws))
    ensures ReadList(WriteTables(table, ws), key) == WriteLists(ReadList(table, key), key, ws)
    decreases ws
  {
    if ws != [] {
      var w := ws[0];
      WriteIsWrite(kind, table, key, w);
      ChildTableImplementsLists(kind, WriteTable(table, w.key, w.write), key, ws[1..]);
    }
  }
}
