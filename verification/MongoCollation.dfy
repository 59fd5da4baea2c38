/** Queries under the collation that compares texts without case, which MongoDB takes for a whole
    query, and that they commute with the encoding too. */
module MongoCollation {
  import Values
  import TextSearch
  import Dialect
  import opened MongoEncoding
  import opened MongoQueries

  /** The data as the collation compares it: texts at any depth without their case, ids as they are. */
  function Collate(v: Data): Data {
    match v
    case Text(s) => Text(Values.Lower(s))
    case Uuid(s) => Uuid(Values.Lower(s))
    case Enum(value) => Enum(Collate(value))
    case List(items) => List(seq(|items|, i requires 0 <= i < |items| => Collate(items[i])))
    case Tuple(items) => Tuple(seq(|items|, i requires 0 <= i < |items| => Collate(items[i])))
    case Dict(fields) => Dict(map f | f in fields :: Collate(fields[f]))
    case _ => v
  }

  function CollateFields(data: map<string, Data>): map<string, Data> { map f | f in data :: Collate(data[f]) }

  /** A text search is not compared by the collation; it looks for text in any case itself. */
  function CollateOperator(o: Operator): Operator {
    if o.op in {Dialect.Op.Regex, Dialect.Op.Options} then o else Operator(o.op, Collate(o.operand))
  }

  function CollateCondition(c: Condition): Condition {
    match c
    case Equals(v) => Equals(Collate(v))
    case Operators(ops) => Operators(seq(|ops|, i requires 0 <= i < |ops| => CollateOperator(ops[i])))
  }

  function CollateElements(entries: seq<ElementEntry>): (r: seq<ElementEntry>)
    ensures |r| == |entries|
    ensures forall i :: 0 <= i < |r| ==> r[i] == ElementEntry(entries[i].field, CollateCondition(entries[i].condition))
  {
    seq(|entries|, i requires 0 <= i < |entries| => ElementEntry(entries[i].field, CollateCondition(entries[i].condition)))
  }

  function CollateEntry(e: Entry): Entry {
    match e
    case Logical(isAnd, items) => Logical(isAnd, seq(|items|, i requires 0 <= i < |items| => CollateQuery(items[i])))
    case OnField(path, c) => OnField(path, CollateCondition(c))
    case OnElements(path, entries) => OnElements(path, CollateElements(entries))
  }

  function CollateQuery(q: Query): Query {
    Query(seq(|q.entries|, i requires 0 <= i < |q.entries| => CollateEntry(q.entries[i])))
  }

  /** Whether a query, with the collation or without, finds a document. */
  ghost predicate FindsWith(isCollated: bool, q: Query, document: map<string, Data>) {
    if isCollated then Finds(CollateQuery(q), CollateFields(document)) else Finds(q, document)
  }

  /** A text search finds the same in texts without their case. */
  lemma SearchesAnyCase(pattern: Data, x: Data)
    ensures Searches(pattern, Collate(x)) <==> Searches(pattern, x)
  {
    if x.Text? {
      assert Values.Lower(Values.Lower(x.s)) == Values.Lower(x.s);
    }
  }

  // ---- the encoding keeps what the collation compares ----

  ghost predicate IsCollated(ty: Type, v: Data) {
    Fits(ty, Collate(v)) && Encode(ty, Collate(v)) == Collate(Encode(ty, v))
  }

  lemma {:induction false} IdsAreCollated(v: Data)
    requires FitsId(v)
    ensures IsCollated(IdType, v)
  {
    match v
    case Text(s) => IdsAreLower(s);
    case List(items) => forall i | 0 <= i < |items| ensures IsCollated(IdType, items[i]) {
        IdsAreCollated(items[i]);
      }
      ItemsAreCollated(IdType, items);
    case Tuple(items) => forall i | 0 <= i < |items| ensures IsCollated(IdType, items[i]) {
        IdsAreCollated(items[i]);
      }
      TuplesAreCollated(IdType, items);
    case _ =>
  }

  function ListOf(ty: Type, items: seq<Data>): Data { List(seq(|items|, i requires 0 <= i < |items| => Encode(ty, items[i]))) }

  lemma ListsEncode(ty: Type, items: seq<Data>)
    ensures Encode(ty, List(items)) == ListOf(ty, items)
    ensures !ty.ModelType? ==> Encode(ty, Tuple(items)) == ListOf(ty, items)
    ensures (forall i :: 0 <= i < |items| ==> Fits(ty, items[i])) ==>
      Fits(ty, List(items)) && (!ty.ModelType? ==> Fits(ty, Tuple(items)))
  {
    match ty
    case IdType =>
    case Plain =>
    case ModelType(model) =>
      assert forall i :: 0 <= i < |items| ==> ConvertNested(model, items[i]) == Encode(ty, items[i]);
      assert forall i :: 0 <= i < |items| ==> (Fits(ty, items[i]) <==> FitsModel(model, items[i]));
  }

  lemma ItemsAreCollated(ty: Type, items: seq<Data>)
    requires forall i :: 0 <= i < |items| ==> IsCollated(ty, items[i])
    ensures IsCollated(ty, List(items))
  {
    var collated := Collate(List(items)).items;
    forall i | 0 <= i < |items| ensures Fits(ty, collated[i]) && Encode(ty, collated[i]) == Collate(Encode(ty, items[i])) {
      assert IsCollated(ty, items[i]);
    }
    ListsEncode(ty, items);
    ListsEncode(ty, collated);
    assert ListOf(ty, collated).items == Collate(ListOf(ty, items)).items;
  }

  lemma TuplesAreCollated(ty: Type, items: seq<Data>)
    requires !ty.ModelType? && forall i :: 0 <= i < |items| ==> IsCollated(ty, items[i])
    ensures IsCollated(ty, Tuple(items))
  {
    var collated := Collate(Tuple(items)).items;
    forall i | 0 <= i < |items| ensures Fits(ty, collated[i]) && Encode(ty, collated[i]) == Collate(Encode(ty, items[i])) {
      assert IsCollated(ty, items[i]);
    }
    ListsEncode(ty, items);
    ListsEncode(ty, collated);
    assert ListOf(ty, collated).items == Collate(ListOf(ty, items)).items;
  }

  lemma PlainFieldsAreCollated(fields: map<string, Data>)
    requires forall f :: f in fields ==> IsCollated(Plain, fields[f])
    ensures IsCollated(Plain, Dict(fields))
  {
    var collated := Collate(Dict(fields)).fields;
    forall f | f in fields ensures FitsPlain(collated[f]) && ToBson(collated[f]) == Collate(ToBson(fields[f])) {
      assert IsCollated(Plain, fields[f]);
    }
    assert Encode(Plain, Dict(collated)).fields == Collate(Encode(Plain, Dict(fields))).fields;
  }

  lemma FieldsAreCollated(model: Model, fields: map<string, Data>)
    requires forall f :: f in fields ==> IsCollated(TypeOf(model, f), fields[f])
    ensures IsCollated(ModelType(model), Dict(fields))
  {
    var collated := Collate(Dict(fields)).fields;
    forall f | f in fields
      ensures Fits(TypeOf(model, f), collated[f])
      ensures Encode(TypeOf(model, f), collated[f]) == Collate(Encode(TypeOf(model, f), fields[f]))
    {
      assert IsCollated(TypeOf(model, f), fields[f]);
    }
    assert ConvertNested(model, Dict(collated)).fields == Collate(ConvertNested(model, Dict(fields))).fields;
  }

  lemma {:induction false} PlainIsCollated(v: Data)
    requires FitsPlain(v)
    ensures IsCollated(Plain, v)
  {
    match v
    case List(items) => forall i | 0 <= i < |items| ensures IsCollated(Plain, items[i]) {
        PlainIsCollated(items[i]);
      }
      ItemsAreCollated(Plain, items);
    case Tuple(items) => forall i | 0 <= i < |items| ensures IsCollated(Plain, items[i]) {
        PlainIsCollated(items[i]);
      }
      TuplesAreCollated(Plain, items);
    case Dict(fields) => forall f | f in fields ensures IsCollated(Plain, fields[f]) {
        PlainIsCollated(fields[f]);
      }
      PlainFieldsAreCollated(fields);
    case _ =>
  }

  /** At every depth, encoding and collating data of a type come to the same in either order. */
  lemma {:induction false} EncodedIsCollated(ty: Type, v: Data)
    requires Fits(ty, v)
    ensures IsCollated(ty, v)
    decreases v, 1
  {
    match ty
    case IdType => IdsAreCollated(v);
    case Plain => PlainIsCollated(v);
    case ModelType(model) => NestedIsCollated(model, v);
  }

  lemma {:induction false} NestedIsCollated(model: Model, v: Data)
    requires FitsModel(model, v)
    ensures IsCollated(ModelType(model), v)
    decreases v, 0
  {
    match v
    case Dict(fields) =>
      forall f | f in fields ensures IsCollated(TypeOf(model, f), fields[f]) {
        EncodedIsCollated(TypeOf(model, f), fields[f]);
      }
      FieldsAreCollated(model, fields);
    case List(items) =>
      forall i | 0 <= i < |items| ensures IsCollated(ModelType(model), items[i]) {
        NestedIsCollated(model, items[i]);
      }
      ItemsAreCollated(ModelType(model), items);
    case _ => PlainIsCollated(v);
  }

  // ---- documents and queries ----

  lemma DocumentIsCollated(model: Model, record: map<string, Data>)
    requires FitsRecord(model, record)
    ensures FitsRecord(model, CollateFields(record))
    ensures Document(model, CollateFields(record)) == CollateFields(Document(model, record))
  {
    var collated := CollateFields(record);
    forall f | f in record
      ensures Fits(TypeOf(model, f), collated[f])
      ensures Encode(TypeOf(model, f), collated[f]) == Collate(Encode(TypeOf(model, f), record[f]))
    {
      EncodedIsCollated(TypeOf(model, f), record[f]);
    }
    var document := map f | f in record :: Encode(TypeOf(model, f), record[f]);
    assert (map f | f in collated :: Encode(TypeOf(model, f), collated[f])) == CollateFields(document);
    KeyIsCollated(document);
  }

  lemma KeyIsCollated(document: map<string, Data>)
    ensures forall v :: Collate(v) == Null <==> v == Null
    ensures CollateFields(document - {"id"}) == CollateFields(document) - {"id"}
    ensures "id" in document ==>
      CollateFields((document - {"id"})[KEY_FIELD := document["id"]])
      == (CollateFields(document) - {"id"})[KEY_FIELD := Collate(document["id"])]
  {
  }

  lemma OperatorIsCollated(ty: Type, o: Operator)
    requires FitsOperator(ty, o)
    ensures FitsOperator(ty, CollateOperator(o))
    ensures Operator(o.op, Encode(ty, CollateOperator(o).operand)) == CollateOperator(Operator(o.op, Encode(ty, o.operand)))
  {
    EncodedIsCollated(ty, o.operand);
  }

  lemma ConditionIsCollated(ty: Type, c: Condition)
    requires FitsCondition(ty, c)
    ensures FitsCondition(ty, CollateCondition(c))
    ensures EncodeCondition(ty, CollateCondition(c)) == CollateCondition(EncodeCondition(ty, c))
  {
    match c
    case Equals(v) => EncodedIsCollated(ty, v);
    case Operators(ops) =>
      forall i | 0 <= i < |ops|
        ensures FitsOperator(ty, CollateOperator(ops[i]))
        ensures Operator(ops[i].op, Encode(ty, CollateOperator(ops[i]).operand))
                == CollateOperator(Operator(ops[i].op, Encode(ty, ops[i].operand)))
      {
        OperatorIsCollated(ty, ops[i]);
      }
      assert EncodeCondition(ty, CollateCondition(c)).ops == CollateCondition(EncodeCondition(ty, c)).ops;
  }

  lemma ElementsAreCollated(model: Model, path: string, entries: seq<ElementEntry>)
    requires FitsEntry(model, OnElements(path, entries))
    ensures FitsEntry(model, OnElements(path, CollateElements(entries)))
    ensures TranslateEntry(model, OnElements(path, CollateElements(entries)))
            == CollateEntry(TranslateEntry(model, OnElements(path, entries)))
  {
    var ty := TypeAt(ModelType(model), Split(path));
    var collated := CollateElements(entries);
    PrefixesAreStripped(model, path, entries);
    PrefixesAreStripped(model, path, collated);
    forall i | 0 <= i < |entries|
      ensures FitsCondition(TypeAt(ty, Split(entries[i].field)), collated[i].condition)
      ensures EncodeCondition(TypeAt(ty, Split(entries[i].field)), collated[i].condition)
              == CollateCondition(EncodeCondition(TypeAt(ty, Split(entries[i].field)), entries[i].condition))
    {
      ConditionIsCollated(TypeAt(ty, Split(entries[i].field)), entries[i].condition);
    }
    assert TranslateEntry(model, OnElements(path, collated)).entries
           == CollateElements(TranslateEntry(model, OnElements(path, entries)).entries);
  }

  lemma {:induction false} EntryIsCollated(model: Model, e: Entry)
    requires FitsEntry(model, e)
    ensures FitsEntry(model, CollateEntry(e)) && TranslateEntry(model, CollateEntry(e)) == CollateEntry(TranslateEntry(model, e))
  {
    match e
    case Logical(isAnd, items) =>
      var collated := CollateEntry(e).items;
      forall i | 0 <= i < |items|
        ensures FitsQuery(model, collated[i]) && Translate(model, collated[i]) == CollateQuery(Translate(model, items[i]))
      {
        QueryIsCollated(model, items[i]);
      }
      assert TranslateEntry(model, CollateEntry(e)).items == CollateEntry(TranslateEntry(model, e)).items;
    case OnField(path, c) =>
      ConditionIsCollated(TypeAt(ModelType(model), Split(path)), c);
      TranslatedCondition(model, path, c);
      TranslatedCondition(model, path, CollateCondition(c));
    case OnElements(path, entries) => ElementsAreCollated(model, path, entries);
  }

  lemma {:induction false} QueryIsCollated(model: Model, q: Query)
    requires FitsQuery(model, q)
    ensures FitsQuery(model, CollateQuery(q)) && Translate(model, CollateQuery(q)) == CollateQuery(Translate(model, q))
  {
    var collated := CollateQuery(q).entries;
    forall i | 0 <= i < |q.entries|
      ensures FitsEntry(model, collated[i]) && TranslateEntry(model, collated[i]) == CollateEntry(TranslateEntry(model, q.entries[i]))
    {
      EntryIsCollated(model, q.entries[i]);
    }
    assert Translate(model, CollateQuery(q)).entries == CollateQuery(Translate(model, q)).entries;
  }

  // ---- in values MongoDB can store ----

  lemma {:induction false} BsonIsCollated(v: Data)
    ensures ToBson(Collate(v)) == Collate(ToBson(v))
  {
    match v
    case List(items) =>
      forall i | 0 <= i < |items| ensures ToBson(Collate(items[i])) == Collate(ToBson(items[i])) {
        BsonIsCollated(items[i]);
      }
      assert ToBson(Collate(v)).items == Collate(ToBson(v)).items;
    case Tuple(items) =>
      forall i | 0 <= i < |items| ensures ToBson(Collate(items[i])) == Collate(ToBson(items[i])) {
        BsonIsCollated(items[i]);
      }
      assert ToBson(Collate(v)).items == Collate(ToBson(v)).items;
    case Dict(fields) =>
      forall f | f in fields ensures ToBson(Collate(fields[f])) == Collate(ToBson(fields[f])) {
        BsonIsCollated(fields[f]);
      }
      assert ToBson(Collate(v)).fields == Collate(ToBson(v)).fields;
    case _ =>
  }

  lemma PlainConditionIsCollated(c: Condition)
    ensures PlainCondition(CollateCondition(c)) == CollateCondition(PlainCondition(c))
  {
    match c
    case Equals(v) => BsonIsCollated(v);
    case Operators(ops) =>
      forall i | 0 <= i < |ops| ensures ToBson(Collate(ops[i].operand)) == Collate(ToBson(ops[i].operand)) {
        BsonIsCollated(ops[i].operand);
      }
      assert PlainCondition(CollateCondition(c)).ops == CollateCondition(PlainCondition(c)).ops;
  }

  lemma {:induction false} PlainEntryIsCollated(e: Entry)
    ensures PlainEntry(CollateEntry(e)) == CollateEntry(PlainEntry(e))
  {
    match e
    case Logical(_, items) =>
      forall i | 0 <= i < |items| ensures PlainQuery(CollateQuery(items[i])) == CollateQuery(PlainQuery(items[i])) {
        PlainQueryIsCollated(items[i]);
      }
      assert PlainEntry(CollateEntry(e)).items == CollateEntry(PlainEntry(e)).items;
    case OnField(_, c) => PlainConditionIsCollated(c);
    case OnElements(_, entries) =>
      forall i | 0 <= i < |entries|
        ensures PlainCondition(CollateCondition(entries[i].condition)) == CollateCondition(PlainCondition(entries[i].condition))
      {
        PlainConditionIsCollated(entries[i].condition);
      }
      assert PlainEntries(CollateElements(entries)) == CollateElements(PlainEntries(entries));
  }

  lemma {:induction false} PlainQueryIsCollated(q: Query)
    ensures PlainQuery(CollateQuery(q)) == CollateQuery(PlainQuery(q))
  {
    forall i | 0 <= i < |q.entries| ensures PlainEntry(CollateEntry(q.entries[i])) == CollateEntry(PlainEntry(q.entries[i])) {
      PlainEntryIsCollated(q.entries[i]);
    }
    assert PlainQuery(CollateQuery(q)).entries == CollateQuery(PlainQuery(q)).entries;
  }

  lemma PlainRecordIsCollated(record: map<string, Data>)
    ensures PlainRecord(CollateFields(record)) == CollateFields(PlainRecord(record))
  {
    forall f | f in record ensures ToBson(Collate(record[f])) == Collate(ToBson(record[f])) {
      BsonIsCollated(record[f]);
    }
  }

  /** With the collation too, a translated filter finds the document of a record exactly when the
      filter, in strings compared so, finds the record. */
  lemma CollatedCommutes(isCollated: bool, model: Model, q: Query, record: map<string, Data>)
    requires FitsRecord(model, record) && FitsQuery(model, q)
    ensures FindsWith(isCollated, Translate(model, q), Document(model, record))
            <==> FindsWith(isCollated, PlainQuery(q), PlainRecord(record))
  {
    EncodingCommutes(model, q, record);
    if isCollated {
      DocumentIsCollated(model, record);
      QueryIsCollated(model, q);
      EncodingCommutes(model, CollateQuery(q), CollateFields(record));
      PlainQueryIsCollated(q);
      PlainRecordIsCollated(record);
    }
  }
}
