/** The MongoDB store's encoding of records: ids are strings above it and ObjectIds in it. */
module MongoEncoding {
  import Values

  /** The data of a record or a document, or an operand of a filter. */
  datatype Data =
    | Null
    | Bool(b: bool)
    | Num(n: real)
    | Text(s: string)
    | ObjectId(hex: string)
    | Enum(value: Data)
    | Uuid(text: string)             // or a path, which is stored as its text too
    | List(items: seq<Data>)
    | Tuple(items: seq<Data>)        // or a set, which MongoDB cannot store either
    | Dict(fields: map<string, Data>)

  /** What a model says of a field that matters here. */
  datatype Type = IdType | Plain | ModelType(fields: map<string, Type>)

  type Model = map<string, Type>

  function TypeOf(model: Model, name: string): Type { if name in model then model[name] else Plain }

  predicate IsHexDigit(c: char) { '0' <= c <= '9' || 'a' <= c <= 'f' }

  /** An id: 24 lower-case hex digits. */
  predicate IsId(s: string) { |s| == 24 && forall i :: 0 <= i < |s| ==> IsHexDigit(s[i]) }

  /** Texts that MongoDB makes an ObjectId of, whatever their case. */
  predicate IsObjectIdText(s: string) { IsId(Values.Lower(s)) }

  lemma IdsAreLower(s: string)
    requires IsId(s)
    ensures Values.Lower(s) == s
  {
    assert forall i :: 0 <= i < |s| ==> Values.LowerChar(s[i]) == s[i];
  }

  // ---- the converters ----

  function ToObjectIds(v: Data): Data {
    match v
    case Text(s) => ObjectId(Values.Lower(s))
    case List(items) => List(seq(|items|, i requires 0 <= i < |items| => ToObjectIds(items[i])))
    case Tuple(items) => List(seq(|items|, i requires 0 <= i < |items| => ToObjectIds(items[i])))
    case _ => v
  }

  /** The data in values MongoDB can store, which is how it is read back. */
  function ToBson(v: Data): Data {
    match v
    case Enum(value) => value
    case Uuid(text) => Text(text)
    case List(items) => List(seq(|items|, i requires 0 <= i < |items| => ToBson(items[i])))
    case Tuple(items) => List(seq(|items|, i requires 0 <= i < |items| => ToBson(items[i])))
    case Dict(fields) => Dict(map f | f in fields :: ToBson(fields[f]))
    case _ => v
  }

  /** A model's data, alone or in a list. */
  function ConvertNested(model: Model, v: Data): Data
    decreases v, 0
  {
    match v
    case Dict(fields) => Dict(map f | f in fields :: Encode(TypeOf(model, f), fields[f]))
    case List(items) => List(seq(|items|, i requires 0 <= i < |items| => ConvertNested(model, items[i])))
    case _ => ToBson(v)
  }

  function Encode(ty: Type, v: Data): Data
    decreases v, 1
  {
    match ty
    case IdType => ToObjectIds(v)
    case Plain => ToBson(v)
    case ModelType(model) => ConvertNested(model, v)
  }

  function FromBson(v: Data): Data {
    match v
    case ObjectId(hex) => Text(hex)
    case List(items) => List(seq(|items|, i requires 0 <= i < |items| => FromBson(items[i])))
    case Dict(fields) => Dict(map f | f in fields :: FromBson(fields[f]))
    case _ => v
  }

  // ---- what the types say of the data ----

  /** Data above the storage layer, which holds no ObjectIds. */
  predicate FitsPlain(v: Data) {
    match v
    case ObjectId(_) => false
    case Enum(value) => value.Text? || value.Num?
    case List(items) => forall i :: 0 <= i < |items| ==> FitsPlain(items[i])
    case Tuple(items) => forall i :: 0 <= i < |items| ==> FitsPlain(items[i])
    case Dict(fields) => forall f :: f in fields ==> FitsPlain(fields[f])
    case _ => true
  }

  predicate FitsId(v: Data) {
    match v
    case Text(s) => IsId(s)
    case List(items) => forall i :: 0 <= i < |items| ==> FitsId(items[i])
    case Tuple(items) => forall i :: 0 <= i < |items| ==> FitsId(items[i])
    case _ => v.Null? || v.Num? || v.Bool?
  }

  predicate FitsModel(model: Model, v: Data)
    decreases v, 0
  {
    match v
    case Dict(fields) => forall f :: f in fields ==> Fits(TypeOf(model, f), fields[f])
    case List(items) => forall i :: 0 <= i < |items| ==> FitsModel(model, items[i])
    case Tuple(_) => false
    case _ => FitsPlain(v)
  }

  predicate Fits(ty: Type, v: Data)
    decreases v, 1
  {
    match ty
    case IdType => FitsId(v)
    case Plain => FitsPlain(v)
    case ModelType(model) => FitsModel(model, v)
  }

  // ---- the round trip ----

  lemma {:induction false} IdsReadBack(v: Data)
    requires FitsId(v)
    ensures FromBson(ToObjectIds(v)) == ToBson(v)
    ensures ToObjectIds(ToBson(v)) == ToObjectIds(v) && FitsId(ToBson(v))
  {
    match v
    case Text(s) => IdsAreLower(s);
    case List(items) => forall i | 0 <= i < |items|
        ensures FromBson(ToObjectIds(items[i])) == ToBson(items[i])
        ensures ToObjectIds(ToBson(items[i])) == ToObjectIds(items[i]) && FitsId(ToBson(items[i]))
      {
        IdsReadBack(items[i]);
      }
    case Tuple(items) => forall i | 0 <= i < |items|
        ensures FromBson(ToObjectIds(items[i])) == ToBson(items[i])
        ensures ToObjectIds(ToBson(items[i])) == ToObjectIds(items[i]) && FitsId(ToBson(items[i]))
      {
        IdsReadBack(items[i]);
      }
    case _ =>
  }

  ghost predicate PlainAgain(v: Data) {
    FromBson(ToBson(v)) == ToBson(v) && ToBson(ToBson(v)) == ToBson(v) && FitsPlain(ToBson(v))
  }

  lemma PlainItemsAgain(items: seq<Data>)
    requires forall i :: 0 <= i < |items| ==> PlainAgain(items[i])
    ensures PlainAgain(List(items)) && PlainAgain(Tuple(items))
  {
    var plain := ToBson(List(items));
    forall i | 0 <= i < |items|
      ensures FromBson(plain.items[i]) == plain.items[i] && ToBson(plain.items[i]) == plain.items[i] && FitsPlain(plain.items[i])
    {
      assert PlainAgain(items[i]);
    }
    assert FromBson(plain).items == plain.items && ToBson(plain).items == plain.items;
    assert ToBson(Tuple(items)).items == plain.items;
  }

  lemma PlainFieldsAgain(fields: map<string, Data>)
    requires forall f :: f in fields ==> PlainAgain(fields[f])
    ensures PlainAgain(Dict(fields))
  {
    var plain := ToBson(Dict(fields));
    forall f | f in fields
      ensures FromBson(plain.fields[f]) == plain.fields[f] && ToBson(plain.fields[f]) == plain.fields[f] && FitsPlain(plain.fields[f])
    {
      assert PlainAgain(fields[f]);
    }
    assert FromBson(plain).fields == plain.fields && ToBson(plain).fields == plain.fields;
  }

  lemma {:induction false} PlainReadsBack(v: Data)
    requires FitsPlain(v)
    ensures PlainAgain(v)
  {
    match v
    case List(items) =>
      forall i | 0 <= i < |items| ensures PlainAgain(items[i]) {
        PlainReadsBack(items[i]);
      }
      PlainItemsAgain(items);
    case Tuple(items) =>
      forall i | 0 <= i < |items| ensures PlainAgain(items[i]) {
        PlainReadsBack(items[i]);
      }
      PlainItemsAgain(items);
    case Dict(fields) =>
      forall f | f in fields ensures PlainAgain(fields[f]) {
        PlainReadsBack(fields[f]);
      }
      PlainFieldsAgain(fields);
    case _ =>
  }

  /** At every depth, what is written under a type reads back as it was, in values MongoDB can
      store; and it does not matter whether it was in such values already. */
  lemma {:induction false} EncodedReadsBack(ty: Type, v: Data)
    requires Fits(ty, v)
    ensures FromBson(Encode(ty, v)) == ToBson(v)
    ensures Encode(ty, ToBson(v)) == Encode(ty, v) && Fits(ty, ToBson(v))
    decreases v, 1
  {
    match ty
    case IdType => IdsReadBack(v);
    case Plain => PlainReadsBack(v);
    case ModelType(model) => NestedReadsBack(model, v);
  }

  ghost predicate ReadsBack(ty: Type, v: Data) {
    && FromBson(Encode(ty, v)) == ToBson(v)
    && Encode(ty, ToBson(v)) == Encode(ty, v)
    && Fits(ty, ToBson(v))
  }

  lemma FieldOfNested(model: Model, fields: map<string, Data>, f: string)
    requires f in fields
    ensures var nested := ConvertNested(model, Dict(fields));
      nested.Dict? && nested.fields.Keys == fields.Keys && nested.fields[f] == Encode(TypeOf(model, f), fields[f])
  {
  }

  lemma FieldsReadAgain(model: Model, fields: map<string, Data>)
    requires forall f :: f in fields ==> ReadsBack(TypeOf(model, f), fields[f])
    ensures FromBson(ConvertNested(model, Dict(fields))) == ToBson(Dict(fields))
  {
    var nested := ConvertNested(model, Dict(fields)).fields;
    forall f | f in fields ensures FromBson(nested[f]) == ToBson(fields[f]) {
      assert ReadsBack(TypeOf(model, f), fields[f]);
      FieldOfNested(model, fields, f);
    }
    ReadsFields(nested, fields);
  }

  lemma ReadsFields(a: map<string, Data>, b: map<string, Data>)
    requires a.Keys == b.Keys && forall f :: f in a ==> FromBson(a[f]) == ToBson(b[f])
    ensures FromBson(Dict(a)) == ToBson(Dict(b))
  {
    assert FromBson(Dict(a)).fields == ToBson(Dict(b)).fields;
  }

  lemma FieldsEncodeAgain(model: Model, fields: map<string, Data>)
    requires forall f :: f in fields ==> ReadsBack(TypeOf(model, f), fields[f])
    ensures ConvertNested(model, ToBson(Dict(fields))) == ConvertNested(model, Dict(fields))
  {
    var plain := ToBson(Dict(fields)).fields;
    forall f | f in fields ensures Encode(TypeOf(model, f), plain[f]) == Encode(TypeOf(model, f), fields[f]) {
      assert ReadsBack(TypeOf(model, f), fields[f]);
    }
    SameFields(model, plain, fields);
  }

  lemma SameFields(model: Model, a: map<string, Data>, b: map<string, Data>)
    requires a.Keys == b.Keys && forall f :: f in a ==> Encode(TypeOf(model, f), a[f]) == Encode(TypeOf(model, f), b[f])
    ensures ConvertNested(model, Dict(a)) == ConvertNested(model, Dict(b))
  {
    assert ConvertNested(model, Dict(a)).fields == ConvertNested(model, Dict(b)).fields;
  }

  lemma FieldsFitAgain(model: Model, fields: map<string, Data>)
    requires forall f :: f in fields ==> ReadsBack(TypeOf(model, f), fields[f])
    ensures FitsModel(model, ToBson(Dict(fields)))
  {
    forall f | f in fields ensures Fits(TypeOf(model, f), ToBson(fields[f])) {
      assert ReadsBack(TypeOf(model, f), fields[f]);
    }
  }

  lemma FieldsReadBack(model: Model, fields: map<string, Data>)
    requires forall f :: f in fields ==> ReadsBack(TypeOf(model, f), fields[f])
    ensures ReadsBack(ModelType(model), Dict(fields))
  {
    FieldsReadAgain(model, fields);
    FieldsEncodeAgain(model, fields);
    FieldsFitAgain(model, fields);
  }

  lemma ItemsReadBack(model: Model, items: seq<Data>)
    requires forall i :: 0 <= i < |items| ==> ReadsBack(ModelType(model), items[i])
    ensures ReadsBack(ModelType(model), List(items))
  {
    var encoded := ConvertNested(model, List(items)).items;
    var plain := ToBson(List(items)).items;
    assert forall i :: 0 <= i < |items| ==> encoded[i] == Encode(ModelType(model), items[i]);
    assert FromBson(List(encoded)).items == plain;
    assert forall i :: 0 <= i < |items| ==> ConvertNested(model, plain[i]) == Encode(ModelType(model), plain[i]);
    assert ConvertNested(model, List(plain)).items == encoded;
    assert forall i :: 0 <= i < |plain| ==> Fits(ModelType(model), plain[i]);
  }

  lemma {:induction false} NestedReadsBack(model: Model, v: Data)
    requires FitsModel(model, v)
    ensures ReadsBack(ModelType(model), v)
    decreases v, 0
  {
    match v
    case Dict(fields) =>
      forall f | f in fields ensures ReadsBack(TypeOf(model, f), fields[f]) {
        EncodedReadsBack(TypeOf(model, f), fields[f]);
      }
      FieldsReadBack(model, fields);
    case List(items) =>
      forall i | 0 <= i < |items| ensures ReadsBack(ModelType(model), items[i]) {
        NestedReadsBack(model, items[i]);
      }
      ItemsReadBack(model, items);
    case _ => PlainReadsBack(v);
  }

  // ---- whole records ----

  const KEY_FIELD := "_id"

  /** The document of a record's data: its `id`, if it has one, is the document's `_id`. */
  function Document(model: Model, record: map<string, Data>): map<string, Data> {
    var document := map f | f in record :: Encode(TypeOf(model, f), record[f]);
    var rest := document - {"id"};
    if "id" in document && document["id"] != Null then rest[KEY_FIELD := document["id"]] else rest
  }

  /** The data of the record a document is read as. */
  function ReadBack(model: Model, document: map<string, Data>): map<string, Data> {
    var data := map f | f in document :: FromBson(document[f]);
    var rest := data - {KEY_FIELD};
    if "id" in model then rest["id" := if KEY_FIELD in data then data[KEY_FIELD] else Null] else rest
  }

  /** The record's data in values MongoDB can store. */
  function PlainRecord(record: map<string, Data>): map<string, Data> { map f | f in record :: ToBson(record[f]) }

  predicate FitsRecord(model: Model, record: map<string, Data>) {
    && KEY_FIELD !in record && ("id" in record <==> "id" in model)
    && forall f :: f in record ==> Fits(TypeOf(model, f), record[f])
  }

  method ConvertToDocumentValues(model: Model, data: map<string, Data>) returns (document: map<string, Data>)
    ensures document == map f | f in data :: Encode(TypeOf(model, f), data[f])
  {
    document := map[];
    var names := data.Keys;
    while names != {}
      invariant names <= data.Keys && document.Keys == data.Keys - names
      invariant forall f :: f in document ==> document[f] == Encode(TypeOf(model, f), data[f])
    {
      var name :| name in names;
      document := document[name := Encode(TypeOf(model, name), data[name])];
      names := names - {name};
    }
  }

  method ConvertToDocument(model: Model, record: map<string, Data>) returns (document: map<string, Data>)
    ensures document == Document(model, record)
  {
    document := ConvertToDocumentValues(model, record);
    if "id" in document {
      var recordId := document["id"];
      document := document - {"id"};
      if recordId != Null {
        document := document[KEY_FIELD := recordId];
      }
    }
  }

  method ConvertToRecord(model: Model, document: map<string, Data>) returns (data: map<string, Data>)
    ensures data == ReadBack(model, document)
  {
    data := map f | f in document :: FromBson(document[f]);
    var key := if KEY_FIELD in data then data[KEY_FIELD] else Null;
    data := data - {KEY_FIELD};
    if "id" in model {
      data := data["id" := key];
    }
  }

  /** A record written as a document reads back as the same record, its id and those at any
      depth included. */
  lemma RecordReadsBack(model: Model, record: map<string, Data>)
    requires FitsRecord(model, record)
    ensures ReadBack(model, Document(model, record)) == PlainRecord(record)
  {
    var read, plain := ReadBack(model, Document(model, record)), PlainRecord(record);
    FieldsAreKept(model, record);
    forall f | f in record ensures read[f] == plain[f] {
      FieldReadsBack(model, record, f);
    }
    SameData(read, plain);
  }

  lemma SameData(a: map<string, Data>, b: map<string, Data>)
    requires a.Keys == b.Keys && forall f :: f in a ==> a[f] == b[f]
    ensures a == b
  {
  }

  lemma FieldsAreKept(model: Model, record: map<string, Data>)
    requires FitsRecord(model, record)
    ensures ReadBack(model, Document(model, record)).Keys == record.Keys
  {
    var document := Document(model, record);
    assert document.Keys - {KEY_FIELD} == record.Keys - {"id"};
  }

  lemma FieldReadsBack(model: Model, record: map<string, Data>, f: string)
    requires FitsRecord(model, record) && f in record
    ensures var read := ReadBack(model, Document(model, record)); f in read && read[f] == ToBson(record[f])
  {
    EncodedReadsBack(TypeOf(model, f), record[f]);
  }
}
