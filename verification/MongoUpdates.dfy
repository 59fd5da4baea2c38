/** Updates of MongoDB documents: their translation, and that it commutes with the encoding. */
module MongoUpdates {
  import opened Sequences
  import opened MongoEncoding
  import opened MongoQueries
  import Updates

  datatype Change = Change(op: Updates.UpdateOp, field: string, operand: Data)

  // ---- the meaning ----

  function Other(x: Data): Data -> bool { (y: Data) => y != x }

  /** What MongoDB refuses is left out: lists are added to and pulled from, and numbers increased. */
  predicate CanApply(data: map<string, Data>, c: Change) {
    match c.op
    case AddElement => c.field in data && data[c.field].List?
    case PullElement => c.field in data && data[c.field].List?
    case Increment => c.operand.Num? && (c.field in data ==> data[c.field].Num?)
    case OtherOp(_) => false
    case _ => true
  }

  function Apply(data: map<string, Data>, c: Change): map<string, Data>
    requires CanApply(data, c)
  {
    match c.op
    case SetTo => data[c.field := c.operand]
    case SetOnInsert => data
    case Increment => data[c.field := if c.field in data then Num(data[c.field].n + c.operand.n) else c.operand]
    case AddElement =>
      var items := data[c.field].items;
      data[c.field := List(if c.operand in items then items else items + [c.operand])]
    case PullElement => data[c.field := List(Kept(data[c.field].items, Other(c.operand)))]
  }

  /** Whether each change can be applied after those before it. */
  predicate CanApplyAll(data: map<string, Data>, u: seq<Change>)
    decreases |u|, 0
  {
    u == [] || (CanApplyAll(data, u[..|u| - 1]) && CanApply(ApplyAll(data, u[..|u| - 1]), u[|u| - 1]))
  }

  function ApplyAll(data: map<string, Data>, u: seq<Change>): map<string, Data>
    requires CanApplyAll(data, u)
    decreases |u|, 1
  {
    if u == [] then data else Apply(ApplyAll(data, u[..|u| - 1]), u[|u| - 1])
  }

  // ---- the translation ----

  function TranslateChange(model: Model, c: Change): Change {
    Change(c.op, DocumentField(c.field), Encode(TypeOf(model, c.field), c.operand))
  }

  function TranslateUpdate(model: Model, u: seq<Change>): (r: seq<Change>)
    ensures |r| == |u|
  {
    seq(|u|, i requires 0 <= i < |u| => TranslateChange(model, u[i]))
  }

  /** A change of a field by an operand of its type, in values MongoDB can store; of the id, only
      to an id. */
  predicate FitsChange(model: Model, c: Change) {
    && c.field != KEY_FIELD && Stored(TypeOf(model, c.field), c.operand)
    && (c.op.Increment? ==> TypeOf(model, c.field) == Plain)
    && (c.field == "id" ==> "id" in model && c.op in {Updates.SetTo, Updates.SetOnInsert} && c.operand != Null)
  }

  // ---- one change ----

  lemma {:induction false} PullEncoded(ty: Type, items: seq<Data>, x: Data)
    requires Stored(ty, x) && forall i :: 0 <= i < |items| ==> Stored(ty, items[i])
    ensures Kept(Map(items, Encoder(ty)), Other(Encode(ty, x))) == Map(Kept(items, Other(x)), Encoder(ty))
  {
    forall y | y in items ensures Other(x)(y) <==> Other(Encode(ty, x))(Encoder(ty)(y)) {
      EncodingIsInjective(ty, x, y);
    }
    KeptMap(items, Encoder(ty), Other(Encode(ty, x)), Other(x));
  }

  lemma AddEncoded(ty: Type, items: seq<Data>, x: Data)
    requires Stored(ty, x) && forall i :: 0 <= i < |items| ==> Stored(ty, items[i])
    ensures Encode(ty, x) in Map(items, Encoder(ty)) <==> x in items
    ensures Map(items + [x], Encoder(ty)) == Map(items, Encoder(ty)) + [Encode(ty, x)]
  {
    var encoded := Map(items, Encoder(ty));
    if Encode(ty, x) in encoded {
      var i :| 0 <= i < |items| && encoded[i] == Encode(ty, x);
      EncodingIsInjective(ty, x, items[i]);
    }
    if x in items {
      var i :| 0 <= i < |items| && items[i] == x;
      assert encoded[i] == Encode(ty, x);
    }
  }

  lemma ListEncoded(ty: Type, l: Data)
    requires Stored(ty, l) && l.List?
    ensures Encode(ty, l) == List(Map(l.items, Encoder(ty)))
  {
    EncodedParts(ty, l);
    assert Encode(ty, l).items == Map(l.items, Encoder(ty));
  }

  lemma ListIsStored(ty: Type, items: seq<Data>)
    requires forall i :: 0 <= i < |items| ==> Stored(ty, items[i])
    ensures Stored(ty, List(items))
  {
    assert ToBson(List(items)).items == items;
    assert ty.ModelType? ==> FitsModel(ty.fields, List(items));
  }

  lemma {:induction false} KeptAreStored(ty: Type, items: seq<Data>, keep: Data -> bool)
    requires forall i :: 0 <= i < |items| ==> Stored(ty, items[i])
    ensures forall i :: 0 <= i < |Kept(items, keep)| ==> Stored(ty, Kept(items, keep)[i])
  {
    if items != [] {
      KeptAreStored(ty, items[1..], keep);
    }
  }

  /** A field's value after a change is encoded as the encoded value after the change translated. */
  lemma ChangeEncoded(ty: Type, op: Updates.UpdateOp, v: Data, x: Data)
    requires Stored(ty, v) && Stored(ty, x) && v.List? && op in {Updates.AddElement, Updates.PullElement}
    ensures var before, after := map["f" := v], map["f" := Encode(ty, v)];
      && CanApply(before, Change(op, "f", x)) && CanApply(after, Change(op, "f", Encode(ty, x)))
      && Stored(ty, Apply(before, Change(op, "f", x))["f"])
      && Encode(ty, Apply(before, Change(op, "f", x))["f"]) == Apply(after, Change(op, "f", Encode(ty, x)))["f"]
  {
    PartsAreStored(ty, v);
    ListEncoded(ty, v);
    AddEncoded(ty, v.items, x);
    PullEncoded(ty, v.items, x);
    KeptAreStored(ty, v.items, Other(x));
    var changed := Apply(map["f" := v], Change(op, "f", x))["f"];
    ListIsStored(ty, changed.items);
    ListEncoded(ty, changed);
  }

  /** Replacing a field of a record replaces the field of its document. */
  lemma DocumentWith(model: Model, record: map<string, Data>, field: string, v: Data)
    requires field != KEY_FIELD && KEY_FIELD !in record
    requires field == "id" ==> Encode(TypeOf(model, "id"), v) != Null
    ensures Document(model, record[field := v])
            == Document(model, record)[DocumentField(field) := Encode(TypeOf(model, field), v)]
  {
    var left := Document(model, record[field := v]);
    var right := Document(model, record)[DocumentField(field) := Encode(TypeOf(model, field), v)];
    assert left.Keys == right.Keys;
    forall f | f in left ensures left[f] == right[f] {
    }
  }

  lemma NullIsKept(ty: Type, v: Data)
    requires Stored(ty, v) && v != Null
    ensures Encode(ty, v) != Null
  {
    assert Stored(ty, Null) && Encode(ty, Null) == Null;
    EncodingIsInjective(ty, v, Null);
  }

  lemma DocumentHas(model: Model, record: map<string, Data>, field: string)
    requires field !in {"id", KEY_FIELD}
    ensures field in Document(model, record) <==> field in record
    ensures field in record ==> Document(model, record)[field] == Encode(TypeOf(model, field), record[field])
  {
  }

  ghost predicate IsStoredRecord(model: Model, record: map<string, Data>) {
    && KEY_FIELD !in record && ("id" in record <==> "id" in model)
    && forall f :: f in record ==> Stored(TypeOf(model, f), record[f])
  }

  lemma FieldChanged(model: Model, record: map<string, Data>, field: string, v: Data)
    requires IsStoredRecord(model, record) && field !in {"id", KEY_FIELD} && Stored(TypeOf(model, field), v)
    ensures field in Document(model, record) <==> field in record
    ensures field in record ==> Document(model, record)[field] == Encode(TypeOf(model, field), record[field])
    ensures Document(model, record[field := v]) == Document(model, record)[field := Encode(TypeOf(model, field), v)]
    ensures IsStoredRecord(model, record[field := v])
  {
    DocumentHas(model, record, field);
    DocumentWith(model, record, field, v);
    StaysStored(model, record, field, v);
  }

  lemma StaysStored(model: Model, record: map<string, Data>, field: string, v: Data)
    requires IsStoredRecord(model, record) && field !in {"id", KEY_FIELD} && Stored(TypeOf(model, field), v)
    ensures IsStoredRecord(model, record[field := v])
  {
  }

  lemma ListChangeCommutes(model: Model, record: map<string, Data>, c: Change)
    requires IsStoredRecord(model, record) && FitsChange(model, c) && CanApply(record, c)
    requires c.op in {Updates.AddElement, Updates.PullElement}
    ensures var document, t := Document(model, record), TranslateChange(model, c);
      && CanApply(document, t) && Document(model, Apply(record, c)) == Apply(document, t)
      && IsStoredRecord(model, Apply(record, c))
  {
    var ty, v := TypeOf(model, c.field), record[c.field];
    ChangeEncoded(ty, c.op, v, c.operand);
    FieldChanged(model, record, c.field, Apply(record, c)[c.field]);
    assert Apply(map["f" := v], Change(c.op, "f", c.operand))["f"] == Apply(record, c)[c.field];
  }

  lemma SetCommutes(model: Model, record: map<string, Data>, c: Change)
    requires IsStoredRecord(model, record) && FitsChange(model, c) && c.op == Updates.SetTo
    ensures Document(model, Apply(record, c)) == Apply(Document(model, record), TranslateChange(model, c))
    ensures IsStoredRecord(model, Apply(record, c))
  {
    if c.field == "id" {
      NullIsKept(TypeOf(model, "id"), c.operand);
    }
    DocumentWith(model, record, c.field, c.operand);
  }

  lemma NumberIsKept(v: Data)
    ensures Stored(Plain, v) ==> Encode(Plain, v) == v
    ensures v.Num? ==> Stored(Plain, v)
  {
  }

  lemma IncrementCommutes(model: Model, record: map<string, Data>, c: Change)
    requires IsStoredRecord(model, record) && FitsChange(model, c) && c.op == Updates.Increment && CanApply(record, c)
    ensures CanApply(Document(model, record), TranslateChange(model, c))
    ensures Document(model, Apply(record, c)) == Apply(Document(model, record), TranslateChange(model, c))
    ensures IsStoredRecord(model, Apply(record, c))
  {
    var increased := Apply(record, c)[c.field];
    NumberIsKept(c.operand);
    NumberIsKept(increased);
    FieldChanged(model, record, c.field, increased);
    if c.field in record {
      NumberIsKept(record[c.field]);
    }
    assert TranslateChange(model, c) == Change(c.op, c.field, c.operand);
  }

  /** MongoDB takes a change of a record's document exactly if it would take it of the record. */
  lemma ChangeIsTakenIff(model: Model, record: map<string, Data>, c: Change)
    requires IsStoredRecord(model, record) && FitsChange(model, c)
    ensures CanApply(Document(model, record), TranslateChange(model, c)) <==> CanApply(record, c)
  {
    if c.op in {Updates.Increment, Updates.AddElement, Updates.PullElement} {
      DocumentHas(model, record, c.field);
      if c.field in record {
        EncodedParts(TypeOf(model, c.field), record[c.field]);
      }
    }
  }

  lemma ChangeCommutes(model: Model, record: map<string, Data>, c: Change)
    requires IsStoredRecord(model, record) && FitsChange(model, c) && CanApply(record, c)
    ensures CanApply(Document(model, record), TranslateChange(model, c))
    ensures Document(model, Apply(record, c)) == Apply(Document(model, record), TranslateChange(model, c))
    ensures IsStoredRecord(model, Apply(record, c))
  {
    match c.op
    case SetTo => SetCommutes(model, record, c);
    case Increment => IncrementCommutes(model, record, c);
    case AddElement => ListChangeCommutes(model, record, c);
    case PullElement => ListChangeCommutes(model, record, c);
    case _ =>
  }

  // ---- whole updates ----

  lemma OneMoreChange(data: map<string, Data>, u: seq<Change>, c: Change)
    ensures CanApplyAll(data, u + [c]) <==> CanApplyAll(data, u) && CanApply(ApplyAll(data, u), c)
    ensures CanApplyAll(data, u + [c]) ==> ApplyAll(data, u + [c]) == Apply(ApplyAll(data, u), c)
  {
    assert (u + [c])[..|u|] == u;
  }

  /** That an update commutes with the encoding of a record: MongoDB takes it translated of the
      document exactly if it would take it of the record, and then makes of it the document of the
      record changed. */
  ghost predicate Commutes(model: Model, record: map<string, Data>, u: seq<Change>) {
    && (CanApplyAll(Document(model, record), TranslateUpdate(model, u)) <==> CanApplyAll(record, u))
    && (CanApplyAll(record, u) ==>
          && ApplyAll(Document(model, record), TranslateUpdate(model, u)) == Document(model, ApplyAll(record, u))
          && IsStoredRecord(model, ApplyAll(record, u)))
  }

  lemma CommutesOnceMore(model: Model, record: map<string, Data>, u: seq<Change>, c: Change)
    requires Commutes(model, record, u) && FitsChange(model, c)
    ensures Commutes(model, record, u + [c])
  {
    var document, translated, t := Document(model, record), TranslateUpdate(model, u), TranslateChange(model, c);
    assert TranslateUpdate(model, u + [c]) == translated + [t];
    OneMoreChange(record, u, c);
    OneMoreChange(document, translated, t);
    if CanApplyAll(record, u) {
      ChangeIsTakenIff(model, ApplyAll(record, u), c);
      if CanApply(ApplyAll(record, u), c) {
        ChangeCommutes(model, ApplyAll(record, u), c);
      }
    }
  }

  /** Every update does. */
  lemma {:induction false} UpdateCommutes(model: Model, record: map<string, Data>, u: seq<Change>)
    requires IsStoredRecord(model, record) && forall i :: 0 <= i < |u| ==> FitsChange(model, u[i])
    ensures Commutes(model, record, u)
  {
    if u != [] {
      var init := u[..|u| - 1];
      UpdateCommutes(model, record, init);
      CommutesOnceMore(model, record, init, u[|u| - 1]);
      assert u == init + [u[|u| - 1]];
    }
  }
}
