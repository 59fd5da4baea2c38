/** Filters on MongoDB documents: their translation, their meaning, and that the two commute
    with the encoding of records. */
module MongoQueries {
  import opened Wrappers
  import Values
  import TextSearch
  import Dialect
  import opened MongoEncoding

  datatype Operator = Operator(op: Dialect.Op, operand: Data)
  datatype Condition = Equals(operand: Data) | Operators(ops: seq<Operator>)
  datatype ElementEntry = ElementEntry(field: string, condition: Condition)

  datatype Entry =
    | Logical(isAnd: bool, items: seq<Query>)
    | OnField(path: string, condition: Condition)
    | OnElements(path: string, entries: seq<ElementEntry>)

  datatype Query = Query(entries: seq<Entry>)

  // ---- paths ----

  function Split(path: string): (parts: seq<string>)
    ensures parts != []
  {
    if path == [] then [""]
    else
      var rest := Split(path[1..]);
      if path[0] == '.' then [""] + rest else [[path[0]] + rest[0]] + rest[1..]
  }

  lemma {:induction false} SplitJoined(a: string, b: string)
    ensures Split(a + "." + b) == Split(a) + Split(b)
  {
    if a == [] {
      assert a + "." + b == "." + b && ("." + b)[1..] == b;
    } else {
      assert (a + "." + b)[0] == a[0] && (a + "." + b)[1..] == a[1..] + "." + b;
      SplitJoined(a[1..], b);
    }
  }

  /** The type a path leads to. */
  function TypeAt(ty: Type, parts: seq<string>): Type
    decreases parts
  {
    if parts == [] then ty
    else if ty.ModelType? then TypeAt(TypeOf(ty.fields, parts[0]), parts[1..])
    else Plain
  }

  lemma {:induction false} TypeAtJoined(ty: Type, a: seq<string>, b: seq<string>)
    requires TypeAt(ty, a).ModelType?
    ensures TypeAt(ty, a + b) == TypeAt(TypeAt(ty, a), b)
    decreases a
  {
    if a == [] {
      assert a + b == b;
    } else {
      assert (a + b)[0] == a[0] && (a + b)[1..] == a[1..] + b;
      TypeAtJoined(TypeOf(ty.fields, a[0]), a[1..], b);
    }
  }

  // ---- the translation ----

  function DocumentField(path: string): string { if path == "id" then KEY_FIELD else path }

  function ToBsonValue(model: Model, path: string, v: Data): Data {
    Encode(TypeAt(ModelType(model), Split(path)), v)
  }

  function TranslateCondition(model: Model, path: string, c: Condition): Condition {
    match c
    case Equals(v) => Equals(ToBsonValue(model, path, v))
    case Operators(ops) =>
      Operators(seq(|ops|, i requires 0 <= i < |ops| => Operator(ops[i].op, ToBsonValue(model, path, ops[i].operand))))
  }

  /** One entry of a `$elemMatch`: its field is translated with the list's path before it, which
      is then cut off again. */
  function TranslateElementEntry(model: Model, path: string, e: ElementEntry): ElementEntry {
    var prefixed := path + "." + e.field;
    assert prefixed[|path|] == '.';
    var translated := DocumentField(prefixed);
    ElementEntry(translated[|path| + 1..], TranslateCondition(model, prefixed, e.condition))
  }

  function TranslateEntry(model: Model, e: Entry): Entry {
    match e
    case Logical(isAnd, items) =>
      Logical(isAnd, seq(|items|, i requires 0 <= i < |items| => Translate(model, items[i])))
    case OnField(path, c) => OnField(DocumentField(path), TranslateCondition(model, path, c))
    case OnElements(path, entries) =>
      OnElements(path, seq(|entries|, i requires 0 <= i < |entries| => TranslateElementEntry(model, path, entries[i])))
  }

  function Translate(model: Model, q: Query): Query {
    Query(seq(|q.entries|, i requires 0 <= i < |q.entries| => TranslateEntry(model, q.entries[i])))
  }

  /** The query with its operands in values MongoDB can store, and ids still strings. */
  function PlainCondition(c: Condition): Condition {
    match c
    case Equals(v) => Equals(ToBson(v))
    case Operators(ops) =>
      Operators(seq(|ops|, i requires 0 <= i < |ops| => Operator(ops[i].op, ToBson(ops[i].operand))))
  }

  function PlainEntries(entries: seq<ElementEntry>): (r: seq<ElementEntry>)
    ensures |r| == |entries|
    ensures forall i :: 0 <= i < |r| ==> r[i] == ElementEntry(entries[i].field, PlainCondition(entries[i].condition))
  {
    seq(|entries|, i requires 0 <= i < |entries| => ElementEntry(entries[i].field, PlainCondition(entries[i].condition)))
  }

  function PlainEntry(e: Entry): Entry {
    match e
    case Logical(isAnd, items) => Logical(isAnd, seq(|items|, i requires 0 <= i < |items| => PlainQuery(items[i])))
    case OnField(path, c) => OnField(path, PlainCondition(c))
    case OnElements(path, entries) =>
      OnElements(path, PlainEntries(entries))
  }

  function PlainQuery(q: Query): Query {
    Query(seq(|q.entries|, i requires 0 <= i < |q.entries| => PlainEntry(q.entries[i])))
  }

  method TranslateFilter(model: Model, q: Query) returns (r: Query)
    ensures r == Translate(model, q)
    decreases q
  {
    var entries: seq<Entry> := [];
    for i := 0 to |q.entries|
      invariant |entries| == i
      invariant forall k :: 0 <= k < i ==> entries[k] == TranslateEntry(model, q.entries[k])
    {
      match q.entries[i] {
        case Logical(isAnd, items) =>
          var translated: seq<Query> := [];
          for j := 0 to |items|
            invariant |translated| == j
            invariant forall k :: 0 <= k < j ==> translated[k] == Translate(model, items[k])
          {
            var item := TranslateFilter(model, items[j]);
            translated := translated + [item];
          }
          entries := entries + [Logical(isAnd, translated)];
        case OnField(path, c) =>
          entries := entries + [OnField(DocumentField(path), TranslateCondition(model, path, c))];
        case OnElements(path, elementEntries) =>
          entries := entries + [OnElements(path, seq(|elementEntries|, j requires 0 <= j < |elementEntries| =>
            TranslateElementEntry(model, path, elementEntries[j])))];
      }
    }
    r := Query(entries);
  }

  // ---- the meaning ----

  /** Whether a value is one a path leads to. The paths of a list are those of its objects,
      and what is missing is null. */
  ghost predicate At(v: Data, parts: seq<string>, x: Data)
    decreases v
  {
    if parts == [] then x == v
    else match v
      case Dict(fields) => if parts[0] in fields then At(fields[parts[0]], parts[1..], x) else x == Null
      case List(items) => exists i :: 0 <= i < |items| && items[i].Dict? && At(items[i], parts, x)
      case _ => x == Null
  }

  ghost function ValuesAt(v: Data, parts: seq<string>): iset<Data> { iset x | At(v, parts, x) }

  /** The elements of the lists among some values. */
  ghost function Elements(vs: iset<Data>): iset<Data> { iset l, x | l in vs && l.List? && x in l.items :: x }

  /** The values a condition looks at: those there, and the elements of the lists there. */
  ghost function Seen(vs: iset<Data>): iset<Data> { vs + Elements(vs) }

  predicate Less(a: Data, b: Data) {
    match (a, b)
    case (Num(m), Num(n)) => m < n
    case (Bool(b), Bool(c)) => !b && c
    case (Text(s), Text(t)) => Values.TextBelow(s, t)
    case (ObjectId(s), ObjectId(t)) => Values.TextBelow(s, t)
    case _ => false
  }

  ghost predicate Searches(pattern: Data, x: Data) {
    pattern.Text? && x.Text?
    && exists text :: pattern.s == TextSearch.ReEscape(text)
                      && TextSearch.Contains(Values.Lower(x.s), Values.Lower(text))
  }

  /** Whether one value meets an operator that looks for one. */
  ghost predicate Meets(o: Operator, x: Data) {
    match o.op
    case Gt => Less(o.operand, x)
    case Gte => Less(o.operand, x) || x == o.operand
    case Lt => Less(x, o.operand)
    case Lte => Less(x, o.operand) || x == o.operand
    case Regex => Searches(o.operand, x)
    case _ => false
  }

  ghost predicate Holds(seen: iset<Data>, o: Operator) {
    match o.op
    case Eq => o.operand in seen
    case Ne => o.operand !in seen
    case In => o.operand.List? && exists x :: x in o.operand.items && x in seen
    case Nin => o.operand.List? && forall x :: x in o.operand.items ==> x !in seen
    case Options => true
    case _ => exists x :: x in seen && Meets(o, x)
  }

  ghost predicate ConditionHolds(seen: iset<Data>, c: Condition) {
    match c
    case Equals(x) => x in seen
    case Operators(ops) => forall i :: 0 <= i < |ops| ==> Holds(seen, ops[i])
  }

  ghost predicate ElementHolds(v: Data, entries: seq<ElementEntry>) {
    v.Dict? && forall i :: 0 <= i < |entries| ==>
      ConditionHolds(Seen(ValuesAt(v, Split(entries[i].field))), entries[i].condition)
  }

  ghost predicate FindsElement(path: string, entries: seq<ElementEntry>, document: map<string, Data>) {
    exists x :: x in Elements(ValuesAt(Dict(document), Split(path))) && ElementHolds(x, entries)
  }

  ghost predicate Finds(q: Query, document: map<string, Data>) {
    forall i :: 0 <= i < |q.entries| ==> EntryFinds(q.entries[i], document)
  }

  ghost predicate EntryFinds(e: Entry, document: map<string, Data>) {
    match e
    case Logical(true, items) => forall i :: 0 <= i < |items| ==> Finds(items[i], document)
    case Logical(false, items) => exists i :: 0 <= i < |items| && Finds(items[i], document)
    case OnField(path, c) => ConditionHolds(Seen(ValuesAt(Dict(document), Split(path))), c)
    case OnElements(path, entries) => FindsElement(path, entries, document)
  }

  // ---- what the check and the types say of a query ----

  /** An operand of its field's type: a canonical id for an id, and no text search among ids. */
  predicate FitsOperator(ty: Type, o: Operator) {
    Fits(ty, o.operand) && (o.op in {Dialect.Op.Regex, Dialect.Op.Options} ==> !ty.IdType?)
  }

  predicate FitsCondition(ty: Type, c: Condition) {
    match c
    case Equals(x) => Fits(ty, x)
    case Operators(ops) => forall i :: 0 <= i < |ops| ==> FitsOperator(ty, ops[i])
  }

  /** `id` is a path's first part only on its own, and no path starts with the key's own name. */
  predicate IsPath(path: string) { path == "id" || Split(path)[0] !in {"id", KEY_FIELD} }

  predicate FitsQuery(model: Model, q: Query) {
    forall i :: 0 <= i < |q.entries| ==> FitsEntry(model, q.entries[i])
  }

  predicate FitsEntry(model: Model, e: Entry) {
    match e
    case Logical(_, items) => forall i :: 0 <= i < |items| ==> FitsQuery(model, items[i])
    case OnField(path, c) => IsPath(path) && FitsCondition(TypeAt(ModelType(model), Split(path)), c)
    case OnElements(path, entries) =>
      && IsPath(path) && path != "id" && TypeAt(ModelType(model), Split(path)).ModelType?
      && forall i :: 0 <= i < |entries| ==>
           FitsCondition(TypeAt(TypeAt(ModelType(model), Split(path)), Split(entries[i].field)), entries[i].condition)
  }

  // ---- paths commute with the encoding ----

  /** Data of a type in values MongoDB can store. */
  predicate Stored(ty: Type, v: Data) { Fits(ty, v) && ToBson(v) == v }

  lemma EncodingIsInjective(ty: Type, x: Data, y: Data)
    requires Stored(ty, x) && Stored(ty, y)
    ensures Encode(ty, x) == Encode(ty, y) <==> x == y
  {
    EncodedReadsBack(ty, x);
    EncodedReadsBack(ty, y);
  }

  lemma PartsAreStored(ty: Type, v: Data)
    requires Stored(ty, v)
    ensures v.List? ==> forall i :: 0 <= i < |v.items| ==> Stored(ty, v.items[i])
    ensures v.Dict? && ty.ModelType? ==> forall f :: f in v.fields ==> Stored(TypeOf(ty.fields, f), v.fields[f])
    ensures v.Dict? && !ty.ModelType? ==> ty == Plain && forall f :: f in v.fields ==> Stored(Plain, v.fields[f])
  {
    assert ty.ModelType? ==> FitsModel(ty.fields, v);
    if v.List? {
      forall i | 0 <= i < |v.items| ensures Stored(ty, v.items[i]) {
        assert ToBson(v).items[i] == ToBson(v.items[i]);
        assert ty.ModelType? ==> FitsModel(ty.fields, v.items[i]);
      }
    } else if v.Dict? {
      forall f | f in v.fields ensures Stored(if ty.ModelType? then TypeOf(ty.fields, f) else Plain, v.fields[f]) {
        assert ToBson(v).fields[f] == ToBson(v.fields[f]);
      }
    }
  }

  lemma EncodedParts(ty: Type, v: Data)
    requires Stored(ty, v)
    ensures Encode(ty, v).List? <==> v.List?
    ensures Encode(ty, v).Dict? <==> v.Dict?
    ensures v.List? ==> |Encode(ty, v).items| == |v.items|
    ensures v.List? ==> forall i :: 0 <= i < |v.items| ==> Encode(ty, v).items[i] == Encode(ty, v.items[i])
    ensures v.Dict? ==> Encode(ty, v).fields.Keys == v.fields.Keys
    ensures v.Dict? ==> forall f :: f in v.fields ==> Encode(ty, v).fields[f] == Encode(TypeAt(ty, [f]), v.fields[f])
  {
    PartsAreStored(ty, v);
    assert forall f: string :: [f][1..] == [];
  }

  lemma {:induction false} AtEncoded(ty: Type, v: Data, parts: seq<string>, x: Data)
    requires Stored(ty, v) && At(v, parts, x)
    ensures Stored(TypeAt(ty, parts), x) && At(Encode(ty, v), parts, Encode(TypeAt(ty, parts), x))
    decreases v
  {
    EncodedParts(ty, v);
    PartsAreStored(ty, v);
    if parts != [] && v.Dict? && parts[0] in v.fields {
      TypeAtFirst(ty, parts);
      assert parts[..1] == [parts[0]];
      AtEncoded(TypeAt(ty, parts[..1]), v.fields[parts[0]], parts[1..], x);
    } else if parts != [] && v.List? {
      var i :| 0 <= i < |v.items| && v.items[i].Dict? && At(v.items[i], parts, x);
      AtEncoded(ty, v.items[i], parts, x);
      EncodedParts(ty, v.items[i]);
    }
  }

  lemma TypeAtFirst(ty: Type, parts: seq<string>)
    requires parts != []
    ensures TypeAt(ty, parts[..1]) == if ty.ModelType? then TypeOf(ty.fields, parts[0]) else Plain
    ensures TypeAt(ty, parts) == TypeAt(TypeAt(ty, parts[..1]), parts[1..])
  {
    assert parts[..1][1..] == [];
    if !ty.ModelType? && parts[1..] != [] {
      assert TypeAt(Plain, parts[1..]) == Plain;
    }
  }

  lemma {:induction false} EncodedAt(ty: Type, v: Data, parts: seq<string>, y: Data)
    requires Stored(ty, v) && At(Encode(ty, v), parts, y)
    ensures exists x :: At(v, parts, x) && y == Encode(TypeAt(ty, parts), x)
    decreases v
  {
    EncodedParts(ty, v);
    PartsAreStored(ty, v);
    if parts == [] {
      assert At(v, parts, v);
    } else if v.Dict? && parts[0] in v.fields {
      TypeAtFirst(ty, parts);
      assert parts[..1] == [parts[0]];
      EncodedAt(TypeAt(ty, parts[..1]), v.fields[parts[0]], parts[1..], y);
      var x :| At(v.fields[parts[0]], parts[1..], x) && y == Encode(TypeAt(ty, parts), x);
      assert At(v, parts, x);
    } else if v.List? {
      var i :| 0 <= i < |v.items| && Encode(ty, v).items[i].Dict? && At(Encode(ty, v).items[i], parts, y);
      EncodedParts(ty, v.items[i]);
      EncodedAt(ty, v.items[i], parts, y);
      var x :| At(v.items[i], parts, x) && y == Encode(TypeAt(ty, parts), x);
      assert At(v, parts, x);
    } else {
      assert At(v, parts, Null);
    }
  }

  // ---- operators commute with any faithful encoding ----

  /** An encoding of some values that keeps apart, orders and lists them as they are; one that
      keeps texts can be searched. */
  ghost predicate Faithful(enc: Data -> Data, ok: Data -> bool, keepsTexts: bool) {
    && (forall a, b :: ok(a) && ok(b) ==> (enc(a) == enc(b) <==> a == b) && (Less(enc(a), enc(b)) <==> Less(a, b)))
    && (forall a :: ok(a) ==> (enc(a).List? <==> a.List?) && (enc(a).Dict? <==> a.Dict?))
    && (forall a :: ok(a) && a.List? ==>
          && |enc(a).items| == |a.items|
          && forall i :: 0 <= i < |a.items| ==> ok(a.items[i]) && enc(a).items[i] == enc(a.items[i]))
    && (keepsTexts ==> forall a :: ok(a) ==> (enc(a).Text? <==> a.Text?) && (a.Text? ==> enc(a) == a))
  }

  ghost predicate IsImage(enc: Data -> Data, ok: Data -> bool, xs: iset<Data>, ys: iset<Data>) {
    && (forall x :: x in xs ==> ok(x) && enc(x) in ys)
    && (forall y :: y in ys ==> exists x :: x in xs && y == enc(x))
  }

  lemma ItemsAreImages(enc: Data -> Data, ok: Data -> bool, keepsTexts: bool, l: Data)
    requires Faithful(enc, ok, keepsTexts) && ok(l) && l.List?
    ensures enc(l).List?
    ensures forall x :: x in l.items ==> ok(x) && enc(x) in enc(l).items
    ensures forall y :: y in enc(l).items ==> exists x :: x in l.items && y == enc(x)
  {
    forall x | x in l.items ensures ok(x) && enc(x) in enc(l).items {
      var i :| 0 <= i < |l.items| && l.items[i] == x;
      assert enc(l).items[i] == enc(x);
    }
    forall y | y in enc(l).items ensures exists x :: x in l.items && y == enc(x) {
      var i :| 0 <= i < |l.items| && enc(l).items[i] == y;
      assert l.items[i] in l.items;
    }
  }

  lemma ElementsAreImage(enc: Data -> Data, ok: Data -> bool, keepsTexts: bool, xs: iset<Data>, ys: iset<Data>)
    requires Faithful(enc, ok, keepsTexts) && IsImage(enc, ok, xs, ys)
    ensures IsImage(enc, ok, Elements(xs), Elements(ys))
    ensures IsImage(enc, ok, Seen(xs), Seen(ys))
  {
    forall x | x in Elements(xs) ensures ok(x) && enc(x) in Elements(ys) {
      var l :| l in xs && l.List? && x in l.items;
      ItemsAreImages(enc, ok, keepsTexts, l);
    }
    forall y | y in Elements(ys) ensures exists x :: x in Elements(xs) && y == enc(x) {
      var m :| m in ys && m.List? && y in m.items;
      var l :| l in xs && m == enc(l);
      ItemsAreImages(enc, ok, keepsTexts, l);
      var x :| x in l.items && y == enc(x);
      assert x in Elements(xs);
    }
    BothAreImages(enc, ok, xs, ys, Elements(xs), Elements(ys));
  }

  lemma BothAreImages(enc: Data -> Data, ok: Data -> bool, xs: iset<Data>, ys: iset<Data>, us: iset<Data>, ws: iset<Data>)
    requires IsImage(enc, ok, xs, ys) && IsImage(enc, ok, us, ws)
    ensures IsImage(enc, ok, xs + us, ys + ws)
  {
    forall y | y in ys + ws ensures exists x :: x in xs + us && y == enc(x) {
      var x :| (x in xs || x in us) && y == enc(x);
      assert x in xs + us;
    }
  }

  lemma IsSeenEncoded(enc: Data -> Data, ok: Data -> bool, keepsTexts: bool, xs: iset<Data>, ys: iset<Data>, x: Data)
    requires Faithful(enc, ok, keepsTexts) && IsImage(enc, ok, xs, ys) && ok(x)
    ensures enc(x) in ys <==> x in xs
  {
    if enc(x) in ys {
      var z :| z in xs && enc(x) == enc(z);
    }
  }

  lemma MembershipEncoded(enc: Data -> Data, ok: Data -> bool, keepsTexts: bool, xs: iset<Data>, ys: iset<Data>, l: Data)
    requires Faithful(enc, ok, keepsTexts) && IsImage(enc, ok, xs, ys) && ok(l) && l.List?
    ensures enc(l).List?
    ensures (exists y :: y in enc(l).items && y in ys) <==> exists x :: x in l.items && x in xs
  {
    ItemsAreImages(enc, ok, keepsTexts, l);
    if x :| x in l.items && x in xs {
      assert enc(x) in enc(l).items && enc(x) in ys;
    }
    if y :| y in enc(l).items && y in ys {
      var x :| x in l.items && y == enc(x);
      IsSeenEncoded(enc, ok, keepsTexts, xs, ys, x);
    }
  }

  lemma MeetsEncoded(enc: Data -> Data, ok: Data -> bool, keepsTexts: bool, o: Operator, x: Data)
    requires Faithful(enc, ok, keepsTexts) && ok(o.operand) && ok(x) && (o.op.Regex? ==> keepsTexts)
    ensures Meets(Operator(o.op, enc(o.operand)), enc(x)) <==> Meets(o, x)
  {
  }

  lemma SearchEncoded(enc: Data -> Data, ok: Data -> bool, keepsTexts: bool, xs: iset<Data>, ys: iset<Data>, o: Operator)
    requires Faithful(enc, ok, keepsTexts) && IsImage(enc, ok, xs, ys) && ok(o.operand) && (o.op.Regex? ==> keepsTexts)
    ensures (exists y :: y in ys && Meets(Operator(o.op, enc(o.operand)), y)) <==> exists x :: x in xs && Meets(o, x)
  {
    if x :| x in xs && Meets(o, x) {
      MeetsEncoded(enc, ok, keepsTexts, o, x);
      assert enc(x) in ys;
    }
    if y :| y in ys && Meets(Operator(o.op, enc(o.operand)), y) {
      var x :| x in xs && y == enc(x);
      MeetsEncoded(enc, ok, keepsTexts, o, x);
    }
  }

  lemma OperatorCommutes(enc: Data -> Data, ok: Data -> bool, keepsTexts: bool, xs: iset<Data>, ys: iset<Data>, o: Operator)
    requires Faithful(enc, ok, keepsTexts) && IsImage(enc, ok, xs, ys) && ok(o.operand) && (o.op.Regex? ==> keepsTexts)
    ensures Holds(ys, Operator(o.op, enc(o.operand))) <==> Holds(xs, o)
  {
    if o.op.Eq? || o.op.Ne? {
      IsSeenEncoded(enc, ok, keepsTexts, xs, ys, o.operand);
    } else if o.op.In? || o.op.Nin? {
      if o.operand.List? {
        MembershipEncoded(enc, ok, keepsTexts, xs, ys, o.operand);
      }
    } else if !o.op.Options? {
      SearchEncoded(enc, ok, keepsTexts, xs, ys, o);
    }
  }

  function Mapped(enc: Data -> Data, c: Condition): Condition {
    match c
    case Equals(x) => Equals(enc(x))
    case Operators(ops) =>
      Operators(seq(|ops|, i requires 0 <= i < |ops| => Operator(ops[i].op, enc(ops[i].operand))))
  }

  predicate Operands(c: Condition, ok: Data -> bool, keepsTexts: bool) {
    match c
    case Equals(x) => ok(x)
    case Operators(ops) => forall i :: 0 <= i < |ops| ==> ok(ops[i].operand) && (ops[i].op.Regex? ==> keepsTexts)
  }

  lemma ConditionCommutes(enc: Data -> Data, ok: Data -> bool, keepsTexts: bool, xs: iset<Data>, ys: iset<Data>, c: Condition)
    requires Faithful(enc, ok, keepsTexts) && IsImage(enc, ok, xs, ys) && Operands(c, ok, keepsTexts)
    ensures ConditionHolds(ys, Mapped(enc, c)) <==> ConditionHolds(xs, c)
  {
    match c
    case Equals(x) => IsSeenEncoded(enc, ok, keepsTexts, xs, ys, x);
    case Operators(ops) =>
      var mapped := Mapped(enc, c).ops;
      forall i | 0 <= i < |ops| ensures Holds(ys, mapped[i]) <==> Holds(xs, ops[i]) {
        OperatorCommutes(enc, ok, keepsTexts, xs, ys, ops[i]);
      }
  }

  // ---- the encoding of each type is faithful ----

  function Encoder(ty: Type): Data -> Data { (v: Data) => Encode(ty, v) }

  function IsStored(ty: Type): Data -> bool { (v: Data) => Stored(ty, v) }

  lemma LessEncoded(ty: Type, a: Data, b: Data)
    requires Stored(ty, a) && Stored(ty, b)
    ensures Less(Encode(ty, a), Encode(ty, b)) <==> Less(a, b)
  {
    if ty.IdType? {
      if a.Text? { IdsAreLower(a.s); }
      if b.Text? { IdsAreLower(b.s); }
    }
  }

  lemma EncodingIsFaithful(ty: Type)
    ensures Faithful(Encoder(ty), IsStored(ty), !ty.IdType?)
  {
    var enc, ok := Encoder(ty), IsStored(ty);
    forall a, b | ok(a) && ok(b)
      ensures (enc(a) == enc(b) <==> a == b) && (Less(enc(a), enc(b)) <==> Less(a, b))
    {
      EncodingIsInjective(ty, a, b);
      LessEncoded(ty, a, b);
    }
    forall a | ok(a)
      ensures (enc(a).List? <==> a.List?) && (enc(a).Dict? <==> a.Dict?)
      ensures a.List? ==> |enc(a).items| == |a.items|
      ensures a.List? ==> forall i :: 0 <= i < |a.items| ==> ok(a.items[i]) && enc(a).items[i] == enc(a.items[i])
      ensures !ty.IdType? ==> (enc(a).Text? <==> a.Text?) && (a.Text? ==> enc(a) == a)
    {
      EncodedParts(ty, a);
      PartsAreStored(ty, a);
    }
  }

  lemma ValuesEncoded(ty: Type, v: Data, parts: seq<string>)
    requires Stored(ty, v)
    ensures var at := TypeAt(ty, parts);
      IsImage(Encoder(at), IsStored(at), ValuesAt(v, parts), ValuesAt(Encode(ty, v), parts))
  {
    forall x | At(v, parts, x)
      ensures Stored(TypeAt(ty, parts), x) && At(Encode(ty, v), parts, Encode(TypeAt(ty, parts), x))
    {
      AtEncoded(ty, v, parts, x);
    }
    forall y | y in ValuesAt(Encode(ty, v), parts)
      ensures exists x :: x in ValuesAt(v, parts) && y == Encoder(TypeAt(ty, parts))(x)
    {
      EncodedAt(ty, v, parts, y);
      var x :| At(v, parts, x) && y == Encode(TypeAt(ty, parts), x);
      assert x in ValuesAt(v, parts);
    }
  }

  lemma FitsMakesStored(ty: Type, v: Data)
    requires Fits(ty, v)
    ensures Stored(ty, ToBson(v)) && Encode(ty, ToBson(v)) == Encode(ty, v)
  {
    EncodedReadsBack(ty, v);
    EncodedReadsBack(ty, ToBson(v));
  }

  function EncodeCondition(ty: Type, c: Condition): Condition { Mapped(Encoder(ty), c) }

  lemma FittingCondition(ty: Type, c: Condition)
    requires FitsCondition(ty, c)
    ensures Operands(PlainCondition(c), IsStored(ty), !ty.IdType?)
    ensures Mapped(Encoder(ty), PlainCondition(c)) == EncodeCondition(ty, c)
  {
    match c
    case Equals(x) => FitsMakesStored(ty, x);
    case Operators(ops) =>
      forall i | 0 <= i < |ops|
        ensures Stored(ty, ToBson(ops[i].operand)) && Encode(ty, ToBson(ops[i].operand)) == Encode(ty, ops[i].operand)
      {
        FitsMakesStored(ty, ops[i].operand);
      }
  }

  lemma TypedConditionCommutes(ty: Type, xs: iset<Data>, ys: iset<Data>, c: Condition)
    requires IsImage(Encoder(ty), IsStored(ty), xs, ys) && FitsCondition(ty, c)
    ensures ConditionHolds(Seen(ys), EncodeCondition(ty, c)) <==> ConditionHolds(Seen(xs), PlainCondition(c))
  {
    EncodingIsFaithful(ty);
    FittingCondition(ty, c);
    ElementsAreImage(Encoder(ty), IsStored(ty), !ty.IdType?, xs, ys);
    ConditionCommutes(Encoder(ty), IsStored(ty), !ty.IdType?, Seen(xs), Seen(ys), PlainCondition(c));
  }

  // ---- the paths of a whole record ----

  lemma SameDocument(model: Model, record: map<string, Data>, other: map<string, Data>)
    requires other.Keys == record.Keys
    requires forall f :: f in record ==> Encode(TypeOf(model, f), other[f]) == Encode(TypeOf(model, f), record[f])
    ensures Document(model, other) == Document(model, record)
  {
    assert (map f | f in other :: Encode(TypeOf(model, f), other[f]))
           == map f | f in record :: Encode(TypeOf(model, f), record[f]);
  }

  lemma FieldIsStored(model: Model, record: map<string, Data>, f: string)
    requires f in record && Fits(TypeOf(model, f), record[f])
    ensures Stored(TypeOf(model, f), ToBson(record[f]))
  {
    FitsMakesStored(TypeOf(model, f), record[f]);
  }

  lemma StoredFields(model: Model, record: map<string, Data>)
    requires FitsRecord(model, record)
    ensures FitsRecord(model, PlainRecord(record)) && Stored(ModelType(model), Dict(PlainRecord(record)))
  {
    var stored := PlainRecord(record);
    forall f | f in stored ensures Stored(TypeOf(model, f), stored[f]) {
      FieldIsStored(model, record, f);
    }
    StoredFieldsMakeStored(model, stored);
    StoredFieldsFit(model, record, stored);
  }

  lemma StoredFieldsFit(model: Model, record: map<string, Data>, stored: map<string, Data>)
    requires FitsRecord(model, record) && stored.Keys == record.Keys
    requires forall f :: f in stored ==> Stored(TypeOf(model, f), stored[f])
    ensures FitsRecord(model, stored)
  {
  }

  lemma StoredFieldsMakeStored(model: Model, stored: map<string, Data>)
    requires forall f :: f in stored ==> Stored(TypeOf(model, f), stored[f])
    ensures Stored(ModelType(model), Dict(stored))
  {
    assert (map f | f in stored :: ToBson(stored[f])) == stored;
    assert FitsModel(model, Dict(stored));
  }

  lemma StoredDocument(model: Model, record: map<string, Data>)
    requires FitsRecord(model, record)
    ensures Document(model, PlainRecord(record)) == Document(model, record)
  {
    forall f | f in record ensures Encode(TypeOf(model, f), ToBson(record[f])) == Encode(TypeOf(model, f), record[f]) {
      FitsMakesStored(TypeOf(model, f), record[f]);
    }
    SameDocument(model, record, PlainRecord(record));
  }

  lemma SplitFirst(path: string, c: char)
    requires Split(path) == [path] && c != '.'
    ensures Split([c] + path) == [[c] + path]
  {
    assert ([c] + path)[1..] == path;
  }

  lemma KeyPaths()
    ensures Split("id") == ["id"] && Split(KEY_FIELD) == [KEY_FIELD]
  {
    assert "d" == ['d'] + "" && "id" == ['i'] + "d" && "_id" == ['_'] + "id";
    SplitFirst("", 'd');
    SplitFirst("d", 'i');
    SplitFirst("id", '_');
  }

  lemma ValueOfOne(document: map<string, Data>, name: string)
    ensures ValuesAt(Dict(document), [name]) == iset{if name in document then document[name] else Null}
  {
    var value := if name in document then document[name] else Null;
    assert [name][1..] == [];
    assert forall x :: At(Dict(document), [name], x) <==> x == value;
  }

  lemma TypeOfOne(model: Model, name: string)
    ensures TypeAt(ModelType(model), [name]) == TypeOf(model, name)
  {
    assert [name][1..] == [];
  }

  /** The key's path leads from the record to its id, and from the document to the same one. */
  lemma KeyEncoded(model: Model, record: map<string, Data>)
    requires FitsRecord(model, record) && Stored(ModelType(model), Dict(record))
    ensures var ty := TypeOf(model, "id");
      IsImage(Encoder(ty), IsStored(ty), ValuesAt(Dict(record), ["id"]), ValuesAt(Dict(Document(model, record)), [KEY_FIELD]))
  {
    var ty, document := TypeOf(model, "id"), Document(model, record);
    PartsAreStored(ModelType(model), Dict(record));
    ValueOfOne(record, "id");
    ValueOfOne(document, KEY_FIELD);
    var id := if "id" in record then record["id"] else Null;
    var key := if KEY_FIELD in document then document[KEY_FIELD] else Null;
    assert Stored(ty, id) && Encode(ty, Null) == Null;
    assert key == Encode(ty, id);
  }

  lemma OtherFieldsAreEncoded(model: Model, record: map<string, Data>, name: string)
    requires name !in {"id", KEY_FIELD}
    ensures var encoded := ConvertNested(model, Dict(record)).fields;
      && (name in Document(model, record) <==> name in encoded)
      && (name in encoded ==> Document(model, record)[name] == encoded[name])
  {
  }

  lemma PathEncoded(model: Model, record: map<string, Data>, path: string)
    requires FitsRecord(model, record) && Stored(ModelType(model), Dict(record)) && IsPath(path)
    ensures var ty := TypeAt(ModelType(model), Split(path));
      IsImage(Encoder(ty), IsStored(ty), ValuesAt(Dict(record), Split(path)),
              ValuesAt(Dict(Document(model, record)), Split(DocumentField(path))))
  {
    KeyPaths();
    if path == "id" {
      KeyEncoded(model, record);
      TypeOfOne(model, "id");
    } else {
      var parts, encoded := Split(path), Encode(ModelType(model), Dict(record));
      ValuesEncoded(ModelType(model), Dict(record), parts);
      OtherFieldsAreEncoded(model, record, parts[0]);
      assert forall y :: At(Dict(Document(model, record)), parts, y) <==> At(encoded, parts, y);
      assert ValuesAt(Dict(Document(model, record)), parts) == ValuesAt(encoded, parts);
    }
  }

  // ---- whole queries commute with the encoding ----

  lemma TranslatedCondition(model: Model, path: string, c: Condition)
    ensures TranslateCondition(model, path, c) == EncodeCondition(TypeAt(ModelType(model), Split(path)), c)
  {
  }

  /** A `$elemMatch` entry keeps its field, an element's own `id` too, and its operands take the
      type the field has in the elements. */
  lemma PrefixIsStripped(model: Model, path: string, e: ElementEntry)
    requires TypeAt(ModelType(model), Split(path)).ModelType?
    ensures TranslateElementEntry(model, path, e)
            == ElementEntry(e.field, EncodeCondition(TypeAt(TypeAt(ModelType(model), Split(path)), Split(e.field)), e.condition))
  {
    var prefixed := path + "." + e.field;
    assert prefixed[|path|] == '.';
    assert DocumentField(prefixed) == prefixed && prefixed[|path| + 1..] == e.field;
    SplitJoined(path, e.field);
    TypeAtJoined(ModelType(model), Split(path), Split(e.field));
    TranslatedCondition(model, prefixed, e.condition);
  }

  /** The conditions on elements of a type, encoded as the elements are. */
  predicate AreEncoded(ty: Type, entries: seq<ElementEntry>, encoded: seq<ElementEntry>) {
    |encoded| == |entries| && forall i :: 0 <= i < |entries| ==>
      encoded[i] == ElementEntry(entries[i].field, EncodeCondition(TypeAt(ty, Split(entries[i].field)), entries[i].condition))
  }

  lemma ElementCommutes(ty: Type, entries: seq<ElementEntry>, encoded: seq<ElementEntry>, v: Data)
    requires Stored(ty, v) && AreEncoded(ty, entries, encoded)
    requires forall i :: 0 <= i < |entries| ==> FitsCondition(TypeAt(ty, Split(entries[i].field)), entries[i].condition)
    ensures ElementHolds(Encode(ty, v), encoded) <==> ElementHolds(v, PlainEntries(entries))
  {
    EncodedParts(ty, v);
    var plain := PlainEntries(entries);
    forall i | 0 <= i < |entries|
      ensures ConditionHolds(Seen(ValuesAt(Encode(ty, v), Split(encoded[i].field))), encoded[i].condition)
              <==> ConditionHolds(Seen(ValuesAt(v, Split(plain[i].field))), plain[i].condition)
    {
      var parts := Split(entries[i].field);
      ValuesEncoded(ty, v, parts);
      TypedConditionCommutes(TypeAt(ty, parts), ValuesAt(v, parts), ValuesAt(Encode(ty, v), parts), entries[i].condition);
    }
  }

  lemma AnyCommutes(enc: Data -> Data, ok: Data -> bool, xs: iset<Data>, ys: iset<Data>, those: iset<Data>, encoded: iset<Data>)
    requires IsImage(enc, ok, xs, ys)
    requires forall x :: ok(x) ==> (enc(x) in encoded <==> x in those)
    ensures (exists y :: y in ys && y in encoded) <==> exists x :: x in xs && x in those
  {
    if x :| x in xs && x in those {
      assert enc(x) in ys && enc(x) in encoded;
    }
    if y :| y in ys && y in encoded {
      var x :| x in xs && y == enc(x);
      assert x in those;
    }
  }

  lemma PrefixesAreStripped(model: Model, path: string, entries: seq<ElementEntry>)
    requires TypeAt(ModelType(model), Split(path)).ModelType?
    ensures AreEncoded(TypeAt(ModelType(model), Split(path)), entries, TranslateEntry(model, OnElements(path, entries)).entries)
  {
    forall i | 0 <= i < |entries|
      ensures TranslateElementEntry(model, path, entries[i]) == ElementEntry(entries[i].field,
        EncodeCondition(TypeAt(TypeAt(ModelType(model), Split(path)), Split(entries[i].field)), entries[i].condition))
    {
      PrefixIsStripped(model, path, entries[i]);
    }
  }

  lemma AnyElementCommutes(ty: Type, xs: iset<Data>, ys: iset<Data>, entries: seq<ElementEntry>, encoded: seq<ElementEntry>)
    requires IsImage(Encoder(ty), IsStored(ty), xs, ys) && AreEncoded(ty, entries, encoded)
    requires forall i :: 0 <= i < |entries| ==> FitsCondition(TypeAt(ty, Split(entries[i].field)), entries[i].condition)
    ensures (exists y :: y in ys && ElementHolds(y, encoded)) <==> exists x :: x in xs && ElementHolds(x, PlainEntries(entries))
  {
    var those := iset x | ElementHolds(x, PlainEntries(entries));
    var theirs := iset y | ElementHolds(y, encoded);
    forall x | IsStored(ty)(x) ensures Encoder(ty)(x) in theirs <==> x in those {
      ElementCommutes(ty, entries, encoded, x);
    }
    AnyCommutes(Encoder(ty), IsStored(ty), xs, ys, those, theirs);
    assert forall x :: x in those <==> ElementHolds(x, PlainEntries(entries));
    assert forall y :: y in theirs <==> ElementHolds(y, encoded);
  }

  lemma ElementsEncoded(model: Model, record: map<string, Data>, path: string)
    requires FitsRecord(model, record) && Stored(ModelType(model), Dict(record)) && IsPath(path) && path != "id"
    ensures var ty := TypeAt(ModelType(model), Split(path));
      IsImage(Encoder(ty), IsStored(ty), Elements(ValuesAt(Dict(record), Split(path))),
              Elements(ValuesAt(Dict(Document(model, record)), Split(path))))
  {
    var ty := TypeAt(ModelType(model), Split(path));
    PathEncoded(model, record, path);
    EncodingIsFaithful(ty);
    ElementsAreImage(Encoder(ty), IsStored(ty), !ty.IdType?, ValuesAt(Dict(record), Split(path)),
                     ValuesAt(Dict(Document(model, record)), Split(path)));
  }

  lemma ElementsCommute(model: Model, path: string, entries: seq<ElementEntry>, encoded: seq<ElementEntry>, record: map<string, Data>)
    requires FitsRecord(model, record) && Stored(ModelType(model), Dict(record)) && IsPath(path) && path != "id"
    requires AreEncoded(TypeAt(ModelType(model), Split(path)), entries, encoded)
    requires forall i :: 0 <= i < |entries| ==>
      FitsCondition(TypeAt(TypeAt(ModelType(model), Split(path)), Split(entries[i].field)), entries[i].condition)
    ensures FindsElement(path, encoded, Document(model, record)) <==> FindsElement(path, PlainEntries(entries), record)
  {
    ElementsEncoded(model, record, path);
    AnyElementCommutes(TypeAt(ModelType(model), Split(path)), Elements(ValuesAt(Dict(record), Split(path))),
                       Elements(ValuesAt(Dict(Document(model, record)), Split(path))), entries, encoded);
  }

  lemma FieldCommutes(model: Model, path: string, c: Condition, record: map<string, Data>)
    requires FitsRecord(model, record) && Stored(ModelType(model), Dict(record))
    requires IsPath(path) && FitsCondition(TypeAt(ModelType(model), Split(path)), c)
    ensures EntryFinds(TranslateEntry(model, OnField(path, c)), Document(model, record))
            <==> EntryFinds(PlainEntry(OnField(path, c)), record)
  {
    PathEncoded(model, record, path);
    TranslatedCondition(model, path, c);
    TypedConditionCommutes(TypeAt(ModelType(model), Split(path)), ValuesAt(Dict(record), Split(path)),
                           ValuesAt(Dict(Document(model, record)), Split(DocumentField(path))), c);
  }

  lemma LogicalCommutes(isAnd: bool, qs: seq<Query>, document: map<string, Data>, ps: seq<Query>, record: map<string, Data>)
    requires |qs| == |ps| && forall i :: 0 <= i < |qs| ==> (Finds(qs[i], document) <==> Finds(ps[i], record))
    ensures EntryFinds(Logical(isAnd, qs), document) <==> EntryFinds(Logical(isAnd, ps), record)
  {
  }

  lemma {:induction false} EntryCommutes(model: Model, e: Entry, record: map<string, Data>)
    requires FitsRecord(model, record) && Stored(ModelType(model), Dict(record)) && FitsEntry(model, e)
    ensures EntryFinds(TranslateEntry(model, e), Document(model, record)) <==> EntryFinds(PlainEntry(e), record)
  {
    match e
    case Logical(isAnd, items) =>
      var translated, plain := TranslateEntry(model, e).items, PlainEntry(e).items;
      forall i | 0 <= i < |items|
        ensures Finds(translated[i], Document(model, record)) <==> Finds(plain[i], record)
      {
        StoredQueryCommutes(model, items[i], record);
      }
      LogicalCommutes(isAnd, translated, Document(model, record), plain, record);
    case OnField(path, c) => FieldCommutes(model, path, c, record);
    case OnElements(path, entries) =>
      PrefixesAreStripped(model, path, entries);
      ElementsCommute(model, path, entries, TranslateEntry(model, e).entries, record);
  }

  lemma {:induction false} StoredQueryCommutes(model: Model, q: Query, record: map<string, Data>)
    requires FitsRecord(model, record) && Stored(ModelType(model), Dict(record)) && FitsQuery(model, q)
    ensures Finds(Translate(model, q), Document(model, record)) <==> Finds(PlainQuery(q), record)
  {
    var translated, plain := Translate(model, q).entries, PlainQuery(q).entries;
    forall i | 0 <= i < |q.entries|
      ensures EntryFinds(translated[i], Document(model, record)) <==> EntryFinds(plain[i], record)
    {
      EntryCommutes(model, q.entries[i], record);
    }
  }

  /** The encoding commutes: a translated filter finds the document of a record exactly when the
      filter, in strings, finds the record. */
  lemma EncodingCommutes(model: Model, q: Query, record: map<string, Data>)
    requires FitsRecord(model, record) && FitsQuery(model, q)
    ensures Finds(Translate(model, q), Document(model, record))
            <==> Finds(PlainQuery(q), PlainRecord(record))
  {
    StoredFields(model, record);
    StoredDocument(model, record);
    StoredQueryCommutes(model, q, PlainRecord(record));
  }

  /** It does for an id as it stands, and for no other text MongoDB takes for one: it finds the
      record of an id by its upper-case form, which the filter in strings does not. */
  lemma CommutesForCanonicalIdsOnly(s: string)
    requires IsObjectIdText(s)
    ensures IsId(s) <==>
      forall id: string :: IsId(id) ==> (ToObjectIds(Text(id)) == ToObjectIds(Text(s)) <==> id == s)
  {
    if IsId(s) {
      IdsAreLower(s);
      forall id: string | IsId(id) ensures ToObjectIds(Text(id)) == ToObjectIds(Text(s)) <==> id == s {
        IdsAreLower(id);
      }
    } else {
      IdsAreLower(Values.Lower(s));
      assert IsId(Values.Lower(s)) && Values.Lower(s) != s;
    }
  }
}
