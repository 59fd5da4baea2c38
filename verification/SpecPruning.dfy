/** The backend's API spec, pruned to the schemas MSS reads and those they refer to. */
module SpecPruning {
  import opened Wrappers

  /** A node of the spec, as JSON has it. */
  datatype Node =
    | Text(s: string)
    | Flag(b: bool)
    | Number(n: real)
    | Null
    | Items(items: seq<Node>)
    | Object(fields: map<string, Node>)

  const PREFIX := "#/components/schemas/"

  function LastSegment(ref: string): string {
    if ref == [] then [] else if '/' in ref[1..] then LastSegment(ref[1..]) else if ref[0] == '/' then ref[1..] else ref
  }

  function OwnRef(fields: map<string, Node>): set<string> {
    if "$ref" in fields && fields["$ref"].Text? && PREFIX <= fields["$ref"].s
    then {LastSegment(fields["$ref"].s)} else {}
  }

  /** The names of the schemas a node refers to, at any depth. */
  function GetRefs(node: Node): set<string> {
    match node
    case Object(fields) => OwnRef(fields) + (set f, name | f in fields && name in GetRefs(fields[f]) :: name)
    case Items(items) => set i, name | 0 <= i < |items| && name in GetRefs(items[i]) :: name
    case _ => {}
  }

  // ---- leniency ----

  predicate IsReadOnly(properties: map<string, Node>, name: Node) {
    && name.Text? && name.s in properties && properties[name.s].Object?
    && "readOnly" in properties[name.s].fields && properties[name.s].fields["readOnly"] == Flag(true)
  }

  function Optional(required: seq<Node>, properties: map<string, Node>): seq<Node> {
    if required == [] then []
    else (if IsReadOnly(properties, required[0]) then [] else [required[0]]) + Optional(required[1..], properties)
  }

  predicate HasBoth(schema: map<string, Node>) {
    "required" in schema && schema["required"].Items? && "properties" in schema && schema["properties"].Object?
  }

  function WithOptional(schema: map<string, Node>): map<string, Node> {
    if HasBoth(schema)
    then schema["required" := Items(Optional(schema["required"].items, schema["properties"].fields))]
    else schema
  }

  function MakeLenient(node: Node): Node {
    match node
    case Items(items) => Items(seq(|items|, i requires 0 <= i < |items| => MakeLenient(items[i])))
    case Object(fields) => Object(WithOptional(map f | f in fields && f != "pattern" :: MakeLenient(fields[f])))
    case _ => node
  }

  /** As lenient as MSS reading it should be: no string has a pattern, and no read-only field is
      required, in any schema at any depth. */
  predicate IsLenient(node: Node) {
    match node
    case Items(items) => forall i :: 0 <= i < |items| ==> IsLenient(items[i])
    case Object(fields) =>
      && "pattern" !in fields
      && (forall f :: f in fields ==> IsLenient(fields[f]))
      && (HasBoth(fields) ==>
            forall i :: 0 <= i < |fields["required"].items| ==>
              !IsReadOnly(fields["properties"].fields, fields["required"].items[i]))
    case _ => true
  }

  lemma {:induction false} OptionalIsSubsequence(required: seq<Node>, properties: map<string, Node>)
    ensures forall name :: name in Optional(required, properties) <==> name in required && !IsReadOnly(properties, name)
    ensures (forall name :: name in required ==> !IsReadOnly(properties, name)) ==> Optional(required, properties) == required
  {
    if required != [] {
      OptionalIsSubsequence(required[1..], properties);
      assert required == [required[0]] + required[1..];
    }
  }

  lemma WithOptionalIsLenient(schema: map<string, Node>)
    requires "pattern" !in schema && forall f :: f in schema ==> IsLenient(schema[f])
    ensures IsLenient(Object(WithOptional(schema)))
  {
    if HasBoth(schema) {
      var required, optional := schema["required"].items, WithOptional(schema)["required"].items;
      OptionalIsSubsequence(required, schema["properties"].fields);
      forall i | 0 <= i < |optional|
        ensures IsLenient(optional[i]) && !IsReadOnly(schema["properties"].fields, optional[i])
      {
        assert optional[i] in required;
        var k :| 0 <= k < |required| && required[k] == optional[i];
        assert IsLenient(schema["required"]);
      }
    }
  }

  lemma {:induction false} MadeLenient(node: Node)
    ensures IsLenient(MakeLenient(node))
  {
    match node
    case Items(items) =>
      forall i | 0 <= i < |items| ensures IsLenient(MakeLenient(items[i])) {
        MadeLenient(items[i]);
      }
    case Object(fields) =>
      var schema := map f | f in fields && f != "pattern" :: MakeLenient(fields[f]);
      forall f | f in schema ensures IsLenient(schema[f]) {
        MadeLenient(fields[f]);
      }
      WithOptionalIsLenient(schema);
    case _ =>
  }

  /** What is lenient already is left as it is. */
  lemma {:induction false} LenientIsKept(node: Node)
    requires IsLenient(node)
    ensures MakeLenient(node) == node
  {
    match node
    case Items(items) =>
      forall i | 0 <= i < |items| ensures MakeLenient(items[i]) == items[i] {
        LenientIsKept(items[i]);
      }
    case Object(fields) =>
      forall f | f in fields ensures MakeLenient(fields[f]) == fields[f] {
        LenientIsKept(fields[f]);
      }
      assert (map f | f in fields && f != "pattern" :: MakeLenient(fields[f])) == fields;
      NothingIsMadeOptional(fields);
    case _ =>
  }

  lemma NothingIsMadeOptional(fields: map<string, Node>)
    requires IsLenient(Object(fields))
    ensures WithOptional(fields) == fields
  {
    if HasBoth(fields) {
      OptionalIsSubsequence(fields["required"].items, fields["properties"].fields);
      assert fields["required" := Items(fields["required"].items)] == fields;
    }
  }

  // ---- what is lost ----

  /** Every key is kept but `pattern`, each with its value made lenient, but for what is required. */
  lemma KeysAreKept(fields: map<string, Node>)
    ensures MakeLenient(Object(fields)).fields.Keys == fields.Keys - {"pattern"}
    ensures forall f :: f in fields && f != "pattern" && f != "required" ==>
      MakeLenient(Object(fields)).fields[f] == MakeLenient(fields[f])
  {
  }

  /** Of a schema's properties exactly one called `pattern` is lost. */
  lemma PropertyIsLostIffPattern(fields: map<string, Node>, name: string)
    requires "properties" in fields && fields["properties"].Object? && name in fields["properties"].fields
    ensures var lenient := MakeLenient(Object(fields)).fields;
      && "properties" in lenient && lenient["properties"].Object?
      && (name !in lenient["properties"].fields <==> name == "pattern")
  {
    KeysAreKept(fields);
    KeysAreKept(fields["properties"].fields);
  }

  lemma ScalarIsKept(node: Node)
    ensures MakeLenient(node) == Flag(true) <==> node == Flag(true)
    ensures forall s :: MakeLenient(node) == Text(s) <==> node == Text(s)
  {
  }

  lemma ReadOnlyIsKept(properties: map<string, Node>, name: string)
    requires name != "pattern"
    ensures IsReadOnly(MakeLenient(Object(properties)).fields, Text(name)) <==> IsReadOnly(properties, Text(name))
  {
    KeysAreKept(properties);
    if name in properties && properties[name].Object? {
      var property := properties[name].fields;
      KeysAreKept(property);
      if "readOnly" in property {
        ScalarIsKept(property["readOnly"]);
      }
      PropertyIsKept(properties, name);
    }
  }

  /** Also one called `required`, as its schema is no list. */
  lemma PropertyIsKept(properties: map<string, Node>, name: string)
    requires name in properties && name != "pattern" && properties[name].Object?
    ensures name in MakeLenient(Object(properties)).fields
    ensures MakeLenient(Object(properties)).fields[name] == MakeLenient(properties[name])
  {
  }

  lemma TextInLenientItems(items: seq<Node>, s: string)
    ensures Text(s) in MakeLenient(Items(items)).items <==> Text(s) in items
  {
    var lenient := MakeLenient(Items(items)).items;
    if Text(s) in items {
      var i :| 0 <= i < |items| && items[i] == Text(s);
      ScalarIsKept(items[i]);
      assert lenient[i] == Text(s);
    }
    if Text(s) in lenient {
      var i :| 0 <= i < |lenient| && lenient[i] == Text(s);
      ScalarIsKept(items[i]);
    }
  }

  /** A name stays required exactly if its property is not read-only; one called `pattern` stays so
      anyway, though its property is lost. */
  lemma StaysRequiredIff(fields: map<string, Node>, name: string)
    requires HasBoth(fields)
    ensures var lenient := MakeLenient(Object(fields)).fields;
      && "required" in lenient && lenient["required"].Items?
      && (Text(name) in lenient["required"].items <==>
            Text(name) in fields["required"].items
            && (name == "pattern" || !IsReadOnly(fields["properties"].fields, Text(name))))
  {
    var schema := map f | f in fields && f != "pattern" :: MakeLenient(fields[f]);
    var properties := fields["properties"].fields;
    assert HasBoth(schema) && MakeLenient(Object(fields)).fields == WithOptional(schema);
    OptionalIsSubsequence(schema["required"].items, schema["properties"].fields);
    TextInLenientItems(fields["required"].items, name);
    if name == "pattern" {
      KeysAreKept(properties);
    } else {
      ReadOnlyIsKept(properties, name);
    }
  }

  lemma RefsOfItems(items: seq<Node>, some: seq<Node>)
    requires forall x :: x in some ==> x in items
    ensures GetRefs(Items(some)) <= GetRefs(Items(items))
  {
    forall name | name in GetRefs(Items(some)) ensures name in GetRefs(Items(items)) {
      var i :| 0 <= i < |some| && name in GetRefs(some[i]);
      assert some[i] in items;
      var k :| 0 <= k < |items| && items[k] == some[i];
    }
  }

  lemma WithOptionalRefs(schema: map<string, Node>)
    ensures GetRefs(Object(WithOptional(schema))) <= GetRefs(Object(schema))
  {
    var lenient := WithOptional(schema);
    if lenient != schema {
      OptionalIsSubsequence(schema["required"].items, schema["properties"].fields);
      RefsOfItems(schema["required"].items, lenient["required"].items);
      forall name | name in GetRefs(Object(lenient)) ensures name in GetRefs(Object(schema)) {
        if name !in OwnRef(lenient) {
          var f :| f in lenient && name in GetRefs(lenient[f]);
          assert name in GetRefs(schema[f]);
        }
      }
    }
  }

  /** Making a node lenient gives it no new reference. */
  lemma {:induction false} LenientRefs(node: Node)
    ensures GetRefs(MakeLenient(node)) <= GetRefs(node)
  {
    match node
    case Items(items) =>
      var lenient := MakeLenient(node).items;
      forall name | name in GetRefs(Items(lenient)) ensures name in GetRefs(node) {
        var i :| 0 <= i < |lenient| && name in GetRefs(lenient[i]);
        LenientRefs(items[i]);
      }
    case Object(fields) =>
      var schema := map f | f in fields && f != "pattern" :: MakeLenient(fields[f]);
      WithOptionalRefs(schema);
      forall name | name in GetRefs(Object(schema)) ensures name in GetRefs(node) {
        if name !in OwnRef(schema) {
          var f :| f in schema && name in GetRefs(schema[f]);
          LenientRefs(fields[f]);
          assert name in GetRefs(fields[f]);
        }
      }
    case _ =>
  }

  // ---- reachability ----

  type Schemas = map<string, Node>

  function RefsOf(schemas: Schemas, name: string): set<string> {
    if name in schemas then GetRefs(schemas[name]) else {}
  }

  /** Schemas that each refer to the next, from one of those named. */
  predicate IsPath(schemas: Schemas, names: set<string>, path: seq<string>) {
    && path != [] && path[0] in names
    && forall i :: 0 <= i < |path| - 1 ==> path[i + 1] in RefsOf(schemas, path[i])
  }

  ghost predicate IsReachable(schemas: Schemas, names: set<string>, name: string) {
    exists path :: IsPath(schemas, names, path) && path[|path| - 1] == name
  }

  lemma NamedIsReachable(schemas: Schemas, names: set<string>, name: string)
    requires name in names
    ensures IsReachable(schemas, names, name)
  {
    assert IsPath(schemas, names, [name]);
  }

  lemma ReferredIsReachable(schemas: Schemas, names: set<string>, name: string, ref: string)
    requires IsReachable(schemas, names, name) && ref in RefsOf(schemas, name)
    ensures IsReachable(schemas, names, ref)
  {
    var path :| IsPath(schemas, names, path) && path[|path| - 1] == name;
    assert IsPath(schemas, names, path + [ref]);
    assert (path + [ref])[|path + [ref]| - 1] == ref;
  }

  lemma {:induction false} PathsStayInside(schemas: Schemas, names: set<string>, kept: set<string>, path: seq<string>)
    requires names <= kept && (forall name :: name in kept ==> RefsOf(schemas, name) <= kept)
    requires IsPath(schemas, names, path)
    ensures path[|path| - 1] in kept
    decreases |path|
  {
    if |path| > 1 {
      PathsStayInside(schemas, names, kept, path[..|path| - 1]);
      assert path[|path| - 1] in RefsOf(schemas, path[|path| - 2]);
    }
  }

  /** The schemas named and every one they refer to, however deep: those reachable, and no
      others. It fails exactly if one of those is not in the spec. */
  method GetReferredSchemas(schemas: Schemas, names: set<string>) returns (r: Result<set<string>>)
    ensures r.Ok? ==> forall name :: name in r.value <==> IsReachable(schemas, names, name)
    ensures r.Ok? <==> forall name :: IsReachable(schemas, names, name) ==> name in schemas
    ensures r.Ok? ==> names <= r.value <= schemas.Keys && forall name :: name in r.value ==> GetRefs(schemas[name]) <= r.value
    ensures r.Err? ==> r.error == NotFound
  {
    var kept: set<string> := {};
    var pending := names;
    forall name | name in names ensures IsReachable(schemas, names, name) {
      NamedIsReachable(schemas, names, name);
    }
    while pending != {}
      invariant kept <= schemas.Keys && names <= kept + pending
      invariant forall name :: name in kept ==> GetRefs(schemas[name]) <= kept + pending
      invariant forall name :: name in kept || name in pending ==> IsReachable(schemas, names, name)
      decreases schemas.Keys - kept, pending
    {
      var name :| name in pending;
      pending := pending - {name};
      if name in kept {
        continue;
      }
      if name !in schemas {
        return Err(NotFound);
      }
      kept := kept + {name};
      forall ref | ref in GetRefs(schemas[name]) ensures IsReachable(schemas, names, ref) {
        ReferredIsReachable(schemas, names, name, ref);
      }
      pending := pending + GetRefs(schemas[name]);
    }
    forall name | IsReachable(schemas, names, name) ensures name in kept {
      var path :| IsPath(schemas, names, path) && path[|path| - 1] == name;
      PathsStayInside(schemas, names, kept, path);
    }
    return Ok(kept);
  }

  /** The spec's schemas pruned to those named and what they refer to, and made lenient: every
      reference left in it resolves in it. */
  method PruneSpec(schemas: Schemas, names: set<string>) returns (r: Result<Schemas>)
    ensures r.Ok? <==> forall name :: IsReachable(schemas, names, name) ==> name in schemas
    ensures r.Ok? ==> forall name :: name in r.value <==> IsReachable(schemas, names, name)
    ensures r.Ok? ==> forall name :: name in r.value ==>
      && name in schemas && r.value[name] == MakeLenient(schemas[name])
      && IsLenient(r.value[name]) && GetRefs(r.value[name]) <= r.value.Keys
  {
    var kept := GetReferredSchemas(schemas, names);
    if kept.Err? {
      return Err(kept.error);
    }
    var pruned := map name | name in kept.value :: MakeLenient(schemas[name]);
    forall name | name in pruned ensures IsLenient(pruned[name]) && GetRefs(pruned[name]) <= pruned.Keys {
      MadeLenient(schemas[name]);
      LenientRefs(schemas[name]);
    }
    return Ok(pruned);
  }
}
