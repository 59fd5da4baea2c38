/** What the storage layer promises, over nothing but a sequence of documents. */
module DocumentSpec {
  import opened Wrappers
  import opened Sequences
  import opened Values
  import opened Dialect
  import opened SqlOrdering
  import opened ListTables
  import opened Updates

  datatype Returning = Before | After

  /** Whether a read at the given time finds the document. */
  ghost predicate Hit(schema: Schema, f: Filter, now: Value, doc: Doc) {
    Unexpired(schema, doc, now) && Matches(schema, f, doc)
  }

  ghost function Hits(schema: Schema, f: Filter, now: Value): Doc -> bool {
    (doc: Doc) => Hit(schema, f, now, doc)
  }

  ghost function Misses(schema: Schema, f: Filter, now: Value): Doc -> bool {
    (doc: Doc) => !Hit(schema, f, now, doc)
  }

  ghost function SpecFind(schema: Schema, docs: seq<Doc>, f: Filter, keys: seq<SortKey>,
                          skip: nat, limit: Option<nat>, now: Value): (r: seq<Doc>) {
    Page(Sort(Kept(docs, Hits(schema, f, now)), DocOrder(keys)), skip, limit)
  }

  /** The positions of the documents a filter finds, in order. */
  ghost function HitIndices(schema: Schema, docs: seq<Doc>, f: Filter, now: Value): (r: seq<nat>)
    ensures Within(r, |docs|)
    ensures forall k :: 0 <= k < |r| ==> Hit(schema, f, now, docs[r[k]])
    ensures forall i :: 0 <= i < |docs| && Hit(schema, f, now, docs[i]) ==> i in r
    ensures forall i, j :: 0 <= i < j < |r| ==> r[i] < r[j]
  {
    if docs == [] then []
    else
      var n := |docs| - 1;
      var init := HitIndices(schema, docs[..n], f, now);
      if Hit(schema, f, now, docs[n]) then init + [n] else init
  }

  predicate Within(indices: seq<nat>, n: nat) {
    forall k :: 0 <= k < |indices| ==> indices[k] < n
  }

  // ---- keys ----

  /** Whether two documents share the values of a unique group; a null shares nothing. */
  predicate ShareGroup(schema: Schema, group: seq<string>, a: map<string, Value>, b: map<string, Value>) {
    forall f :: f in group ==>
      f in a && f in b && a[f] != Null
      && Fold(a[f], |group| == 1 && f in schema.ignoresCase) == Fold(b[f], |group| == 1 && f in schema.ignoresCase)
  }

  predicate Clash(schema: Schema, a: map<string, Value>, b: map<string, Value>) {
    || (schema.key in a && schema.key in b && a[schema.key] == b[schema.key])
    || (exists group :: group in schema.unique && ShareGroup(schema, group, a, b))
  }

  /** Whether a list field's elements are of its kind, as the schema's types have them. */
  ghost predicate Typed(schema: Schema, f: string, elements: seq<Element>) {
    schema.IsList(f) && forall e :: e in elements ==> FitsKind(schema.fields[f], e)
  }

  ghost predicate TypedDoc(schema: Schema, doc: Doc) {
    Shaped(schema, doc) && forall f :: f in doc.lists ==> Typed(schema, f, doc.lists[f])
  }

  ghost predicate TypedChanges(schema: Schema, ch: Changes) {
    && (forall f :: f in ch.values ==> schema.IsColumn(f))
    && (forall f :: f in ch.replacements ==> Typed(schema, f, ch.replacements[f]))
    && (forall a :: a in ch.additions ==> IsScalarList(schema, a.0) && a.1 != Null)
    && (forall a :: a in ch.removals ==> IsScalarList(schema, a.0))
  }

  ghost predicate HoldsDuplicates(schema: Schema, lists: map<string, seq<Element>>) {
    exists f :: f in lists && IsScalarList(schema, f) && !Distinct(lists[f])
  }

  // ---- writes ----

  ghost function SpecInsert(schema: Schema, docs: seq<Doc>, doc: Doc): Result<seq<Doc>> {
    if doc.Cell(schema.key) == Null then Err(StorageError)
    else if exists d :: d in docs && Clash(schema, d.cells, doc.cells) then Err(DuplicateKey)
    else if HoldsDuplicates(schema, doc.lists) then Err(DuplicateKey)
    else Ok(docs + [doc])
  }

  ghost function SpecInsertMany(schema: Schema, docs: seq<Doc>, records: seq<Doc>): Result<seq<Doc>> {
    if records == [] then Ok(docs)
    else
      var init := SpecInsertMany(schema, docs, records[..|records| - 1]);
      if init.Err? then init else SpecInsert(schema, init.value, records[|records| - 1])
  }

  predicate MovesKey(schema: Schema, doc: Doc, ch: Changes) {
    schema.key in ch.values && ch.values[schema.key] != Assign(doc.Cell(schema.key))
  }

  ghost function SpecUpdateAt(schema: Schema, docs: seq<Doc>, i: nat, ch: Changes): Result<seq<Doc>>
    requires i < |docs|
  {
    var updated := ApplyChanges(docs[i], ch);
    if MovesKey(schema, docs[i], ch) then Err(QueryError)
    else if exists j :: 0 <= j < |docs| && j != i && Clash(schema, docs[j].cells, updated.cells) then Err(DuplicateKey)
    else if HoldsDuplicates(schema, ch.replacements) then Err(DuplicateKey)
    else Ok(docs[i := updated])
  }

  /** Updates the first document the filter finds, or inserts the upserted one if it finds none.
      An image of after the update is read as any record is, so it is lost if expired. */
  ghost function SpecUpdateOne(schema: Schema, docs: seq<Doc>, f: Filter, ch: Changes, upserted: Option<Result<Doc>>,
                               returning: Returning, now: Value): (r: (seq<Doc>, Result<Option<Doc>>))
  {
    var hits := HitIndices(schema, docs, f, now);
    if hits != [] then
      var i := hits[0];
      var after := SpecUpdateAt(schema, docs, i, ch);
      if after.Err? then (docs, Err(after.error))
      else if returning.Before? then (after.value, Ok(Some(docs[i])))
      else if Unexpired(schema, after.value[i], now) then (after.value, Ok(Some(after.value[i])))
      else (docs, Err(RecordLost))
    else if upserted.None? then (docs, Ok(None))
    else if upserted.value.Err? then (docs, Err(upserted.value.error))
    else
      var after := SpecInsert(schema, docs, upserted.value.value);
      if after.Err? then (docs, Err(after.error))
      else if returning.Before? then (after.value, Ok(None))
      else if Unexpired(schema, upserted.value.value, now) then (after.value, Ok(Some(upserted.value.value)))
      else (docs, Err(RecordLost))
  }

  ghost function SpecUpdateEach(schema: Schema, docs: seq<Doc>, indices: seq<nat>, ch: Changes): (r: Result<seq<Doc>>)
    requires Within(indices, |docs|)
    ensures r.Ok? ==> |r.value| == |docs|
  {
    if indices == [] then Ok(docs)
    else
      var init := SpecUpdateEach(schema, docs, indices[..|indices| - 1], ch);
      if init.Err? then init else SpecUpdateAt(schema, init.value, indices[|indices| - 1], ch)
  }

  /** How many of the documents at the positions differ. */
  function CountChanged(before: seq<Doc>, after: seq<Doc>, indices: seq<nat>): (n: nat)
    requires |before| == |after| && Within(indices, |before|)
  {
    if indices == [] then 0
    else
      var last := indices[|indices| - 1];
      CountChanged(before, after, indices[..|indices| - 1]) + if before[last] != after[last] then 1 else 0
  }

  ghost function SpecDeleteOne(schema: Schema, docs: seq<Doc>, f: Filter, now: Value): (r: (seq<Doc>, Option<Doc>)) {
    var hits := HitIndices(schema, docs, f, now);
    if hits == [] then (docs, None)
    else (docs[..hits[0]] + docs[hits[0] + 1..], Some(docs[hits[0]]))
  }

  // ---- facts about the promises ----

  lemma OneMoreDoc(docs: seq<Doc>, n: nat, indices: seq<nat>)
    requires n < |docs| && Within(indices, n)
    ensures DocsAt(docs, indices) == DocsAt(docs[..n], indices)
    ensures DocsAt(docs, indices + [n]) == DocsAt(docs[..n], indices) + [docs[n]]
  {
  }

  lemma {:induction false} HitIndicesMatchHits(schema: Schema, docs: seq<Doc>, f: Filter, now: Value)
    ensures Kept(docs, Hits(schema, f, now)) == DocsAt(docs, HitIndices(schema, docs, f, now))
  {
    if docs != [] {
      var n := |docs| - 1;
      HitIndicesMatchHits(schema, docs[..n], f, now);
      assert docs == docs[..n] + [docs[n]];
      KeptAppend(docs[..n], [docs[n]], Hits(schema, f, now));
      OneMoreDoc(docs, n, HitIndices(schema, docs[..n], f, now));
    }
  }

  function DocsAt(docs: seq<Doc>, indices: seq<nat>): (r: seq<Doc>)
    requires Within(indices, |docs|)
    ensures |r| == |indices|
    ensures forall k :: 0 <= k < |r| ==> r[k] == docs[indices[k]]
  {
    seq(|indices|, k requires 0 <= k < |indices| => docs[indices[k]])
  }

  /** The documents of find called page after page, on documents that do not change. */
  ghost function FindPages(schema: Schema, docs: seq<Doc>, f: Filter, keys: seq<SortKey>,
                           skip: nat, sizes: seq<nat>, now: Value): seq<Doc>
    decreases sizes
  {
    if sizes == [] then []
    else SpecFind(schema, docs, f, keys, skip, Some(sizes[0]), now)
         + FindPages(schema, docs, f, keys, skip + sizes[0], sizes[1..], now)
  }

  lemma {:induction false} FindPagesArePages(schema: Schema, docs: seq<Doc>, f: Filter, keys: seq<SortKey>,
                                             skip: nat, sizes: seq<nat>, now: Value)
    ensures FindPages(schema, docs, f, keys, skip, sizes, now)
            == Pages(Sort(Kept(docs, Hits(schema, f, now)), DocOrder(keys)), skip, sizes)
    decreases sizes
  {
    if sizes != [] {
      FindPagesArePages(schema, docs, f, keys, skip + sizes[0], sizes[1..], now);
    }
  }

  /** Pages of any sizes make up the unpaged result: no document twice, and none left out. */
  lemma PagesMakeUpResult(schema: Schema, docs: seq<Doc>, f: Filter, keys: seq<SortKey>, sizes: seq<nat>, now: Value)
    ensures FindPages(schema, docs, f, keys, 0, sizes, now)
            == Page(SpecFind(schema, docs, f, keys, 0, None, now), 0, Some(Sum(sizes)))
  {
    FindPagesArePages(schema, docs, f, keys, 0, sizes, now);
    PagesConcatenate(Sort(Kept(docs, Hits(schema, f, now)), DocOrder(keys)), 0, sizes);
  }

  /** Whether the sweep deletes a document: it has a time of expiry that has come. */
  predicate Swept(schema: Schema, doc: Doc, now: Value) {
    && schema.expires.Some?
    && var cell := doc.Cell(schema.expires.value);
       cell != Null && SameType(cell, now) && !Below(now, cell)
  }

  ghost function Fresh(schema: Schema, now: Value): Doc -> bool {
    (doc: Doc) => !Swept(schema, doc, now)
  }

  /** Deleting the expired changes no read, then or later. */
  lemma SweepIsInvisible(schema: Schema, docs: seq<Doc>, swept: Value, f: Filter, keys: seq<SortKey>,
                         skip: nat, limit: Option<nat>, now: Value)
    requires swept == now || Below(swept, now)
    ensures SpecFind(schema, Kept(docs, Fresh(schema, swept)), f, keys, skip, limit, now)
            == SpecFind(schema, docs, f, keys, skip, limit, now)
  {
    forall doc | Hit(schema, f, now, doc) ensures !Swept(schema, doc, swept) {
      if schema.expires.Some? && doc.Cell(schema.expires.value) != Null && swept != now {
        BelowTransitive(swept, now, doc.Cell(schema.expires.value));
      }
    }
    KeptKept(docs, Fresh(schema, swept), Hits(schema, f, now), Hits(schema, f, now));
  }
}
