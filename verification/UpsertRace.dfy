/** Upserts of one key by several processes at once: a lookup, an insert if it found nothing,
    and an update of the other's record if the insert lost the race. */
module UpsertRace {
  import opened Wrappers
  import opened Sequences
  import opened Values
  import opened Dialect
  import opened Updates
  import opened Upserts
  import opened DocumentSpec
  import opened SqlReads
  import opened SqlWrites
  import opened SqlTransactions
  import opened StorePromises

  /** What one process upserts: the record it would create, and the changes to one there is. */
  datatype Call = Call(record: Doc, changes: Changes)

  datatype Step = Starting | Missed | Refused | Done | Failed(error: Error)

  /** The stored documents, where each call is, and the calls that took effect, in order. */
  datatype State = State(docs: seq<Doc>, steps: seq<Step>, log: seq<nat>)

  datatype Race = Race(schema: Schema, key: Value, now: Value, calls: seq<Call>) {
    /** Every call upserts the key: it creates that key's record, and moves it to no other. */
    ghost predicate Valid() {
      && schema.Valid() && key != Null
      && (forall call :: call in calls ==>
            && Shaped(schema, call.record) && call.record.Cell(schema.key) == key
            && (schema.key in call.changes.values ==> call.changes.values[schema.key] == Assign(key)))
    }

    ghost function Found(docs: seq<Doc>): seq<nat> { HitIndices(schema, docs, KeyFilter(schema, key), now) }

    ghost function UpdateFound(s: State, p: nat): State
      requires |s.steps| == |calls| && p < |calls| && Found(s.docs) != []
    {
      match SpecUpdateAt(schema, s.docs, Found(s.docs)[0], calls[p].changes)
      case Ok(after) => State(after, s.steps[p := Done], s.log + [p])
      case Err(e) => s.(steps := s.steps[p := Failed(e)])
    }

    ghost function Next(s: State, p: nat): (r: State)
      requires |s.steps| == |calls| && p < |calls|
      ensures |r.steps| == |calls|
    {
      match s.steps[p]
      case Starting => if Found(s.docs) == [] then s.(steps := s.steps[p := Missed]) else UpdateFound(s, p)
      case Missed =>
        (match SpecInsert(schema, s.docs, calls[p].record)
         case Ok(after) => State(after, s.steps[p := Done], s.log + [p])
         case Err(_) => s.(steps := s.steps[p := Refused]))
      case Refused =>
        if Found(s.docs) == [] then s.(steps := s.steps[p := Failed(DuplicateKey)]) else UpdateFound(s, p)
      case _ => s
    }

    function Initial(docs: seq<Doc>): (s: State)
      ensures |s.steps| == |calls|
    {
      State(docs, seq(|calls|, _ => Starting), [])
    }

    predicate IsSchedule(schedule: seq<nat>) {
      forall k :: 0 <= k < |schedule| ==> schedule[k] < |calls|
    }

    ghost function Run(docs: seq<Doc>, schedule: seq<nat>): (s: State)
      requires IsSchedule(schedule)
      ensures |s.steps| == |calls|
    {
      if schedule == [] then Initial(docs)
      else Next(Run(docs, schedule[..|schedule| - 1]), schedule[|schedule| - 1])
    }

    /** The documents after one whole call, with no other in between. */
    ghost function Alone(docs: seq<Doc>, p: nat): seq<Doc>
      requires p < |calls|
    {
      SpecUpdateOne(schema, docs, KeyFilter(schema, key), calls[p].changes, Some(Ok(calls[p].record)), Before, now).0
    }

    ghost function Serial(docs: seq<Doc>, order: seq<nat>): seq<Doc>
      requires IsSchedule(order)
    {
      if order == [] then docs else Alone(Serial(docs, order[..|order| - 1]), order[|order| - 1])
    }
  }

  predicate HasKey(race: Race, doc: Doc) { doc.Cell(race.schema.key) == race.key }

  lemma FoundAreOfKey(race: Race, docs: seq<Doc>)
    requires race.Valid()
    ensures forall i :: i in race.Found(docs) ==> i < |docs| && HasKey(race, docs[i])
    ensures race.Found(docs) != [] ==> race.Found(docs)[0] in race.Found(docs)
  {
    forall i | i in race.Found(docs) ensures i < |docs| && HasKey(race, docs[i]) {
      KeyFilterMatches(race.schema, race.key, docs[i]);
    }
  }

  /** An insert that the database takes proves that there was nothing to find. */
  lemma InsertedWasMissing(race: Race, docs: seq<Doc>, p: nat)
    requires race.Valid() && p < |race.calls| && SpecInsert(race.schema, docs, race.calls[p].record).Ok?
    requires forall doc :: doc in docs ==> Shaped(race.schema, doc)
    ensures race.Found(docs) == []
  {
    FoundAreOfKey(race, docs);
    if race.Found(docs) != [] {
      var doc, record := docs[race.Found(docs)[0]], race.calls[p].record;
      assert doc in docs && record in {record} && race.calls[p] in race.calls;
      assert race.schema.key in doc.cells && race.schema.key in record.cells;
      assert Clash(race.schema, doc.cells, record.cells);
    }
  }

  ghost predicate Inv(race: Race, docs: seq<Doc>, s: State) {
    && |s.steps| == |race.calls| && race.IsSchedule(s.log)
    && NoClash(race.schema, s.docs) && (forall doc :: doc in s.docs ==> Shaped(race.schema, doc))
    && s.docs == race.Serial(docs, s.log)
    && Distinct(s.log) && (forall p :: 0 <= p < |s.steps| ==> (s.steps[p] == Done <==> p in s.log))
  }

  lemma UpdatedStaysShaped(race: Race, docs: seq<Doc>, i: nat, ch: Changes)
    requires i < |docs| && SpecUpdateAt(race.schema, docs, i, ch).Ok?
    requires forall doc :: doc in docs ==> Shaped(race.schema, doc)
    ensures forall doc :: doc in SpecUpdateAt(race.schema, docs, i, ch).value ==> Shaped(race.schema, doc)
  {
    assert docs[i] in docs && Shaped(race.schema, ApplyChanges(docs[i], ch));
  }

  lemma LogGrows(race: Race, docs: seq<Doc>, s: State, p: nat, after: seq<Doc>)
    requires Inv(race, docs, s) && p < |race.calls| && s.steps[p] != Done && after == race.Alone(s.docs, p)
    requires NoClash(race.schema, after) && (forall doc :: doc in after ==> Shaped(race.schema, doc))
    ensures Inv(race, docs, State(after, s.steps[p := Done], s.log + [p]))
  {
    assert (s.log + [p])[..|s.log|] == s.log;
  }

  lemma UpdateKeepsInv(race: Race, docs: seq<Doc>, s: State, p: nat)
    requires race.Valid() && Inv(race, docs, s) && p < |race.calls| && s.steps[p] in {Starting, Refused}
    requires race.Found(s.docs) != []
    ensures Inv(race, docs, race.UpdateFound(s, p))
  {
    var i, ch := race.Found(s.docs)[0], race.calls[p].changes;
    if SpecUpdateAt(race.schema, s.docs, i, ch).Ok? {
      UpdateKeepsUnique(race.schema, s.docs, i, ch);
      UpdatedStaysShaped(race, s.docs, i, ch);
      LogGrows(race, docs, s, p, SpecUpdateAt(race.schema, s.docs, i, ch).value);
    }
  }

  lemma NextKeepsInv(race: Race, docs: seq<Doc>, s: State, p: nat)
    requires race.Valid() && Inv(race, docs, s) && p < |race.calls|
    ensures Inv(race, docs, race.Next(s, p))
  {
    if s.steps[p] in {Starting, Refused} && race.Found(s.docs) != [] {
      UpdateKeepsInv(race, docs, s, p);
    } else if s.steps[p] == Missed && SpecInsert(race.schema, s.docs, race.calls[p].record).Ok? {
      assert race.calls[p] in race.calls;
      InsertedWasMissing(race, s.docs, p);
      InsertKeepsUnique(race.schema, s.docs, race.calls[p].record);
      LogGrows(race, docs, s, p, s.docs + [race.calls[p].record]);
    }
  }

  /** Upserts are linearizable: however their steps interleave, the documents are those of the
      calls that took effect run whole, one after another, each of them once. */
  lemma {:induction false} UpsertsAreLinearizable(race: Race, docs: seq<Doc>, schedule: seq<nat>)
    requires race.Valid() && race.IsSchedule(schedule)
    requires NoClash(race.schema, docs) && (forall doc :: doc in docs ==> Shaped(race.schema, doc))
    ensures Inv(race, docs, race.Run(docs, schedule))
  {
    if schedule != [] {
      var earlier := schedule[..|schedule| - 1];
      UpsertsAreLinearizable(race, docs, earlier);
      NextKeepsInv(race, docs, race.Run(docs, earlier), schedule[|schedule| - 1]);
    }
  }

  // ---- the record of the key ----

  /** What the calls, one after another, make of the key's record: the first creates it if there
      is none, and each of the others applies its changes, never what it sets on insert. */
  function Made(race: Race, record: Option<Doc>, order: seq<nat>): Option<Doc>
    requires race.IsSchedule(order)
  {
    if order == [] then record
    else
      var call := race.calls[order[|order| - 1]];
      match Made(race, record, order[..|order| - 1])
      case None => Some(call.record)
      case Some(doc) => Some(ApplyChanges(doc, call.changes))
  }

  /** The document of the key, if there is one. */
  ghost predicate IsRecord(race: Race, docs: seq<Doc>, record: Option<Doc>) {
    if record.Some? then record.value in docs && HasKey(race, record.value)
    else forall doc :: doc in docs ==> !HasKey(race, doc)
  }

  lemma OneOfKey(race: Race, docs: seq<Doc>, i: nat, j: nat)
    requires NoClash(race.schema, docs) && (forall doc :: doc in docs ==> Shaped(race.schema, doc))
    requires race.Valid() && i < |docs| && j < |docs| && HasKey(race, docs[i]) && HasKey(race, docs[j])
    ensures i == j
  {
    assert docs[i] in docs && docs[j] in docs;
    assert Clash(race.schema, docs[i].cells, docs[j].cells);
  }

  lemma MadeOneMore(race: Race, record: Option<Doc>, order: seq<nat>, p: nat)
    requires race.IsSchedule(order) && p < |race.calls|
    ensures Made(race, record, order + [p]) == Some(match Made(race, record, order)
      case None => race.calls[p].record
      case Some(doc) => ApplyChanges(doc, race.calls[p].changes))
  {
    assert (order + [p])[..|order|] == order;
  }

  lemma UpdateMakesRecord(race: Race, docs: seq<Doc>, record: Option<Doc>, p: nat)
    requires race.Valid() && p < |race.calls| && race.Found(docs) != [] && IsRecord(race, docs, record)
    requires NoClash(race.schema, docs) && (forall doc :: doc in docs ==> Shaped(race.schema, doc))
    requires SpecUpdateAt(race.schema, docs, race.Found(docs)[0], race.calls[p].changes).Ok?
    ensures record.Some?
    ensures IsRecord(race, SpecUpdateAt(race.schema, docs, race.Found(docs)[0], race.calls[p].changes).value,
                     Some(ApplyChanges(record.value, race.calls[p].changes)))
  {
    FoundAreOfKey(race, docs);
    var i := race.Found(docs)[0];
    assert docs[i] in docs && race.calls[p] in race.calls;
    var j :| 0 <= j < |docs| && docs[j] == record.value;
    OneOfKey(race, docs, i, j);
    var after := SpecUpdateAt(race.schema, docs, i, race.calls[p].changes).value;
    assert after[i] in after && HasKey(race, after[i]);
  }

  lemma InsertMakesRecord(race: Race, docs: seq<Doc>, record: Option<Doc>, p: nat)
    requires race.Valid() && p < |race.calls| && IsRecord(race, docs, record)
    requires forall doc :: doc in docs ==> Shaped(race.schema, doc)
    requires SpecInsert(race.schema, docs, race.calls[p].record).Ok?
    ensures record == None
    ensures IsRecord(race, SpecInsert(race.schema, docs, race.calls[p].record).value, Some(race.calls[p].record))
  {
    var made := race.calls[p].record;
    assert race.calls[p] in race.calls;
    forall doc | doc in docs ensures !HasKey(race, doc) {
      assert !Clash(race.schema, doc.cells, made.cells);
      assert race.schema.key in doc.cells && race.schema.key in made.cells;
    }
    assert (docs + [made])[|docs|] == made;
  }

  lemma NextMakesRecord(race: Race, docs: seq<Doc>, record: Option<Doc>, s: State, p: nat)
    requires race.Valid() && Inv(race, docs, s) && p < |race.calls| && IsRecord(race, s.docs, Made(race, record, s.log))
    ensures Inv(race, docs, race.Next(s, p))
    ensures IsRecord(race, race.Next(s, p).docs, Made(race, record, race.Next(s, p).log))
  {
    NextKeepsInv(race, docs, s, p);
    MadeOneMore(race, record, s.log, p);
    var made := Made(race, record, s.log);
    if s.steps[p] in {Starting, Refused} && race.Found(s.docs) != [] {
      if SpecUpdateAt(race.schema, s.docs, race.Found(s.docs)[0], race.calls[p].changes).Ok? {
        UpdateMakesRecord(race, s.docs, made, p);
      }
    } else if s.steps[p] == Missed && SpecInsert(race.schema, s.docs, race.calls[p].record).Ok? {
      InsertMakesRecord(race, s.docs, made, p);
    }
  }

  lemma {:induction false} RunMakesRecord(race: Race, docs: seq<Doc>, record: Option<Doc>, schedule: seq<nat>)
    requires race.Valid() && race.IsSchedule(schedule) && IsRecord(race, docs, record)
    requires NoClash(race.schema, docs) && (forall doc :: doc in docs ==> Shaped(race.schema, doc))
    ensures var s := race.Run(docs, schedule);
      Inv(race, docs, s) && IsRecord(race, s.docs, Made(race, record, s.log))
  {
    if schedule != [] {
      var earlier := schedule[..|schedule| - 1];
      RunMakesRecord(race, docs, record, earlier);
      NextMakesRecord(race, docs, record, race.Run(docs, earlier), schedule[|schedule| - 1]);
    }
  }

  /** Steps a call may still take. */
  function Left(step: Step): nat {
    match step
    case Starting => 3
    case Missed => 2
    case Refused => 1
    case _ => 0
  }

  function Turns(schedule: seq<nat>, p: nat): nat {
    if schedule == [] then 0
    else Turns(schedule[..|schedule| - 1], p) + if schedule[|schedule| - 1] == p then 1 else 0
  }

  /** A turn changes no other call's step, and leaves its own fewer to take. */
  lemma TurnLowersLeft(race: Race, s: State, p: nat, q: nat)
    requires |s.steps| == |race.calls| && p < |race.calls| && q < |race.calls|
    ensures q != p ==> race.Next(s, p).steps[q] == s.steps[q]
    ensures var left := Left(race.Next(s, p).steps[p]); left == 0 || left < Left(s.steps[p])
  {
    match s.steps[p]
    case Starting =>
    case Missed =>
    case Refused =>
    case _ =>
  }

  lemma {:induction false} ThreeTurnsEndCall(race: Race, docs: seq<Doc>, schedule: seq<nat>, p: nat)
    requires race.IsSchedule(schedule) && p < |race.calls|
    ensures var left := Left(race.Run(docs, schedule).steps[p]); left == 0 || left + Turns(schedule, p) <= 3
  {
    if schedule != [] {
      var earlier, last := schedule[..|schedule| - 1], schedule[|schedule| - 1];
      ThreeTurnsEndCall(race, docs, earlier, p);
      TurnLowersLeft(race, race.Run(docs, earlier), last, p);
    }
  }

  /** Once each call had three turns, every one has taken effect or failed. Those that took effect
      did in some order, each once: one record of the key is there at most, which the first of them
      made if none was there, and each of the others changed. A call that lost the race never sets
      what it sets on insert. */
  lemma RacingUpsertsMakeOneRecord(race: Race, docs: seq<Doc>, record: Option<Doc>, schedule: seq<nat>)
    requires race.Valid() && race.IsSchedule(schedule)
    requires NoClash(race.schema, docs) && (forall doc :: doc in docs ==> Shaped(race.schema, doc))
    requires IsRecord(race, docs, record)
    requires forall p :: 0 <= p < |race.calls| ==> Turns(schedule, p) >= 3
    ensures var s := race.Run(docs, schedule);
      && race.IsSchedule(s.log) && Distinct(s.log)
      && (forall p :: 0 <= p < |race.calls| ==> p in s.log || s.steps[p].Failed?)
      && IsRecord(race, s.docs, Made(race, record, s.log))
      && (forall i, j :: 0 <= i < |s.docs| && 0 <= j < |s.docs| && HasKey(race, s.docs[i]) && HasKey(race, s.docs[j]) ==> i == j)
  {
    var s := race.Run(docs, schedule);
    RunMakesRecord(race, docs, record, schedule);
    forall p | 0 <= p < |race.calls| ensures p in s.log || s.steps[p].Failed? {
      ThreeTurnsEndCall(race, docs, schedule, p);
    }
    forall i, j | 0 <= i < |s.docs| && 0 <= j < |s.docs| && HasKey(race, s.docs[i]) && HasKey(race, s.docs[j])
      ensures i == j
    {
      OneOfKey(race, s.docs, i, j);
    }
  }

  // ---- when no call fails ----

  /** Nothing but the key can refuse these calls, and no time runs out on what they write. */
  ghost predicate KeyIsAll(race: Race) {
    && race.schema.unique == [] && race.schema.expires.None?
    && forall call :: call in race.calls ==>
         !HoldsDuplicates(race.schema, call.record.lists) && !HoldsDuplicates(race.schema, call.changes.replacements)
  }

  lemma FoundIfThere(race: Race, docs: seq<Doc>)
    requires race.Valid() && KeyIsAll(race)
    ensures race.Found(docs) != [] <==> exists doc :: doc in docs && HasKey(race, doc)
  {
    FoundAreOfKey(race, docs);
    if doc :| doc in docs && HasKey(race, doc) {
      var i :| 0 <= i < |docs| && docs[i] == doc;
      KeyFilterMatches(race.schema, race.key, doc);
      assert i in race.Found(docs);
    }
  }

  /** A record there is takes a call's changes, in its own place and under its own key. */
  lemma UpdateOfKeySucceeds(race: Race, docs: seq<Doc>, p: nat)
    requires race.Valid() && KeyIsAll(race) && p < |race.calls| && race.Found(docs) != []
    requires NoClash(race.schema, docs) && (forall doc :: doc in docs ==> Shaped(race.schema, doc))
    ensures var i := race.Found(docs)[0];
      && HasKey(race, docs[i]) && HasKey(race, ApplyChanges(docs[i], race.calls[p].changes))
      && SpecUpdateAt(race.schema, docs, i, race.calls[p].changes)
         == Ok(docs[i := ApplyChanges(docs[i], race.calls[p].changes)])
  {
    FoundAreOfKey(race, docs);
    assert race.calls[p] in race.calls;
    var i, ch := race.Found(docs)[0], race.calls[p].changes;
    var updated := ApplyChanges(docs[i], ch);
    assert docs[i] in docs;
    assert updated.Cell(race.schema.key) == race.key;
    forall j | 0 <= j < |docs| && HasKey(race, docs[j]) ensures j == i {
      OneOfKey(race, docs, i, j);
    }
  }

  lemma InsertOfKeySucceeds(race: Race, docs: seq<Doc>, p: nat)
    requires race.Valid() && KeyIsAll(race) && p < |race.calls|
    requires (forall doc :: doc in docs ==> Shaped(race.schema, doc)) && IsRecord(race, docs, None)
    ensures SpecInsert(race.schema, docs, race.calls[p].record) == Ok(docs + [race.calls[p].record])
  {
    assert race.calls[p] in race.calls;
  }

  ghost predicate NoneFailed(race: Race, s: State) {
    && |s.steps| == |race.calls|
    && (forall p :: 0 <= p < |s.steps| ==> !s.steps[p].Failed?)
    && (Refused in s.steps ==> race.Found(s.docs) != [])
  }

  lemma StillFound(race: Race, docs: seq<Doc>, p: nat)
    requires race.Valid() && KeyIsAll(race) && p < |race.calls| && race.Found(docs) != []
    requires NoClash(race.schema, docs) && (forall doc :: doc in docs ==> Shaped(race.schema, doc))
    ensures var after := SpecUpdateAt(race.schema, docs, race.Found(docs)[0], race.calls[p].changes);
      after.Ok? && race.Found(after.value) != []
  {
    UpdateOfKeySucceeds(race, docs, p);
    var i := race.Found(docs)[0];
    var after := SpecUpdateAt(race.schema, docs, i, race.calls[p].changes).value;
    assert after[i] in after;
    FoundIfThere(race, after);
  }

  lemma UpdateFailsNone(race: Race, docs: seq<Doc>, s: State, p: nat)
    requires race.Valid() && KeyIsAll(race) && Inv(race, docs, s) && p < |race.calls| && NoneFailed(race, s)
    requires race.Found(s.docs) != []
    ensures NoneFailed(race, race.UpdateFound(s, p))
  {
    UpdateOfKeySucceeds(race, s.docs, p);
    StillFound(race, s.docs, p);
  }

  lemma NextFailsNone(race: Race, docs: seq<Doc>, s: State, p: nat)
    requires race.Valid() && KeyIsAll(race) && Inv(race, docs, s) && p < |race.calls| && NoneFailed(race, s)
    ensures NoneFailed(race, race.Next(s, p))
  {
    FoundIfThere(race, s.docs);
    if s.steps[p] in {Starting, Refused} && race.Found(s.docs) != [] {
      UpdateFailsNone(race, docs, s, p);
    } else if s.steps[p] == Missed && race.Found(s.docs) == [] {
      InsertOfKeySucceeds(race, s.docs, p);
    } else if s.steps[p] == Missed {
      RefusedWhereFound(race, docs, s, p);
    }
  }

  lemma RefusedWhereFound(race: Race, docs: seq<Doc>, s: State, p: nat)
    requires race.Valid() && Inv(race, docs, s) && p < |race.calls| && NoneFailed(race, s)
    requires s.steps[p] == Missed && race.Found(s.docs) != []
    ensures NoneFailed(race, race.Next(s, p))
  {
    if SpecInsert(race.schema, s.docs, race.calls[p].record).Ok? {
      InsertedWasMissing(race, s.docs, p);
    }
  }

  /** Where the key alone can refuse a call, none fails: each of them takes effect. */
  lemma {:induction false} NoCallFails(race: Race, docs: seq<Doc>, schedule: seq<nat>)
    requires race.Valid() && KeyIsAll(race) && race.IsSchedule(schedule)
    requires NoClash(race.schema, docs) && (forall doc :: doc in docs ==> Shaped(race.schema, doc))
    ensures NoneFailed(race, race.Run(docs, schedule))
  {
    if schedule != [] {
      var earlier := schedule[..|schedule| - 1];
      NoCallFails(race, docs, earlier);
      UpsertsAreLinearizable(race, docs, earlier);
      NextFailsNone(race, docs, race.Run(docs, earlier), schedule[|schedule| - 1]);
    }
  }

  // ---- the calls that upserts by key make ----

  /** The call of an upsert filtered on the key alone, as the store makes it. */
  function CallOf(schema: Schema, key: Value, u: Update, newId: Value): (r: Result<Call>) {
    var record := UpsertedRecord(schema, KeyFilter(schema, key), u, newId);
    var changes := ChangesOf(schema, u);
    if record.Err? then Err(record.error)
    else if changes.Err? then Err(changes.error)
    else Ok(Call(record.value, changes.value))
  }

  /** What the key check lets pass makes calls of this race: they create the key's record, and
      move it to no other key, unless they set the key on insert to another. */
  lemma UpsertsByKeyRace(schema: Schema, key: Value, now: Value, us: seq<Update>, newIds: seq<Value>, calls: seq<Call>)
    requires schema.Valid() && key != Null && |us| == |newIds| == |calls|
    requires forall i :: 0 <= i < |us| ==>
      && CheckKeyKept(schema, KeyFilter(schema, key), us[i]).None? && CallOf(schema, key, us[i], newIds[i]) == Ok(calls[i])
      && LastWritten(us[i], SetOnInsert, schema.key) in {None, Some(ToValue(key))}
    ensures Race(schema, key, now, calls).Valid()
  {
    forall call | call in calls
      ensures Shaped(schema, call.record) && call.record.Cell(schema.key) == key
      ensures schema.key in call.changes.values ==> call.changes.values[schema.key] == Assign(key)
    {
      var i :| 0 <= i < |calls| && calls[i] == call;
      OneCallByKey(schema, key, us[i], newIds[i]);
    }
  }

  lemma OneCallByKey(schema: Schema, key: Value, u: Update, newId: Value)
    requires schema.Valid() && key != Null && CheckKeyKept(schema, KeyFilter(schema, key), u).None?
    requires CallOf(schema, key, u, newId).Ok? && LastWritten(u, SetOnInsert, schema.key) in {None, Some(ToValue(key))}
    ensures var call := CallOf(schema, key, u, newId).value;
      && Shaped(schema, call.record) && call.record.Cell(schema.key) == key
      && (schema.key in call.changes.values ==> call.changes.values[schema.key] == Assign(key))
  {
    var f := KeyFilter(schema, key);
    UpsertIsUnderNamedKey(schema, f, u, newId, key);
    RecordIsTyped(schema, UpsertValues(f, u), newId);
    forall c | c in u && c.field == schema.key && c.op != SetOnInsert ensures c.op == SetTo && c.written == ToValue(key) {
      assert KeepsKey(schema, f, c);
    }
    KeyIsAssigned(schema, u, key);
  }
}
