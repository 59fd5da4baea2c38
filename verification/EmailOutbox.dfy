/** The notices' emails: processes claim them by compare-and-swap on the attempts, send them,
    and write back the results; one that stops leaves its claims to be taken over. */
module EmailOutbox {
  import opened Wrappers
  import opened Sequences

  datatype Status = NotApplicable | Pending | Sending | Sent | Failed

  datatype Notice = Notice(status: Status, attempts: nat, isExpired: bool)

  type Notices = map<nat, Notice>

  // ---- the store's two writes ----

  /** A notice as a process read it before it tries to claim its email. */
  datatype Read = Read(id: nat, attempts: nat, status: Status)

  /** Whether `update_one` on the id and the attempts finds the notice. */
  predicate CanClaim(notices: Notices, r: Read) {
    r.id in notices && notices[r.id].attempts == r.attempts && !notices[r.id].isExpired
  }

  function Claimed(notices: Notices, r: Read): Notices {
    if CanClaim(notices, r) then notices[r.id := Notice(Sending, r.attempts + 1, false)] else notices
  }

  /** `update_many` on the ids, which finds no expired notice. */
  function WithStatus(notices: Notices, ids: set<nat>, status: Status): Notices {
    map id | id in notices ::
      if id in ids && !notices[id].isExpired then notices[id].(status := status) else notices[id]
  }

  /** Reads of different notices, as a query finds each notice once. */
  predicate AreOfDifferent(found: seq<Read>) {
    forall i, j :: 0 <= i < j < |found| ==> found[i].id != found[j].id
  }

  /** Those found whose attempts are still as read. */
  function Claimable(notices: Notices, found: seq<Read>): seq<Read> { Kept(found, (r: Read) => CanClaim(notices, r)) }

  /** Each notice claimed is being sent, with one more attempt; every other is as it was. */
  ghost predicate AreClaimed(before: Notices, claimed: seq<Read>, after: Notices) {
    && after.Keys == before.Keys
    && (forall r :: r in claimed ==> r.id in before && after[r.id] == Notice(Sending, before[r.id].attempts + 1, false))
    && (forall id :: id in after && (forall r :: r in claimed ==> r.id != id) ==> after[id] == before[id])
  }

  lemma ClaimOneMore(before: Notices, found: seq<Read>, i: nat, notices: Notices)
    requires AreOfDifferent(found) && i < |found| && AreClaimed(before, Claimable(before, found[..i]), notices)
    ensures CanClaim(notices, found[i]) == CanClaim(before, found[i])
    ensures Claimable(before, found[..i + 1])
            == Claimable(before, found[..i]) + if CanClaim(notices, found[i]) then [found[i]] else []
    ensures AreClaimed(before, Claimable(before, found[..i + 1]), Claimed(notices, found[i]))
  {
    var r, claimed := found[i], Claimable(before, found[..i]);
    forall q | q in claimed ensures q.id != r.id {
      assert q in found[..i];
    }
    assert found[..i + 1] == found[..i] + [r];
    KeptAppend(found[..i], [r], (r: Read) => CanClaim(before, r));
    assert r.id in notices ==> notices[r.id] == before[r.id];
    OneMoreClaimed(before, claimed, notices, r);
  }

  lemma OneMoreClaimed(before: Notices, claimed: seq<Read>, notices: Notices, r: Read)
    requires AreClaimed(before, claimed, notices) && forall q :: q in claimed ==> q.id != r.id
    ensures AreClaimed(before, claimed + if CanClaim(notices, r) then [r] else [], Claimed(notices, r))
  {
    var all, after := claimed + (if CanClaim(notices, r) then [r] else []), Claimed(notices, r);
    assert r.id in notices ==> notices[r.id] == before[r.id];
    forall id | id in after && (forall q :: q in all ==> q.id != id) ensures after[id] == before[id] {
      assert forall q :: q in claimed ==> q in all;
      assert CanClaim(notices, r) ==> r in all;
    }
  }

  datatype EmailResult = EmailResult(id: nat, isSuccess: bool, canRetry: bool)

  function OutcomeOf(r: EmailResult): Status {
    if r.isSuccess then Sent else if r.canRetry then Pending else Failed
  }

  function IdsOf(results: seq<EmailResult>, outcome: Status): set<nat> {
    set r | r in results && OutcomeOf(r) == outcome :: r.id
  }

  // ---- one process, alone ----

  const OUTCOMES := {Sent, Failed, Pending}

  /** The outcome of the last of these writes that names a notice. */
  function LastOutcome(id: nat, results: seq<EmailResult>, writes: seq<Status>): (r: Option<Status>)
    ensures r.Some? ==> r.value in writes && id in IdsOf(results, r.value)
    ensures r.None? <==> forall outcome :: outcome in writes ==> id !in IdsOf(results, outcome)
  {
    if writes == [] then None
    else
      var last := writes[|writes| - 1];
      if id in IdsOf(results, last) then Some(last) else LastOutcome(id, results, writes[..|writes| - 1])
  }

  function AfterWrites(n: Notice, id: nat, results: seq<EmailResult>, writes: seq<Status>): Notice {
    var outcome := LastOutcome(id, results, writes);
    if n.isExpired || outcome.None? then n else n.(status := outcome.value)
  }

  class Outbox {
    var notices: Notices

    /** Claims the emails found, leaving any that another process claims first. */
    method ClaimPendingEmails(found: seq<Read>) returns (claimed: seq<Read>)
      requires AreOfDifferent(found)
      modifies this
      ensures claimed == Claimable(old(notices), found)
      ensures AreClaimed(old(notices), claimed, notices)
    {
      claimed := [];
      ghost var before := notices;
      for i := 0 to |found|
        invariant claimed == Claimable(before, found[..i]) && AreClaimed(before, claimed, notices)
      {
        ClaimOneMore(before, found, i, notices);
        if CanClaim(notices, found[i]) {
          claimed := claimed + [found[i]];
        }
        notices := Claimed(notices, found[i]);
      }
      assert found[..|found|] == found;
    }

    /** Writes the results back, each outcome to the unexpired notices named with it; the writes are
        started at once, and those that succeed take effect in any order. */
    method ProcessResults(results: seq<EmailResult>, writes: seq<Status>)
      requires Distinct(writes) && forall outcome :: outcome in writes ==> outcome in OUTCOMES
      modifies this
      ensures notices.Keys == old(notices).Keys
      ensures forall id :: id in notices ==> notices[id] == AfterWrites(old(notices)[id], id, results, writes)
    {
      for i := 0 to |writes|
        invariant notices.Keys == old(notices).Keys
        invariant forall id :: id in notices ==> notices[id] == AfterWrites(old(notices)[id], id, results, writes[..i])
      {
        assert writes[..i + 1][..i] == writes[..i];
        notices := WithStatus(notices, IdsOf(results, writes[i]), writes[i]);
      }
      assert writes[..|writes|] == writes;
    }
  }

  /** All three writes, in whichever order they take effect. */
  predicate IsOfAll(writes: seq<Status>) {
    Distinct(writes) && forall outcome :: outcome in writes <==> outcome in OUTCOMES
  }

  predicate Agree(results: seq<EmailResult>, id: nat) {
    forall q, r :: q in results && r in results && q.id == r.id == id ==> OutcomeOf(q) == OutcomeOf(r)
  }

  /** Whichever order the writes take effect in, a notice takes an outcome of one of its results,
      so that of all of them if they agree; with no result it stays. */
  lemma OneResultDecides(n: Notice, id: nat, results: seq<EmailResult>, writes: seq<Status>)
    requires !n.isExpired && IsOfAll(writes)
    ensures (forall r :: r in results ==> r.id != id) ==> AfterWrites(n, id, results, writes) == n
    ensures (exists r :: r in results && r.id == id) ==>
      exists r :: r in results && r.id == id && AfterWrites(n, id, results, writes) == n.(status := OutcomeOf(r))
    ensures Agree(results, id) ==> forall r :: r in results && r.id == id ==>
      AfterWrites(n, id, results, writes) == n.(status := OutcomeOf(r))
  {
    var last := LastOutcome(id, results, writes);
    if r :| r in results && r.id == id {
      assert OutcomeOf(r) in writes && id in IdsOf(results, OutcomeOf(r));
      var q :| q in results && OutcomeOf(q) == last.value && q.id == id;
    }
  }

  /** The order decides nothing exactly if a notice's results agree. */
  lemma OrderIsFreeIffAgreed(n: Notice, id: nat, results: seq<EmailResult>)
    requires !n.isExpired
    ensures Agree(results, id) <==> forall a, b :: IsOfAll(a) && IsOfAll(b) ==>
      AfterWrites(n, id, results, a) == AfterWrites(n, id, results, b)
  {
    if Agree(results, id) {
      forall a, b | IsOfAll(a) && IsOfAll(b) ensures AfterWrites(n, id, results, a) == AfterWrites(n, id, results, b) {
        OneResultDecides(n, id, results, a);
        OneResultDecides(n, id, results, b);
      }
    } else {
      var q, r :| q in results && r in results && q.id == r.id == id && OutcomeOf(q) != OutcomeOf(r);
      var third :| third in OUTCOMES - {OutcomeOf(q), OutcomeOf(r)};
      var a, b := [third, OutcomeOf(q), OutcomeOf(r)], [third, OutcomeOf(r), OutcomeOf(q)];
      assert id in IdsOf(results, OutcomeOf(q)) && id in IdsOf(results, OutcomeOf(r));
      assert IsOfAll(a) && IsOfAll(b);
      assert AfterWrites(n, id, results, a).status != AfterWrites(n, id, results, b).status;
    }
  }

  // ---- processes at once ----

  datatype Holder = Holder(process: nat, id: nat, attempts: nat)

  datatype Success = Success(process: nat, read: Read)

  /** The stored notices; what each process has read and not yet tried to claim; the claims held
      by processes that still send; every claim that succeeded; and the ids ever used. */
  datatype State = State(
    notices: Notices,
    found: map<nat, set<Read>>,
    held: set<Holder>,
    log: seq<Success>,
    used: set<nat>)
  {
    function Found(p: nat): set<Read> { if p in found then found[p] else {} }
  }

  datatype Event =
    | Insert(id: nat, isPending: bool)
    | Delete(id: nat)
    | Expire(id: nat)
    | Find(process: nat, ids: set<nat>)
    | TryClaim(process: nat, read: Read)
    | Report(holder: Holder, outcome: Status)     // a result of an email held
    | Abandon(holder: Holder)                      // a claim dropped without a result
    | Stop(process: nat)

  predicate IsAbandoned(s: State, id: nat) { forall h :: h in s.held ==> h.id != id }

  function ReadOf(notices: Notices, id: nat): Read
    requires id in notices
  {
    Read(id, notices[id].attempts, notices[id].status)
  }

  /** What an event needs. That the claim it finds stale was abandoned is what its lifespan is
      for; the store checks no more than the status and the time. */
  predicate CanHappen(s: State, e: Event, maxAttempts: int, isHolderHeeded: bool) {
    match e
    case Insert(id, _) => id !in s.used
    case Delete(id) => id in s.notices
    case Expire(id) => id in s.notices
    case Find(_, ids) => forall id :: id in ids ==>
        && id in s.notices && !s.notices[id].isExpired
        && s.notices[id].status in {Pending, Sending}
        && (s.notices[id].status == Sending && isHolderHeeded ==> IsAbandoned(s, id))
    case TryClaim(p, r) => r in s.Found(p)
    case Report(h, outcome) =>
      h in s.held && outcome in {Sent, Failed, Pending} && (outcome == Pending ==> h.attempts < maxAttempts)
    case Abandon(h) => h in s.held
    case Stop(_) => true
  }

  function Next(s: State, e: Event): State {
    match e
    case Insert(id, isPending) =>
      s.(notices := s.notices[id := Notice(if isPending then Pending else NotApplicable, 0, false)], used := s.used + {id})
    case Delete(id) => s.(notices := s.notices - {id})
    case Expire(id) => if id in s.notices then s.(notices := s.notices[id := s.notices[id].(isExpired := true)]) else s
    case Find(p, ids) => s.(found := s.found[p := set id | id in ids && id in s.notices :: ReadOf(s.notices, id)])
    case TryClaim(p, r) =>
      var rest := s.(found := s.found[p := s.Found(p) - {r}]);
      if CanClaim(s.notices, r)
      then rest.(notices := Claimed(s.notices, r), held := s.held + {Holder(p, r.id, r.attempts + 1)}, log := s.log + [Success(p, r)])
      else rest
    case Report(h, outcome) => s.(notices := WithStatus(s.notices, {h.id}, outcome), held := s.held - {h})
    case Abandon(h) => s.(held := s.held - {h})
    case Stop(p) => s.(found := s.found[p := {}], held := set h | h in s.held && h.process != p)
  }

  const EMPTY := State(map[], map[], {}, [], {})

  predicate Happens(events: seq<Event>, maxAttempts: int, isHolderHeeded: bool) {
    events == [] ||
    (var init := events[..|events| - 1];
     Happens(init, maxAttempts, isHolderHeeded)
     && CanHappen(Run(init), events[|events| - 1], maxAttempts, isHolderHeeded))
  }

  function Run(events: seq<Event>): State {
    if events == [] then EMPTY else Next(Run(events[..|events| - 1]), events[|events| - 1])
  }

  // ---- what every run keeps ----

  function Most(maxAttempts: int): int { if maxAttempts > 1 then maxAttempts else 1 }

  /** How many claims of a notice succeeded, and how many of those took over a stale one. */
  function Claims(log: seq<Success>, id: nat): nat {
    if log == [] then 0 else Claims(log[..|log| - 1], id) + if log[|log| - 1].read.id == id then 1 else 0
  }

  function Takeovers(log: seq<Success>, id: nat): nat {
    if log == [] then 0
    else Takeovers(log[..|log| - 1], id)
         + if log[|log| - 1].read.id == id && log[|log| - 1].read.status == Sending then 1 else 0
  }

  /** A claim held is the notice's latest, and nothing has come of it yet. */
  predicate HoldersAreLatest(s: State) {
    forall h :: h in s.held && h.id in s.notices ==>
      s.notices[h.id].status == Sending && s.notices[h.id].attempts == h.attempts
  }

  predicate HoldersAreAlone(s: State) {
    forall g, h :: g in s.held && h in s.held && g.id == h.id && g.id in s.notices ==> g == h
  }

  /** What a process has read is still so, unless the attempts have moved on. */
  predicate ReadsHold(s: State) {
    forall p, r :: p in s.found && r in s.found[p] && r.id in s.notices ==>
      && r.attempts <= s.notices[r.id].attempts
      && r.status in {Pending, Sending}
      && (r.attempts == s.notices[r.id].attempts ==>
            s.notices[r.id].status == r.status && IsAbandoned(s, r.id))
  }

  predicate AttemptsAreClaims(s: State) {
    forall id :: id in s.notices ==> s.notices[id].attempts == Claims(s.log, id)
  }

  predicate LogIsDistinct(s: State) {
    forall i, j :: 0 <= i < j < |s.log| && s.log[i].read.id == s.log[j].read.id ==>
      s.log[i].read.attempts < s.log[j].read.attempts
  }

  predicate LogIsPast(s: State) {
    && (forall i :: 0 <= i < |s.log| && s.log[i].read.id in s.notices ==>
          s.log[i].read.attempts < s.notices[s.log[i].read.id].attempts)
    && (forall i :: 0 <= i < |s.log| ==> s.log[i].read.id in s.used)
    && (forall p, r :: p in s.found && r in s.found[p] ==> r.id in s.used)
    && (forall h :: h in s.held ==> h.id in s.used)
    && (forall id :: id in s.notices ==> id in s.used)
  }

  predicate AttemptsAreFew(s: State, maxAttempts: int) {
    forall id :: id in s.notices ==>
      && (s.notices[id].status == Pending ==> s.notices[id].attempts < Most(maxAttempts))
      && s.notices[id].attempts <= Most(maxAttempts) + Takeovers(s.log, id)
  }

  /** What needs no assumption on takeovers. */
  predicate IsCounted(s: State) { AttemptsAreClaims(s) && LogIsDistinct(s) && LogIsPast(s) }

  predicate Inv(s: State, maxAttempts: int) {
    HoldersAreLatest(s) && HoldersAreAlone(s) && ReadsHold(s) && IsCounted(s) && AttemptsAreFew(s, maxAttempts)
  }

  lemma {:induction false} NoClaimsOfUnused(log: seq<Success>, id: nat)
    requires forall i :: 0 <= i < |log| ==> log[i].read.id != id
    ensures Claims(log, id) == 0 && Takeovers(log, id) == 0
  {
    if log != [] {
      NoClaimsOfUnused(log[..|log| - 1], id);
    }
  }

  lemma OneMoreClaim(log: seq<Success>, last: Success, id: nat)
    ensures Claims(log + [last], id) == Claims(log, id) + if last.read.id == id then 1 else 0
    ensures Takeovers(log + [last], id)
            == Takeovers(log, id) + if last.read.id == id && last.read.status == Sending then 1 else 0
  {
    assert (log + [last])[..|log|] == log;
  }

  lemma ClaimKeepsLog(s: State, p: nat, r: Read)
    requires LogIsDistinct(s) && LogIsPast(s) && r in s.Found(p) && CanClaim(s.notices, r)
    ensures LogIsDistinct(Next(s, TryClaim(p, r))) && LogIsPast(Next(s, TryClaim(p, r)))
  {
  }

  lemma ClaimKeepsAttempts(s: State, p: nat, r: Read)
    requires AttemptsAreClaims(s) && CanClaim(s.notices, r)
    ensures AttemptsAreClaims(Next(s, TryClaim(p, r)))
  {
    var after := Next(s, TryClaim(p, r));
    forall id | id in after.notices ensures after.notices[id].attempts == Claims(after.log, id) {
      OneMoreClaim(s.log, Success(p, r), id);
    }
  }

  lemma NextKeepsCounted(s: State, e: Event, maxAttempts: int)
    requires IsCounted(s) && CanHappen(s, e, maxAttempts, false)
    ensures IsCounted(Next(s, e))
  {
    match e
    case Insert(id, _) => NoClaimsOfUnused(s.log, id);
    case TryClaim(p, r) =>
      if CanClaim(s.notices, r) {
        ClaimKeepsLog(s, p, r);
        ClaimKeepsAttempts(s, p, r);
      }
    case _ =>
  }

  lemma {:induction false} RunKeepsCounted(events: seq<Event>, maxAttempts: int, isHolderHeeded: bool)
    requires Happens(events, maxAttempts, isHolderHeeded)
    ensures IsCounted(Run(events))
  {
    if events != [] {
      RunKeepsCounted(events[..|events| - 1], maxAttempts, isHolderHeeded);
      NextKeepsCounted(Run(events[..|events| - 1]), events[|events| - 1], maxAttempts);
    }
  }

  /** Over every run, also one in which claims are taken over from processes still at work: no two
      claims ever succeed for the same attempt at the same email, and the attempts are the claims. */
  lemma AttemptsAreClaimedOnce(events: seq<Event>, maxAttempts: int, isHolderHeeded: bool)
    requires Happens(events, maxAttempts, isHolderHeeded)
    ensures var s := Run(events);
      && (forall i, j :: 0 <= i < j < |s.log| ==>
            (s.log[i].read.id, s.log[i].read.attempts) != (s.log[j].read.id, s.log[j].read.attempts))
      && (forall id :: id in s.notices ==> s.notices[id].attempts == Claims(s.log, id))
  {
    RunKeepsCounted(events, maxAttempts, isHolderHeeded);
  }

  // ---- what needs claims to be taken over only from those who stopped ----

  lemma InsertKeepsInv(s: State, id: nat, isPending: bool, maxAttempts: int)
    requires Inv(s, maxAttempts) && CanHappen(s, Insert(id, isPending), maxAttempts, true)
    ensures Inv(Next(s, Insert(id, isPending)), maxAttempts)
  {
    NoClaimsOfUnused(s.log, id);
    NextKeepsCounted(s, Insert(id, isPending), maxAttempts);
  }

  lemma FindKeepsInv(s: State, p: nat, ids: set<nat>, maxAttempts: int)
    requires Inv(s, maxAttempts) && CanHappen(s, Find(p, ids), maxAttempts, true)
    ensures Inv(Next(s, Find(p, ids)), maxAttempts)
  {
    var after := Next(s, Find(p, ids));
    NextKeepsCounted(s, Find(p, ids), maxAttempts);
    forall id | id in ids && s.notices[id].status == Pending ensures IsAbandoned(s, id) {
    }
    assert ReadsHold(after);
  }

  lemma ClaimKeepsHolders(s: State, p: nat, r: Read)
    requires HoldersAreLatest(s) && HoldersAreAlone(s) && ReadsHold(s) && r in s.Found(p) && CanClaim(s.notices, r)
    ensures IsAbandoned(s, r.id) && s.notices[r.id].status == r.status && r.status in {Pending, Sending}
    ensures HoldersAreLatest(Next(s, TryClaim(p, r))) && HoldersAreAlone(Next(s, TryClaim(p, r)))
  {
    assert p in s.found && r in s.found[p];
    assert IsAbandoned(s, r.id);
  }

  lemma ClaimKeepsReads(s: State, p: nat, r: Read)
    requires ReadsHold(s) && r in s.Found(p) && CanClaim(s.notices, r)
    ensures ReadsHold(Next(s, TryClaim(p, r)))
  {
    var after := Next(s, TryClaim(p, r));
    forall q, x | q in after.found && x in after.found[q] && x.id in after.notices
      ensures x.attempts <= after.notices[x.id].attempts && x.status in {Pending, Sending}
      ensures x.attempts == after.notices[x.id].attempts ==> after.notices[x.id].status == x.status && IsAbandoned(after, x.id)
    {
      assert q in s.found && x in s.found[q];
    }
  }

  lemma ClaimKeepsFew(s: State, p: nat, r: Read, maxAttempts: int)
    requires AttemptsAreFew(s, maxAttempts) && CanClaim(s.notices, r)
    requires s.notices[r.id].status == r.status && r.status in {Pending, Sending}
    ensures AttemptsAreFew(Next(s, TryClaim(p, r)), maxAttempts)
  {
    forall id ensures Takeovers(Next(s, TryClaim(p, r)).log, id)
                      == Takeovers(s.log, id) + if r.id == id && r.status == Sending then 1 else 0
    {
      OneMoreClaim(s.log, Success(p, r), id);
    }
  }

  lemma ClaimKeepsInv(s: State, p: nat, r: Read, maxAttempts: int)
    requires Inv(s, maxAttempts) && CanHappen(s, TryClaim(p, r), maxAttempts, true)
    ensures CanClaim(s.notices, r) ==> s.notices[r.id].status == r.status && r.status in {Pending, Sending}
    ensures Inv(Next(s, TryClaim(p, r)), maxAttempts)
  {
    NextKeepsCounted(s, TryClaim(p, r), maxAttempts);
    if CanClaim(s.notices, r) {
      ClaimKeepsHolders(s, p, r);
      ClaimKeepsReads(s, p, r);
      ClaimKeepsFew(s, p, r, maxAttempts);
    }
  }

  lemma ReportKeepsInv(s: State, h: Holder, outcome: Status, maxAttempts: int)
    requires Inv(s, maxAttempts) && CanHappen(s, Report(h, outcome), maxAttempts, true)
    ensures Inv(Next(s, Report(h, outcome)), maxAttempts)
  {
    var after := Next(s, Report(h, outcome));
    NextKeepsCounted(s, Report(h, outcome), maxAttempts);
    assert forall id :: id in s.notices ==> after.notices[id].attempts == s.notices[id].attempts;
    assert ReadsHold(after);
  }

  lemma NextKeepsInv(s: State, e: Event, maxAttempts: int)
    requires Inv(s, maxAttempts) && CanHappen(s, e, maxAttempts, true)
    ensures Inv(Next(s, e), maxAttempts)
  {
    match e
    case Insert(id, isPending) => InsertKeepsInv(s, id, isPending, maxAttempts);
    case Find(p, ids) => FindKeepsInv(s, p, ids, maxAttempts);
    case TryClaim(p, r) => ClaimKeepsInv(s, p, r, maxAttempts);
    case Report(h, outcome) => ReportKeepsInv(s, h, outcome, maxAttempts);
    case _ =>
  }

  lemma {:induction false} RunKeepsInv(events: seq<Event>, maxAttempts: int)
    requires Happens(events, maxAttempts, true)
    ensures Inv(Run(events), maxAttempts)
  {
    if events != [] {
      RunKeepsInv(events[..|events| - 1], maxAttempts);
      NextKeepsInv(Run(events[..|events| - 1]), events[|events| - 1], maxAttempts);
    }
  }

  /** Over every run a claim that succeeds finds the status it read; what is sent or failed stays
      so; and the attempts, each the one send of one claim, are bounded. */
  lemma OutboxIsSafe(events: seq<Event>, e: Event, maxAttempts: int)
    requires Happens(events, maxAttempts, true) && CanHappen(Run(events), e, maxAttempts, true)
    ensures var s, after := Run(events), Next(Run(events), e);
      && (e.TryClaim? && CanClaim(s.notices, e.read) ==> s.notices[e.read.id].status == e.read.status)
      && (forall id :: id in s.notices && id in after.notices && s.notices[id].status in {Sent, Failed} ==>
            after.notices[id].status == s.notices[id].status)
      && (forall id :: id in after.notices ==>
            after.notices[id].attempts <= Most(maxAttempts) + Takeovers(after.log, id))
  {
    RunKeepsInv(events, maxAttempts);
    NextKeepsInv(Run(events), e, maxAttempts);
    if e.TryClaim? {
      ClaimKeepsInv(Run(events), e.process, e.read, maxAttempts);
    }
  }

  lemma HappensOnce(events: seq<Event>, e: Event, maxAttempts: int, isHolderHeeded: bool)
    requires Happens(events, maxAttempts, isHolderHeeded) && CanHappen(Run(events), e, maxAttempts, isHolderHeeded)
    ensures Happens(events + [e], maxAttempts, isHolderHeeded) && Run(events + [e]) == Next(Run(events), e)
  {
    assert (events + [e])[..|events|] == events;
  }

  const FIRST := Read(0, 0, Pending)
  const SECOND := Read(0, 1, Sending)
  const SLOW := Holder(1, 0, 1)
  const QUICK := Holder(2, 0, 2)

  /** A claim taken over from a process that is still at work. */
  lemma TakenOver() returns (events: seq<Event>)
    ensures Happens(events, 3, false)
    ensures Run(events).notices == map[0 := Notice(Sending, 2, false)] && Run(events).held == {SLOW, QUICK}
  {
    HappensOnce([], Insert(0, true), 3, false);
    events := [] + [Insert(0, true)];
    HappensOnce(events, Find(1, {0}), 3, false);
    events := events + [Find(1, {0})];
    assert Run(events).Found(1) == {FIRST};
    HappensOnce(events, TryClaim(1, FIRST), 3, false);
    events := events + [TryClaim(1, FIRST)];
    assert Run(events).notices == map[0 := Notice(Sending, 1, false)] && Run(events).held == {SLOW};
    HappensOnce(events, Find(2, {0}), 3, false);
    events := events + [Find(2, {0})];
    assert Run(events).Found(2) == {SECOND};
    HappensOnce(events, TryClaim(2, SECOND), 3, false);
    events := events + [TryClaim(2, SECOND)];
  }

  /** A claim must not be taken over from a process that is still at work: its late result would
      turn a sent email back to pending, to be sent again. */
  lemma LateResultUndoesSent()
    ensures exists events: seq<Event>, e: Event {:trigger CanHappen(Run(events), e, 3, false)} ::
      && Happens(events, 3, false) && CanHappen(Run(events), e, 3, false)
      && 0 in Run(events).notices && Run(events).notices[0].status == Sent
      && 0 in Next(Run(events), e).notices && Next(Run(events), e).notices[0].status == Pending
  {
    var events := TakenOver();
    HappensOnce(events, Report(QUICK, Sent), 3, false);
    events := events + [Report(QUICK, Sent)];
    assert CanHappen(Run(events), Report(SLOW, Pending), 3, false);
  }
}
