/** Jobs billed to projects by the before-image of their updates, and the alerts it raises. */
module Billing {
  import opened Wrappers

  datatype Timestamps = Timestamps(started: Option<real>, finished: Option<real>) {
    /** The seconds of an execution that has both started and finished. */
    function ResourceUsage(): Option<real> {
      if started.Some? && finished.Some? then Some(finished.value - started.value) else None
    }
  }

  datatype Job = Job(project: Option<nat>, timestamps: Option<Timestamps>) {
    function Duration(): Option<real> { if timestamps.Some? then timestamps.value.ResourceUsage() else None }
  }

  /** What an update of a job says of its times, which replaces them whole if it says any. */
  type JobUpdate = Option<Timestamps>

  function Usage(payload: JobUpdate): Option<real> {
    if payload.Some? then payload.value.ResourceUsage() else None
  }

  function WithUpdate(job: Job, payload: JobUpdate): Job {
    if payload.Some? then job.(timestamps := payload) else job
  }

  /** What a handler charges for its update: only the first to finish a job charges for it. */
  function ToCharge(old_: Job, payload: JobUpdate): Option<real> {
    if old_.Duration().None? then Usage(payload) else None
  }

  // ---- alerts ----

  datatype Notice = Low | Depleted

  function ChooseNotice(before: real, after: real, threshold: real): Option<Notice> {
    if after <= 0.0 < before then Some(Depleted)
    else if after < threshold < before then Some(Low)
    else None
  }

  // ---- one handler, alone ----

  class JobsService {
    const threshold: real
    var jobs: map<nat, Job>
    var balances: map<nat, real>
    var alerts: seq<(nat, Notice)>

    constructor (threshold: real)
      ensures this.threshold == threshold && jobs == map[] && balances == map[] && alerts == []
    {
      this.threshold := threshold;
      jobs, balances, alerts := map[], map[], [];
    }

    /** Updates a job, and returns it as it was before. */
    method UpdateJob(id: nat, payload: JobUpdate) returns (r: Result<Job>)
      modifies this`jobs
      ensures id !in old(jobs) ==> r == Err(NotFound) && jobs == old(jobs)
      ensures id in old(jobs) ==> r == Ok(old(jobs)[id]) && jobs == old(jobs)[id := WithUpdate(old(jobs)[id], payload)]
    {
      if id !in jobs {
        return Err(NotFound);
      }
      r := Ok(jobs[id]);
      jobs := jobs[id := WithUpdate(jobs[id], payload)];
    }

    /** Charges the job's project, if it has one, and alerts if that crosses a bound. */
    method UpdateQpuUsage(id: nat, usage: real) returns (error: Option<Error>)
      modifies this`balances, this`alerts
      ensures error == if id !in jobs || (jobs[id].project.Some? && jobs[id].project.value !in old(balances))
                       then Some(NotFound) else None
      ensures id !in jobs || jobs[id].project.None? || jobs[id].project.value !in old(balances) ==>
        balances == old(balances) && alerts == old(alerts)
      ensures id in jobs && jobs[id].project.Some? && jobs[id].project.value in old(balances) ==>
        var p := jobs[id].project.value;
        && balances == old(balances)[p := old(balances)[p] - usage]
        && alerts == old(alerts) + Raised(p, ChooseNotice(old(balances)[p], old(balances)[p] - usage, threshold))
    {
      if id !in jobs {
        return Some(NotFound);
      }
      if jobs[id].project.None? {
        return None;
      }
      var p := jobs[id].project.value;
      if p !in balances {
        return Some(NotFound);
      }
      balances := balances[p := balances[p] - usage];
      var notice := ChooseNotice(balances[p] + usage, balances[p], threshold);
      alerts := alerts + Raised(p, notice);
      return None;
    }

    /** The job takes the update, and if that finishes it its project is charged and alerted. */
    method OnJobUpdated(id: nat, payload: JobUpdate) returns (error: Option<Error>)
      modifies this
      ensures id !in old(jobs) ==> error == Some(NotFound) && jobs == old(jobs)
      ensures id in old(jobs) ==> jobs == old(jobs)[id := WithUpdate(old(jobs)[id], payload)]
      ensures id !in old(jobs) || ToCharge(old(jobs)[id], payload).None? || old(jobs)[id].project.None?
              || old(jobs)[id].project.value !in old(balances) ==>
        balances == old(balances) && alerts == old(alerts)
      ensures id in old(jobs) && ToCharge(old(jobs)[id], payload).None? ==> error == None
      ensures id in old(jobs) && ToCharge(old(jobs)[id], payload).Some? && old(jobs)[id].project.Some? ==>
        var p, usage := old(jobs)[id].project.value, ToCharge(old(jobs)[id], payload).value;
        if p !in old(balances) then error == Some(NotFound)
        else
          && error == None && balances == old(balances)[p := old(balances)[p] - usage]
          && alerts == old(alerts) + Raised(p, ChooseNotice(old(balances)[p], old(balances)[p] - usage, threshold))
    {
      var oldJob := UpdateJob(id, payload);
      if oldJob.Err? {
        return Some(oldJob.error);
      }
      var usage := ToCharge(oldJob.value, payload);
      if usage.None? {
        return None;
      }
      error := UpdateQpuUsage(id, usage.value);
    }
  }

  function Raised(project: nat, notice: Option<Notice>): seq<(nat, Notice)> {
    if notice.Some? then [(project, notice.value)] else []
  }

  // ---- handlers at once ----

  datatype Charge = Charge(job: nat, project: Option<nat>, usage: real)

  /** What is stored, the charges handlers have still to make, what was charged, dropped, granted
      and left when a project was deleted, and what the first finished update of each job recorded. */
  datatype State = State(
    jobs: map<nat, Job>,
    balances: map<nat, real>,
    waiting: seq<Charge>,
    charged: seq<Charge>,
    dropped: seq<Charge>,
    granted: seq<(nat, real)>,
    forgone: seq<(nat, real)>,
    alerts: seq<(nat, Notice)>,
    recorded: map<nat, real>)

  datatype Event =
    | Submit(id: nat, billedTo: Option<nat>)
    | Open(project: nat, balance: real)
    | Close(project: nat)
    | Update(id: nat, payload: JobUpdate)    // the first step of a handler
    | Settle(k: nat)                           // the second step of one of those waiting
    | Crash(k: nat)                            // the end of one before its second step
    | Grant(project: nat, seconds: real)

  function Without<T>(xs: seq<T>, k: nat): seq<T>
    requires k < |xs|
  {
    xs[..k] + xs[k + 1..]
  }

  /** That a job's times never lose a finished execution once sent is what exactly one charge
      needs; a store that takes whole timestamps does not see to it. */
  predicate CanHappen(s: State, e: Event, isFinishKept: bool) {
    match e
    case Submit(id, _) => id !in s.jobs
    case Open(p, _) => p !in s.balances
    case Close(p) => p in s.balances
    case Update(id, payload) =>
      id in s.jobs && (isFinishKept && s.jobs[id].Duration().Some? && payload.Some? ==> Usage(payload).Some?)
    case Settle(k) => k < |s.waiting|
    case Crash(k) => k < |s.waiting|
    case Grant(p, _) => p in s.balances
  }

  function Next(s: State, e: Event, threshold: real): State
    requires CanHappen(s, e, false)
  {
    match e
    case Submit(id, project) => s.(jobs := s.jobs[id := Job(project, None)])
    case Open(p, balance) => s.(balances := s.balances[p := balance], granted := s.granted + [(p, balance)])
    case Close(p) => s.(balances := s.balances - {p}, forgone := s.forgone + [(p, s.balances[p])])
    case Update(id, payload) =>
      var job, usage := s.jobs[id], ToCharge(s.jobs[id], payload);
      var updated := s.(jobs := s.jobs[id := WithUpdate(job, payload)]);
      if usage.None? then updated
      else updated.(waiting := s.waiting + [Charge(id, job.project, usage.value)],
                    recorded := if id in s.recorded then s.recorded else s.recorded[id := usage.value])
    case Settle(k) =>
      var c := s.waiting[k];
      var rest := s.(waiting := Without(s.waiting, k));
      if c.project.None? || c.project.value !in s.balances then rest.(dropped := s.dropped + [c])
      else
        var p, before := c.project.value, s.balances[c.project.value];
        rest.(balances := s.balances[p := before - c.usage], charged := s.charged + [c],
              alerts := s.alerts + Raised(p, ChooseNotice(before, before - c.usage, threshold)))
    case Crash(k) => s.(waiting := Without(s.waiting, k), dropped := s.dropped + [s.waiting[k]])
    case Grant(p, seconds) => s.(balances := s.balances[p := s.balances[p] + seconds], granted := s.granted + [(p, seconds)])
  }

  const EMPTY := State(map[], map[], [], [], [], [], [], [], map[])

  /** The states a run goes through, each after an event that can happen. */
  predicate IsRun(states: seq<State>, events: seq<Event>, threshold: real, isFinishKept: bool) {
    |states| == |events| + 1 && forall i :: 0 <= i < |events| ==>
      CanHappen(states[i], events[i], isFinishKept)
      && CanHappen(states[i], events[i], false) && states[i + 1] == Next(states[i], events[i], threshold)
  }

  // ---- conservation ----

  function ChargedTo(charges: seq<Charge>, project: nat): real {
    if charges == [] then 0.0
    else ChargedTo(charges[..|charges| - 1], project)
         + if charges[|charges| - 1].project == Some(project) then charges[|charges| - 1].usage else 0.0
  }

  function GrantedTo(granted: seq<(nat, real)>, project: nat): real {
    if granted == [] then 0.0
    else GrantedTo(granted[..|granted| - 1], project)
         + if granted[|granted| - 1].0 == project then granted[|granted| - 1].1 else 0.0
  }

  function Times(charges: seq<Charge>, job: nat): nat {
    if charges == [] then 0
    else Times(charges[..|charges| - 1], job) + if charges[|charges| - 1].job == job then 1 else 0
  }

  function BalanceOf(s: State, project: nat): real { if project in s.balances then s.balances[project] else 0.0 }

  /** Also of a project deleted and made again. */
  ghost predicate IsConserved(s: State) {
    forall p :: BalanceOf(s, p) == GrantedTo(s.granted, p) - ChargedTo(s.charged, p) - GrantedTo(s.forgone, p)
  }

  lemma OneMoreGrant(granted: seq<(nat, real)>, g: (nat, real), project: nat)
    ensures GrantedTo(granted + [g], project) == GrantedTo(granted, project) + if g.0 == project then g.1 else 0.0
  {
    assert (granted + [g])[..|granted|] == granted;
  }

  lemma OneMoreCharge(charges: seq<Charge>, c: Charge, project: nat, job: nat)
    ensures ChargedTo(charges + [c], project)
            == ChargedTo(charges, project) + if c.project == Some(project) then c.usage else 0.0
    ensures Times(charges + [c], job) == Times(charges, job) + if c.job == job then 1 else 0
  {
    assert (charges + [c])[..|charges|] == charges;
  }

  lemma NextBalances(s: State, e: Event, threshold: real, p: nat)
    requires IsConserved(s) && CanHappen(s, e, false)
    ensures var after := Next(s, e, threshold);
      BalanceOf(after, p) == GrantedTo(after.granted, p) - ChargedTo(after.charged, p) - GrantedTo(after.forgone, p)
  {
    assert BalanceOf(s, p) == GrantedTo(s.granted, p) - ChargedTo(s.charged, p) - GrantedTo(s.forgone, p);
    match e
    case Open(q, balance) => OneMoreGrant(s.granted, (q, balance), p);
    case Close(q) => OneMoreGrant(s.forgone, (q, s.balances[q]), p);
    case Grant(q, seconds) => OneMoreGrant(s.granted, (q, seconds), p);
    case Settle(k) => SettledBalance(s, k, threshold, p);
    case _ =>
  }

  lemma SettledBalance(s: State, k: nat, threshold: real, p: nat)
    requires k < |s.waiting|
    ensures var after := Next(s, Settle(k), threshold);
      && after.granted == s.granted && after.forgone == s.forgone
      && BalanceOf(after, p) - BalanceOf(s, p) == ChargedTo(s.charged, p) - ChargedTo(after.charged, p)
  {
    OneMoreCharge(s.charged, s.waiting[k], p, 0);
  }

  lemma NextConserves(s: State, e: Event, threshold: real)
    requires IsConserved(s) && CanHappen(s, e, false)
    ensures IsConserved(Next(s, e, threshold))
  {
    forall p { NextBalances(s, e, threshold, p); }
  }

  /** However the handlers interleave, and whether or not they end, each project's balance is what
      it was granted less what it was charged, and less what was left if it was deleted before. */
  lemma {:induction false} BalancesAreConserved(states: seq<State>, events: seq<Event>, threshold: real)
    requires IsRun(states, events, threshold, false) && states[0] == EMPTY
    ensures forall i :: 0 <= i < |states| ==> IsConserved(states[i])
    decreases |events|
  {
    if events != [] {
      var n := |events|;
      BalancesAreConserved(states[..n], events[..n - 1], threshold);
      assert states[..n][n - 1] == states[n - 1];
      NextConserves(states[n - 1], events[n - 1], threshold);
    }
  }

  // ---- each job once ----

  predicate IsFinished(s: State, id: nat) { id in s.jobs && s.jobs[id].Duration().Some? }

  function AllTimes(s: State, id: nat): nat { Times(s.waiting, id) + Times(s.charged, id) + Times(s.dropped, id) }

  /** A finished job has exactly one charge, which waits, was made or was dropped. */
  ghost predicate CountsMatch(s: State) { forall id :: AllTimes(s, id) == if IsFinished(s, id) then 1 else 0 }

  /** A charge is of what its job's first finished update recorded, to the job's project. */
  predicate IsOfFirst(s: State, c: Charge) {
    && c.job in s.recorded && c.usage == s.recorded[c.job]
    && c.job in s.jobs && c.project == s.jobs[c.job].project
  }

  ghost predicate ChargesMatch(s: State) {
    && (forall id :: id in s.recorded <==> IsFinished(s, id))
    && (forall c :: c in s.waiting || c in s.charged || c in s.dropped ==> IsOfFirst(s, c))
  }

  ghost predicate IsBilledOnce(s: State) { CountsMatch(s) && ChargesMatch(s) }

  lemma {:induction false} TimesAppend(a: seq<Charge>, b: seq<Charge>, job: nat)
    ensures Times(a + b, job) == Times(a, job) + Times(b, job)
  {
    if b == [] {
      assert a + b == a;
    } else {
      assert a + b == (a + b[..|b| - 1]) + [b[|b| - 1]];
      OneMoreCharge(a + b[..|b| - 1], b[|b| - 1], 0, job);
      TimesAppend(a, b[..|b| - 1], job);
    }
  }

  lemma TimesWithout(xs: seq<Charge>, k: nat, job: nat)
    requires k < |xs|
    ensures Times(Without(xs, k), job) == Times(xs, job) - if xs[k].job == job then 1 else 0
  {
    assert xs == xs[..k] + [xs[k]] + xs[k + 1..];
    TimesAppend(xs[..k] + [xs[k]], xs[k + 1..], job);
    OneMoreCharge(xs[..k], xs[k], 0, job);
    TimesAppend(xs[..k], xs[k + 1..], job);
  }

  /** An update that keeps a finish charges exactly if it is what finishes the job. */
  lemma FinishingCharges(job: Job, payload: JobUpdate)
    requires job.Duration().Some? && payload.Some? ==> Usage(payload).Some?
    ensures ToCharge(job, payload).Some? <==> job.Duration().None? && WithUpdate(job, payload).Duration().Some?
    ensures job.Duration().Some? ==> WithUpdate(job, payload).Duration().Some?
  {
  }

  lemma UpdateCounts(s: State, id: nat, payload: JobUpdate, threshold: real, other: nat)
    requires CountsMatch(s) && CanHappen(s, Update(id, payload), true)
    ensures AllTimes(Next(s, Update(id, payload), threshold), other)
            == AllTimes(s, other) + if other == id && ToCharge(s.jobs[id], payload).Some? then 1 else 0
  {
    var job := s.jobs[id];
    if ToCharge(job, payload).Some? {
      OneMoreCharge(s.waiting, Charge(id, job.project, ToCharge(job, payload).value), 0, other);
    }
  }

  lemma UpdateCountsOnce(s: State, id: nat, payload: JobUpdate, threshold: real)
    requires CountsMatch(s) && CanHappen(s, Update(id, payload), true)
    ensures CountsMatch(Next(s, Update(id, payload), threshold))
  {
    var after := Next(s, Update(id, payload), threshold);
    FinishingCharges(s.jobs[id], payload);
    assert after.jobs == s.jobs[id := WithUpdate(s.jobs[id], payload)];
    forall other ensures AllTimes(after, other) == if IsFinished(after, other) then 1 else 0 {
      UpdateCounts(s, id, payload, threshold, other);
      assert AllTimes(s, other) == if IsFinished(s, other) then 1 else 0;
    }
  }

  lemma UpdateKeepsCharges(s: State, id: nat, payload: JobUpdate, threshold: real)
    requires ChargesMatch(s) && CanHappen(s, Update(id, payload), true)
    ensures ChargesMatch(Next(s, Update(id, payload), threshold))
  {
    var after := Next(s, Update(id, payload), threshold);
    forall c | c in after.waiting || c in after.charged || c in after.dropped ensures IsOfFirst(after, c) {
      if c in s.waiting || c in s.charged || c in s.dropped {
        assert IsOfFirst(s, c);
      }
    }
  }

  lemma SettleCountsOnce(s: State, k: nat, e: Event, threshold: real)
    requires CountsMatch(s) && k < |s.waiting| && e in {Crash(k), Settle(k)}
    ensures CountsMatch(Next(s, e, threshold))
  {
    var after, c := Next(s, e, threshold), s.waiting[k];
    forall id ensures AllTimes(after, id) == if IsFinished(after, id) then 1 else 0 {
      assert AllTimes(s, id) == if IsFinished(s, id) then 1 else 0;
      TimesWithout(s.waiting, k, id);
      OneMoreCharge(s.charged, c, 0, id);
      OneMoreCharge(s.dropped, c, 0, id);
    }
  }

  lemma SettleKeepsCharges(s: State, k: nat, e: Event, threshold: real)
    requires ChargesMatch(s) && k < |s.waiting| && e in {Crash(k), Settle(k)}
    ensures ChargesMatch(Next(s, e, threshold))
  {
    var after := Next(s, e, threshold);
    assert s.waiting[k] in s.waiting;
    forall c | c in after.waiting || c in after.charged || c in after.dropped ensures IsOfFirst(after, c) {
      assert c in s.waiting || c in s.charged || c in s.dropped;
      assert IsOfFirst(s, c);
    }
  }

  lemma SubmitBillsNothing(s: State, e: Event, threshold: real)
    requires IsBilledOnce(s) && CanHappen(s, e, true) && e.Submit?
    ensures IsBilledOnce(Next(s, e, threshold))
  {
    var after := Next(s, e, threshold);
    assert forall id :: IsFinished(after, id) <==> IsFinished(s, id);
    forall id ensures AllTimes(after, id) == if IsFinished(after, id) then 1 else 0 {
      assert AllTimes(s, id) == if IsFinished(s, id) then 1 else 0;
    }
    forall c | c in s.waiting || c in s.charged || c in s.dropped ensures IsOfFirst(after, c) {
      assert IsOfFirst(s, c);
    }
  }

  lemma GrantBillsNothing(s: State, e: Event, threshold: real)
    requires IsBilledOnce(s) && CanHappen(s, e, true) && (e.Open? || e.Close? || e.Grant?)
    ensures IsBilledOnce(Next(s, e, threshold))
  {
    var after := Next(s, e, threshold);
    forall id ensures AllTimes(after, id) == if IsFinished(after, id) then 1 else 0 {
      assert AllTimes(s, id) == if IsFinished(s, id) then 1 else 0;
    }
    forall c | c in s.waiting || c in s.charged || c in s.dropped ensures IsOfFirst(after, c) {
      assert IsOfFirst(s, c);
    }
    assert forall id :: IsFinished(after, id) <==> IsFinished(s, id);
  }

  lemma NextBillsOnce(s: State, e: Event, threshold: real)
    requires IsBilledOnce(s) && CanHappen(s, e, true)
    ensures IsBilledOnce(Next(s, e, threshold))
  {
    match e
    case Update(id, payload) =>
      UpdateCountsOnce(s, id, payload, threshold);
      UpdateKeepsCharges(s, id, payload, threshold);
    case Submit(_, _) => SubmitBillsNothing(s, e, threshold);
    case Settle(k) =>
      SettleCountsOnce(s, k, e, threshold);
      SettleKeepsCharges(s, k, e, threshold);
    case Crash(k) =>
      SettleCountsOnce(s, k, e, threshold);
      SettleKeepsCharges(s, k, e, threshold);
    case _ => GrantBillsNothing(s, e, threshold);
  }

  lemma {:induction false} JobsAreBilledOnce(states: seq<State>, events: seq<Event>, threshold: real)
    requires IsRun(states, events, threshold, true) && states[0] == EMPTY
    ensures forall i :: 0 <= i < |states| ==> IsBilledOnce(states[i])
    decreases |events|
  {
    if events != [] {
      var n := |events|;
      JobsAreBilledOnce(states[..n], events[..n - 1], threshold);
      assert states[..n][n - 1] == states[n - 1];
      NextBillsOnce(states[n - 1], events[n - 1], threshold);
    }
  }

  /** However often its updates repeat, and whichever handlers end, a job is charged at most once,
      only once finished, and by the duration its first finished update recorded, to its project. */
  lemma JobIsChargedAtMostOnce(states: seq<State>, events: seq<Event>, threshold: real, id: nat)
    requires IsRun(states, events, threshold, true) && states[0] == EMPTY
    ensures var s := states[|events|];
      && Times(s.charged, id) <= (if IsFinished(s, id) then 1 else 0)
      && forall c :: c in s.charged && c.job == id ==>
           && id in s.recorded && c.usage == s.recorded[id]
           && id in s.jobs && c.project == s.jobs[id].project && c.project.Some?
  {
    JobsAreBilledOnce(states, events, threshold);
    ChargesNameProjects(states, events, threshold);
    var s := states[|events|];
    assert AllTimes(s, id) == if IsFinished(s, id) then 1 else 0;
    forall c | c in s.charged && c.job == id
      ensures id in s.recorded && c.usage == s.recorded[id]
      ensures id in s.jobs && c.project == s.jobs[id].project && c.project.Some?
    {
      assert IsOfFirst(s, c);
    }
  }

  lemma {:induction false} ChargesNameProjects(states: seq<State>, events: seq<Event>, threshold: real)
    requires IsRun(states, events, threshold, false) && states[0] == EMPTY
    ensures forall c :: c in states[|events|].charged ==> c.project.Some?
    decreases |events|
  {
    if events != [] {
      var n := |events|;
      assert states[..n][n - 1] == states[n - 1];
      ChargesNameProjects(states[..n], events[..n - 1], threshold);
    }
  }

  /** The job's project is open for as long as the job is stored. */
  predicate StaysOpen(states: seq<State>, id: nat) {
    forall i :: 0 <= i < |states| && id in states[i].jobs ==>
      states[i].jobs[id].project.Some? && states[i].jobs[id].project.value in states[i].balances
  }

  /** No handler that is to charge for the job ends before it does. */
  predicate NoneCrashes(states: seq<State>, events: seq<Event>, id: nat)
    requires |states| == |events| + 1
  {
    forall i :: 0 <= i < |events| && events[i].Crash? && events[i].k < |states[i].waiting| ==>
      states[i].waiting[events[i].k].job != id
  }

  lemma NextDropsNone(s: State, e: Event, threshold: real, id: nat)
    requires ChargesMatch(s) && CanHappen(s, e, false) && Times(s.dropped, id) == 0
    requires id in s.jobs ==> s.jobs[id].project.Some? && s.jobs[id].project.value in s.balances
    requires e.Crash? ==> s.waiting[e.k].job != id
    ensures Times(Next(s, e, threshold).dropped, id) == 0
  {
    if e.Crash? || e.Settle? {
      var c := s.waiting[e.k];
      assert c in s.waiting && IsOfFirst(s, c);
      OneMoreCharge(s.dropped, c, 0, id);
    }
  }

  lemma {:induction false} NoneIsDropped(states: seq<State>, events: seq<Event>, threshold: real, id: nat)
    requires IsRun(states, events, threshold, true) && IsRun(states, events, threshold, false) && states[0] == EMPTY
    requires NoneCrashes(states, events, id) && StaysOpen(states, id)
    ensures Times(states[|events|].dropped, id) == 0
    decreases |events|
  {
    if events != [] {
      var n := |events|;
      assert states[..n][n - 1] == states[n - 1];
      NoneIsDropped(states[..n], events[..n - 1], threshold, id);
      JobsAreBilledOnce(states[..n], events[..n - 1], threshold);
      assert IsBilledOnce(states[..n][n - 1]);
      NextDropsNone(states[n - 1], events[n - 1], threshold, id);
    }
  }

  lemma {:induction false} NeverCharged(charges: seq<Charge>, id: nat)
    requires forall c :: c in charges ==> c.job != id
    ensures Times(charges, id) == 0
  {
    if charges != [] {
      assert charges[|charges| - 1] in charges;
      NeverCharged(charges[..|charges| - 1], id);
    }
  }

  /** Once none waits of a job's charges, and none was lost to a crash, the job has been charged
      exactly once if it finished and its project stayed open, and never if it has no project,
      whatever becomes of other jobs. */
  lemma FinishedJobsAreCharged(states: seq<State>, events: seq<Event>, threshold: real, id: nat)
    requires IsRun(states, events, threshold, true) && states[0] == EMPTY && NoneCrashes(states, events, id)
    requires Times(states[|events|].waiting, id) == 0
    ensures var s := states[|events|];
      && (StaysOpen(states, id) ==> Times(s.charged, id) == if IsFinished(s, id) then 1 else 0)
      && (id in s.jobs && s.jobs[id].project.None? ==> Times(s.charged, id) == 0)
  {
    var s := states[|events|];
    JobsAreBilledOnce(states, events, threshold);
    assert AllTimes(s, id) == if IsFinished(s, id) then 1 else 0;
    if StaysOpen(states, id) {
      NoneIsDropped(states, events, threshold, id);
    }
    if id in s.jobs && s.jobs[id].project.None? {
      forall c | c in s.charged ensures c.job != id {
        JobIsChargedAtMostOnce(states, events, threshold, id);
      }
      NeverCharged(s.charged, id);
    }
  }

  // ---- a finish that is lost ----

  /** An update that loses a finished execution makes the next one charge for it again. */
  lemma LosingTheFinishChargesTwice()
    ensures exists states: seq<State>, events: seq<Event> {:trigger IsRun(states, events, 0.0, false)} ::
      IsRun(states, events, 0.0, false) && states[0] == EMPTY && Times(states[|events|].charged, 0) == 2
  {
    var c := Charge(0, Some(0), 1.0);
    var states, events := TwoWait(c);
    states, events := OneMoreEvent(states, events, Settle(0));
    assert states[|events|].waiting == [c] && states[|events|].charged == [c];
    states, events := OneMoreEvent(states, events, Settle(0));
    assert states[|events|].charged == [c] + [c];
    OneMoreCharge([c], c, 0, 0);
    OneMoreCharge([], c, 0, 0);
    assert [] + [c] == [c];
  }

  /** A run after which two handlers are to make the same charge. */
  lemma TwoWait(c: Charge) returns (states: seq<State>, events: seq<Event>)
    requires c == Charge(0, Some(0), 1.0)
    ensures IsRun(states, events, 0.0, false) && states[0] == EMPTY
    ensures states[|events|].waiting == [c, c] && states[|events|].charged == [] && 0 in states[|events|].balances
  {
    var finished, begun := Some(Timestamps(Some(0.0), Some(1.0))), Some(Timestamps(Some(0.0), None));
    states, events := OneWaits(c);
    states, events := OneMoreEvent(states, events, Update(0, begun));
    states, events := OneMoreEvent(states, events, Update(0, finished));
    assert states[|events|].waiting == [c] + [c];
  }

  lemma OneWaits(c: Charge) returns (states: seq<State>, events: seq<Event>)
    requires c == Charge(0, Some(0), 1.0)
    ensures IsRun(states, events, 0.0, false) && states[0] == EMPTY
    ensures var s := states[|events|];
      && s.waiting == [c] && s.charged == [] && 0 in s.balances
      && s.jobs == map[0 := Job(Some(0), Some(Timestamps(Some(0.0), Some(1.0))))]
  {
    states, events := [EMPTY], [];
    states, events := OneMoreEvent(states, events, Open(0, 9.0));
    states, events := OneMoreEvent(states, events, Submit(0, Some(0)));
    states, events := OneMoreEvent(states, events, Update(0, Some(Timestamps(Some(0.0), Some(1.0)))));
  }

  lemma OneMoreEvent(states: seq<State>, events: seq<Event>, e: Event) returns (after: seq<State>, all: seq<Event>)
    requires IsRun(states, events, 0.0, false) && CanHappen(states[|events|], e, false)
    ensures all == events + [e] && IsRun(after, all, 0.0, false) && after[0] == states[0]
    ensures after[|all|] == Next(states[|events|], e, 0.0)
  {
    after, all := states + [Next(states[|events|], e, 0.0)], events + [e];
  }

  // ---- alerts between grants ----

  function AlertsOf(alerts: seq<(nat, Notice)>, project: nat, notice: Notice): nat {
    if alerts == [] then 0
    else AlertsOf(alerts[..|alerts| - 1], project, notice)
         + if alerts[|alerts| - 1] == (project, notice) then 1 else 0
  }

  lemma MoreAlerts(alerts: seq<(nat, Notice)>, project: nat, raised: Option<Notice>, p: nat, notice: Notice)
    ensures AlertsOf(alerts + Raised(project, raised), p, notice)
            == AlertsOf(alerts, p, notice) + if project == p && raised == Some(notice) then 1 else 0
  {
    if raised.Some? {
      assert (alerts + [(project, raised.value)])[..|alerts|] == alerts;
    } else {
      assert alerts + [] == alerts;
    }
  }

  /** Events in which a project is granted nothing, and what it is charged is not negative. */
  predicate OnlyCharges(states: seq<State>, events: seq<Event>, project: nat) {
    |states| == |events| + 1 && forall i :: 0 <= i < |events| ==>
      match events[i]
      case Open(p, _) => p != project
      case Close(p) => p != project
      case Grant(p, _) => p != project
      case Settle(k) => k < |states[i].waiting| && (states[i].waiting[k].project == Some(project) ==> states[i].waiting[k].usage >= 0.0)
      case _ => true
  }

  lemma StepAlerts(s: State, e: Event, threshold: real, p: nat)
    requires CanHappen(s, e, false) && p in s.balances && OnlyCharges([s, Next(s, e, threshold)], [e], p)
    ensures var after := Next(s, e, threshold);
      && p in after.balances && after.balances[p] <= s.balances[p]
      && (var raised := if after.balances[p] == s.balances[p] then None else ChooseNotice(s.balances[p], after.balances[p], threshold);
          && AlertsOf(after.alerts, p, Low) == AlertsOf(s.alerts, p, Low) + (if raised == Some(Low) then 1 else 0)
          && AlertsOf(after.alerts, p, Depleted) == AlertsOf(s.alerts, p, Depleted) + if raised == Some(Depleted) then 1 else 0)
  {
    assert [e][0] == e && [s, Next(s, e, threshold)][0] == s;
    if e.Settle? {
      var c := s.waiting[e.k];
      if c.project.Some? && c.project.value in s.balances {
        var before := s.balances[c.project.value];
        var notice := ChooseNotice(before, before - c.usage, threshold);
        MoreAlerts(s.alerts, c.project.value, notice, p, Low);
        MoreAlerts(s.alerts, c.project.value, notice, p, Depleted);
      }
    }
  }

  /** Between grants, a project raises exactly one alert of depletion if its balance goes from
      above 0 to 0 or below, and else none; and an alert of running low only if the balance goes
      from above the threshold to below it, and then at most one. */
  lemma {:induction false} AlertsBetweenGrants(states: seq<State>, events: seq<Event>, threshold: real, p: nat)
    requires IsRun(states, events, threshold, false) && OnlyCharges(states, events, p) && p in states[0].balances
    ensures var s, after := states[0], states[|events|];
      && p in after.balances && after.balances[p] <= s.balances[p]
      && AlertsOf(after.alerts, p, Depleted)
         == AlertsOf(s.alerts, p, Depleted) + (if after.balances[p] <= 0.0 < s.balances[p] then 1 else 0)
      && AlertsOf(s.alerts, p, Low) <= AlertsOf(after.alerts, p, Low)
         <= AlertsOf(s.alerts, p, Low) + if after.balances[p] < threshold < s.balances[p] then 1 else 0
    decreases |events|
  {
    if events != [] {
      var n := |events|;
      assert states[..n][0] == states[0] && states[..n][n - 1] == states[n - 1];
      AlertsBetweenGrants(states[..n], events[..n - 1], threshold, p);
      StepAlerts(states[n - 1], events[n - 1], threshold, p);
    }
  }

  /** With a threshold that is not negative, a project that is depleted is not told it runs low. */
  lemma NoLowAfterDepleted(states: seq<State>, events: seq<Event>, threshold: real, p: nat)
    requires IsRun(states, events, threshold, false) && OnlyCharges(states, events, p) && p in states[0].balances
    requires states[0].balances[p] <= 0.0
    ensures threshold >= 0.0 ==> AlertsOf(states[|events|].alerts, p, Low) == AlertsOf(states[0].alerts, p, Low)
    ensures AlertsOf(states[|events|].alerts, p, Depleted) == AlertsOf(states[0].alerts, p, Depleted)
  {
    AlertsBetweenGrants(states, events, threshold, p);
  }

  /** It is told so after all exactly if the threshold is negative: a charge may cross it below 0. */
  lemma LowAfterDepletedIffNegative(threshold: real)
    ensures threshold >= 0.0 <==>
      forall before: real, after: real :: after <= before <= 0.0 ==> ChooseNotice(before, after, threshold) != Some(Low)
  {
    if threshold < 0.0 {
      assert ChooseNotice(0.0, threshold - 1.0, threshold) == Some(Low);
    }
  }

  /** A balance that lands on the threshold raises no alert of running low, then or later. */
  lemma LandingOnThresholdIsSilent(states: seq<State>, events: seq<Event>, threshold: real, p: nat, i: nat)
    requires IsRun(states, events, threshold, false) && OnlyCharges(states, events, p) && p in states[0].balances
    requires i < |states| && p in states[i].balances && states[i].balances[p] == threshold
    ensures AlertsOf(states[|events|].alerts, p, Low) == AlertsOf(states[0].alerts, p, Low)
  {
    assert states[..i + 1][0] == states[0] && states[..i + 1][i] == states[i];
    AlertsBetweenGrants(states[..i + 1], events[..i], threshold, p);
    assert states[i..][0] == states[i] && states[i..][|events| - i] == states[|events|];
    AlertsBetweenGrants(states[i..], events[i..], threshold, p);
  }
}
