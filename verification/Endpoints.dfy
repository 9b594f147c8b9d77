/** Endpoint status: the operator's transitions and the automatic disable
    (apps/control-api/src/endpoints/endpoints.service.ts:203-479,
    apps/control-api/src/maintenance/endpoint-auto-disable.service.ts:164-361,
    apps/control-api/src/maintenance/auto-disable-policy.ts:112-119). */
module Endpoints {
  import opened Domain

  /** An endpoint row; `disabledReason` is the breaker's record, and holds since when it was open. */
  datatype Endpoint = Endpoint(
    status: EndpointStatus, enabled: bool, disabledReason: Option<int>, disabledAt: Option<int>)
  datatype BreakerState = Healthy | Degraded | Open | HalfOpen
  datatype Health = Health(state: BreakerState, openedAt: Option<int>, probeAfter: int)
  datatype Options = Options(enabled: bool, afterHours: nat, maxPerRun: nat)
  /** What a sweep remembers of an endpoint between its read and its update. */
  datatype Candidate = Candidate(id: int, openedAt: Option<int>)

  type Table = map<int, Endpoint>
  type HealthTable = map<int, Health>

  /** The rows, the auto-disable audit entries in order, and the candidates a sweep has still to treat. */
  datatype System = System(
    endpoints: Table, health: HealthTable, audits: seq<int>, queue: seq<Candidate>,
    sweepNow: int, sweepOptions: Options)

  // ---- The operator ----

  function Created(mayReceiveSecret: bool, minted: bool, cleanedUp: bool): (e: Endpoint) {
    if !minted then Endpoint(if cleanedUp then Deleted else Paused, false, None, None)
    else if mayReceiveSecret then Endpoint(Active, true, None, None)
    else Endpoint(Paused, false, None, None)
  }

  function EnableRow(t: Table, id: int, hasLiveSecret: bool): (r: Result<Endpoint>) {
    if id !in t then Err(NotFound)
    else if t[id].status == Deleted then Err(Conflict)
    else if !hasLiveSecret then Err(Conflict)
    else Ok(Endpoint(Active, true, None, None))
  }

  function DisableRow(t: Table, id: int): (r: Result<Endpoint>) {
    if id !in t then Err(NotFound)
    else if t[id].status == Deleted then Err(Conflict)
    else Ok(t[id].(status := Paused, enabled := false))
  }

  function RemoveRow(t: Table, id: int): (r: Result<Endpoint>) {
    if id !in t then Err(NotFound)
    else if t[id].status == Deleted then Ok(t[id])
    else Ok(t[id].(status := Deleted, enabled := false))
  }

  function Written(t: Table, id: int, r: Result<Endpoint>): Table {
    if r.Ok? then t[id := r.value] else t
  }

  // ---- The sweep ----

  function OpenLongEnough(openedAt: Option<int>, now: int, afterHours: nat): bool {
    openedAt.Some? && now - openedAt.value >= afterHours * 3_600_000
  }

  predicate Live(t: Table, id: int) { id in t && t[id].status == Active && t[id].enabled }

  predicate IsEligible(t: Table, h: HealthTable, now: int, afterHours: nat, id: int) {
    id in h && h[id].state == Open && OpenLongEnough(h[id].openedAt, now, afterHours) && Live(t, id)
  }

  function Eligible(t: Table, h: HealthTable, now: int, afterHours: nat): (ids: set<int>)
    ensures forall id :: id in ids <==> IsEligible(t, h, now, afterHours, id)
  {
    set id | id in h && IsEligible(t, h, now, afterHours, id)
  }

  function OpenedAt(h: HealthTable, id: int): int {
    if id in h && h[id].openedAt.Some? then h[id].openedAt.value else 0
  }

  function Snapshot(h: HealthTable, id: int): Candidate {
    Candidate(id, if id in h then h[id].openedAt else None)
  }

  function Ids(picked: seq<Candidate>): set<int> { set i | 0 <= i < |picked| :: picked[i].id }

  /** `orderBy openedAt asc, take n` over some endpoints: the `n` longest open, oldest first. */
  ghost predicate LongestOpen(ids: set<int>, h: HealthTable, n: nat, picked: seq<Candidate>) {
    && |picked| == (if n < |ids| then n else |ids|)
    && Ids(picked) <= ids && (forall i | 0 <= i < |picked| :: picked[i] == Snapshot(h, picked[i].id))
    && (forall i, j | 0 <= i < j < |picked| ::
      picked[i].id != picked[j].id && OpenedAt(h, picked[i].id) <= OpenedAt(h, picked[j].id))
    && (forall i, x | 0 <= i < |picked| && x in ids - Ids(picked) :: OpenedAt(h, picked[i].id) <= OpenedAt(h, x))
  }

  /** The conditional update: it matches an endpoint still live, or nothing. */
  function AutoDisabled(t: Table, c: Candidate, now: int): (r: Table) {
    var since := if c.openedAt.Some? then c.openedAt.value else now;
    if Live(t, c.id) then t[c.id := Endpoint(Disabled, false, Some(since), Some(now))] else t
  }

  function Audited(t: Table, audits: seq<int>, c: Candidate): (r: seq<int>) {
    if Live(t, c.id) then audits + [c.id] else audits
  }

  // ---- Steps ----

  datatype Step =
    | Create(id: int, mayReceiveSecret: bool, minted: bool, cleanedUp: bool)
    | Enable(id: int, hasLiveSecret: bool, now: int)
    | Disable(id: int)
    | Remove(id: int)
    | Breaker(id: int, health: Health)
    /** A pass takes the lock and reads its candidates; one already under way makes it a no-op. */
    | SweepRead(options: Options, now: int, candidates: seq<Candidate>)
    | SweepUpdate

  function Armed(h: HealthTable, id: int, now: int): HealthTable {
    if id in h && (h[id].state == Open || h[id].state == HalfOpen) then h[id := h[id].(probeAfter := now)] else h
  }

  /** A step that can be taken: an endpoint id is used once, and a sweep reads what the database holds. */
  ghost predicate Enabled(s: System, step: Step) {
    match step
    case Create(id, _, _, _) => id !in s.endpoints
    case SweepRead(options, now, candidates) =>
      LongestOpen(Eligible(s.endpoints, s.health, now, options.afterHours), s.health, options.maxPerRun, candidates)
    case _ => true
  }

  function Do(s: System, step: Step): (r: System) {
    match step
    case Create(id, may, minted, cleaned) => s.(endpoints := s.endpoints[id := Created(may, minted, cleaned)])
    case Enable(id, live, now) =>
      var row := EnableRow(s.endpoints, id, live);
      s.(endpoints := Written(s.endpoints, id, row), health := if row.Ok? then Armed(s.health, id, now) else s.health)
    case Disable(id) => s.(endpoints := Written(s.endpoints, id, DisableRow(s.endpoints, id)))
    case Remove(id) => s.(endpoints := Written(s.endpoints, id, RemoveRow(s.endpoints, id)))
    case Breaker(id, health) => s.(health := s.health[id := health])
    case SweepRead(options, now, candidates) =>
      if !options.enabled || s.queue != [] then s else s.(queue := candidates, sweepNow := now, sweepOptions := options)
    case SweepUpdate =>
      if s.queue == [] then s
      else
        var c, rest := s.queue[0], s.queue[1..];
        if !OpenLongEnough(c.openedAt, s.sweepNow, s.sweepOptions.afterHours) then s.(queue := rest)
        else
          s.(endpoints := AutoDisabled(s.endpoints, c, s.sweepNow),
             audits := Audited(s.endpoints, s.audits, c),
             queue := rest)
  }

  function Run(s: System, steps: seq<Step>): (r: System) {
    if steps == [] then s else Do(Run(s, steps[..|steps| - 1]), steps[|steps| - 1])
  }

  ghost predicate Possible(s: System, steps: seq<Step>) {
    forall n | 0 <= n < |steps| :: Enabled(Run(s, steps[..n]), steps[n])
  }
}

/** What every run of the endpoint lifecycle keeps. */
module EndpointProofs {
  import opened Domain
  import opened Endpoints

  /** `enabled` is exactly active; active carries no reason, and disabled always does. */
  predicate TidyRow(e: Endpoint) {
    && (e.enabled <==> e.status == Active)
    && (e.status == Active ==> e.disabledReason == None && e.disabledAt == None)
    && (e.status == Disabled ==> e.disabledReason.Some? && e.disabledAt.Some?)
  }

  predicate Tidy(t: Table) { forall id | id in t :: TidyRow(t[id]) }

  lemma StepKeepsTidy(s: System, step: Step)
    requires Tidy(s.endpoints)
    ensures Tidy(Do(s, step).endpoints)
  {
  }

  lemma {:induction false} EveryRunIsTidy(s: System, steps: seq<Step>)
    requires Tidy(s.endpoints)
    ensures Tidy(Run(s, steps).endpoints)
  {
    if steps != [] {
      EveryRunIsTidy(s, steps[..|steps| - 1]);
      StepKeepsTidy(Run(s, steps[..|steps| - 1]), steps[|steps| - 1]);
    }
  }

  /** Deleted is final: whatever follows, the row stays and never changes again. */
  lemma {:induction false} DeletedIsFinal(s: System, steps: seq<Step>, id: int)
    requires Possible(s, steps)
    requires id in s.endpoints && s.endpoints[id].status == Deleted
    ensures id in Run(s, steps).endpoints && Run(s, steps).endpoints[id] == s.endpoints[id]
  {
    if steps != [] {
      var n := |steps| - 1;
      assert forall k | 0 <= k < n :: steps[..n][..k] == steps[..k];
      DeletedIsFinal(s, steps[..n], id);
      assert Enabled(Run(s, steps[..n]), steps[n]);
    }
  }

  lemma StepKeepsReason(s: System, step: Step, id: int)
    requires Tidy(s.endpoints) && Enabled(s, step) && !(step.Enable? && step.id == id)
    requires id in s.endpoints && s.endpoints[id].disabledReason.Some?
    ensures var r := Do(s, step).endpoints;
            && id in r && r[id].disabledReason == s.endpoints[id].disabledReason
            && r[id].disabledAt == s.endpoints[id].disabledAt
  {
  }

  /** The breaker's reason outlives a pause, a removal and any later sweep: until the endpoint is
      enabled again it stays what the sweep that took it down recorded. */
  lemma {:induction false} ReasonStaysUntilEnabled(s: System, steps: seq<Step>, id: int)
    requires Tidy(s.endpoints) && Possible(s, steps)
    requires id in s.endpoints && s.endpoints[id].disabledReason.Some?
    requires forall n | 0 <= n < |steps| :: !(steps[n].Enable? && steps[n].id == id)
    ensures var r := Run(s, steps).endpoints;
            && id in r && r[id].disabledReason == s.endpoints[id].disabledReason
            && r[id].disabledAt == s.endpoints[id].disabledAt
  {
    hide Do, Enabled, Tidy;
    if steps != [] {
      var n := |steps| - 1;
      assert forall k | 0 <= k < n :: steps[..n][..k] == steps[..k];
      ReasonStaysUntilEnabled(s, steps[..n], id);
      EveryRunIsTidy(s, steps[..n]);
      assert Enabled(Run(s, steps[..n]), steps[n]);
      StepKeepsReason(Run(s, steps[..n]), steps[n], id);
    }
  }

  // ---- Audit rows are the transitions ----

  predicate WentDown(before: Table, after: Table, id: int) {
    id in before && before[id].status == Active && id in after && after[id].status == Disabled
  }

  function Downs(s: System, steps: seq<Step>, id: int): nat {
    if steps == [] then 0
    else
      var n := |steps| - 1;
      Downs(s, steps[..n], id) + if WentDown(Run(s, steps[..n]).endpoints, Run(s, steps).endpoints, id) then 1 else 0
  }

  function Entries(audits: seq<int>, id: int): nat {
    if audits == [] then 0 else Entries(audits[..|audits| - 1], id) + if audits[|audits| - 1] == id then 1 else 0
  }

  lemma StepAudits(s: System, step: Step, id: int)
    requires Tidy(s.endpoints) && Enabled(s, step)
    ensures Entries(Do(s, step).audits, id)
            == Entries(s.audits, id) + if WentDown(s.endpoints, Do(s, step).endpoints, id) then 1 else 0
  {
    var r := Do(s, step);
    if r.audits != s.audits { assert r.audits[..|r.audits| - 1] == s.audits; }
  }

  /** Per endpoint, the auto-disable entries are exactly its active-to-disabled transitions. */
  lemma {:induction false} AuditsAreTransitions(s: System, steps: seq<Step>, id: int)
    requires Tidy(s.endpoints) && Possible(s, steps)
    ensures Entries(Run(s, steps).audits, id) == Entries(s.audits, id) + Downs(s, steps, id)
  {
    hide Do, Enabled, Tidy;
    if steps != [] {
      var n := |steps| - 1;
      assert forall k | 0 <= k < n :: steps[..n][..k] == steps[..k];
      AuditsAreTransitions(s, steps[..n], id);
      EveryRunIsTidy(s, steps[..n]);
      assert Enabled(Run(s, steps[..n]), steps[n]);
      StepAudits(Run(s, steps[..n]), steps[n], id);
    }
  }
}
