/** What every run of routing inserts and replays keeps of the ledger. */
module ReplayProofs {
  import opened Domain
  import opened Paging
  import opened Replay

  /** A replay keeps the event, the endpoint, the attempt budget and the ordering key. */
  predicate SameLine(a: Delivery, b: Delivery) {
    a.event == b.event && a.endpoint == b.endpoint && a.maxAttempts == b.maxAttempts && a.orderingKey == b.orderingKey
  }

  predicate LinkedAt(ledger: Ledger, i: nat)
    requires i < |ledger|
  {
    ledger[i].replayOf.Some? ==> ledger[i].replayOf.value < i && SameLine(ledger[ledger[i].replayOf.value], ledger[i])
  }

  predicate Linked(ledger: Ledger) {
    forall i | 0 <= i < |ledger| :: LinkedAt(ledger, i)
  }

  /** The partial unique index. */
  predicate OneOriginal(ledger: Ledger) {
    forall i, j | 0 <= i < j < |ledger| && ledger[i].replayOf == None && ledger[j].replayOf == None ::
      ledger[i].event != ledger[j].event || ledger[i].endpoint != ledger[j].endpoint
  }

  /** Where a chain of replays ends: each link points further back, so it does. */
  function Root(ledger: Ledger, i: nat): (r: nat)
    requires Linked(ledger) && i < |ledger|
    ensures r <= i && ledger[r].replayOf == None && SameLine(ledger[r], ledger[i])
  {
    assert LinkedAt(ledger, i);
    if ledger[i].replayOf == None then i else Root(ledger, ledger[i].replayOf.value)
  }

  // ---- Steps ----

  lemma AppendKeepsLinked(ledger: Ledger, more: Ledger)
    requires Linked(ledger)
    requires forall k | 0 <= k < |more| :: more[k].replayOf.Some? ==>
               more[k].replayOf.value < |ledger| && SameLine(ledger[more[k].replayOf.value], more[k])
    ensures Linked(ledger + more)
  {
    forall i | 0 <= i < |ledger + more| ensures LinkedAt(ledger + more, i) {
      if i < |ledger| { assert LinkedAt(ledger, i); }
    }
  }

  /** A replay appends at most fifty rows, each a copy of one already there, and touches nothing else. */
  lemma ReplayOnlyAppends(s: System, step: Step)
    requires step.ReplayEvent? || step.ReplayEventTo? || step.ReplayDelivery?
    ensures var r := Do(s, step);
            && r.endpoints == s.endpoints
            && s.ledger <= r.ledger && |r.ledger| <= |s.ledger| + 50
            && forall k | |s.ledger| <= k < |r.ledger| ::
                 && r.ledger[k].replayOf.Some? && r.ledger[k].replayOf.value < |s.ledger|
                 && SameLine(s.ledger[r.ledger[k].replayOf.value], r.ledger[k])
                 && r.ledger[k].status == Pending && r.ledger[k].attempts == 0
                 && Replayable(s.ledger, s.endpoints, r.ledger[k].replayOf.value)
  {
    var plan := Plan(s, step);
    if plan.Ok? {
      hide Plan;
      var ids := plan.value;
      var r := Do(s, step);
      assert r.ledger == Replayed(s.ledger, s.endpoints, ids);
    }
  }

  /** An endpoint takes a replay when it is known, enabled and active. */
  predicate Takes(endpoints: EndpointTable, endpoint: int) {
    endpoint in endpoints && endpoints[endpoint].enabled && endpoints[endpoint].status == Active
  }

  /** A request is refused exactly when some endpoint does not take it, for the first that does not: as
      unknown, or as a conflict. */
  lemma {:induction false} RefusalIsOfTheFirst(ledger: Ledger, endpoints: EndpointTable, ids: seq<nat>)
    requires Known(ledger, ids)
    ensures var refusal := Refusal(ledger, endpoints, ids);
            && (refusal == None <==> forall i | 0 <= i < |ids| :: Takes(endpoints, ledger[ids[i]].endpoint))
            && (refusal != None ==>
                  exists i | 0 <= i < |ids| ::
                    && !Takes(endpoints, ledger[ids[i]].endpoint)
                    && (forall j | 0 <= j < i :: Takes(endpoints, ledger[ids[j]].endpoint))
                    && refusal == Some(if ledger[ids[i]].endpoint in endpoints then Conflict else NotFound))
  {
    if ids != [] && Takes(endpoints, ledger[ids[0]].endpoint) {
      RefusalIsOfTheFirst(ledger, endpoints, ids[1..]);
      assert forall i | 0 < i < |ids| :: ids[i] == ids[1..][i - 1];
    }
  }

  /** Row by row, the rows appended replay the planned ones in order. */
  predicate CarriedOut(before: Ledger, after: Ledger, ids: seq<nat>) {
    forall k | 0 <= k < |ids| :: |before| + k < |after| && after[|before| + k].replayOf == Some(ids[k])
  }

  /** A replay request is all or nothing. */
  lemma ReplayIsWhole(s: System, step: Step)
    requires step.ReplayEvent? || step.ReplayEventTo? || step.ReplayDelivery?
    ensures var r := Do(s, step);
            r.ledger == s.ledger || (Plan(s, step).Ok? && |r.ledger| == |s.ledger| + |Plan(s, step).value|)
    ensures Plan(s, step).Ok? && |Plan(s, step).value| <= 50
            && AllReplayable(s.ledger, s.endpoints, Plan(s, step).value) ==>
              CarriedOut(s.ledger, Do(s, step).ledger, Plan(s, step).value)
  {
    DoReplay(s, step);
    hide Plan, Do, Replayed, AllReplayable, CarriedOut;
    if Plan(s, step).Ok? { ReplayedShape(s.ledger, s.endpoints, Plan(s, step).value); }
  }

  lemma ReplayedShape(ledger: Ledger, endpoints: EndpointTable, ids: seq<nat>)
    requires Known(ledger, ids)
    ensures var r := Replayed(ledger, endpoints, ids);
            && (r == ledger || |r| == |ledger| + |ids|)
            && (|ids| <= MAX_REPLAY_DELIVERIES && AllReplayable(ledger, endpoints, ids) ==>
                  CarriedOut(ledger, r, ids))
  {
    hide AllReplayable;
  }

  lemma DoReplay(s: System, step: Step)
    requires step.ReplayEvent? || step.ReplayEventTo? || step.ReplayDelivery?
    ensures var plan := Plan(s, step);
            Do(s, step) == if plan.Err? then s else s.(ledger := Replayed(s.ledger, s.endpoints, plan.value))
  {
    hide Plan, Replayed;
  }

  lemma StepKeepsLinked(s: System, step: Step)
    requires Linked(s.ledger)
    ensures Linked(Do(s, step).ledger)
  {
    var r := Do(s, step);
    if step.ReplayEvent? || step.ReplayEventTo? || step.ReplayDelivery? {
      ReplayOnlyAppends(s, step);
      hide Do;
      var more := r.ledger[|s.ledger|..];
      assert r.ledger == s.ledger + more;
      AppendKeepsLinked(s.ledger, more);
    } else if step.Route? {
      if r.ledger != s.ledger { AppendKeepsLinked(s.ledger, [r.ledger[|s.ledger|]]); }
    } else {
      forall i | 0 <= i < |r.ledger| ensures LinkedAt(r.ledger, i) { assert LinkedAt(s.ledger, i); }
    }
  }

  lemma StepKeepsOneOriginal(s: System, step: Step)
    requires OneOriginal(s.ledger)
    ensures OneOriginal(Do(s, step).ledger)
  {
    var r := Do(s, step);
    if step.ReplayEvent? || step.ReplayEventTo? || step.ReplayDelivery? {
      ReplayOnlyAppends(s, step);
      hide Do;
    } else if step.Route? && r.ledger != s.ledger {
      forall i | 0 <= i < |s.ledger| && s.ledger[i].replayOf == None
        ensures s.ledger[i].event != step.event || s.ledger[i].endpoint != step.endpoint
      {
        assert !IsOriginalTo(s.ledger, i, step.event, step.endpoint);
      }
    }
  }

  // ---- Runs ----

  predicate Sound(ledger: Ledger) { Linked(ledger) && OneOriginal(ledger) }

  lemma {:induction false} EveryRunIsSound(s: System, steps: seq<Step>)
    requires Sound(s.ledger)
    ensures Sound(Run(s, steps).ledger)
  {
    if steps != [] {
      var n := |steps| - 1;
      EveryRunIsSound(s, steps[..n]);
      StepKeepsLinked(Run(s, steps[..n]), steps[n]);
      StepKeepsOneOriginal(Run(s, steps[..n]), steps[n]);
    }
  }

  /** In every run, every chain ends at the one original of its event and endpoint, with its budget. */
  lemma ChainsEndAtTheOriginal(s: System, steps: seq<Step>, i: nat, j: nat)
    requires Sound(s.ledger)
    requires var l := Run(s, steps).ledger; i < |l| && j < |l|
    ensures var l := Run(s, steps).ledger;
            && Linked(l)
            && (l[j].replayOf == None && l[j].event == l[i].event && l[j].endpoint == l[i].endpoint
              <==> j == Root(l, i))
            && l[Root(l, i)].maxAttempts == l[i].maxAttempts
  {
    EveryRunIsSound(s, steps);
    var l := Run(s, steps).ledger;
    hide Run;
    var r := Root(l, i);
    assert l[j].replayOf == None && j < r ==> l[j].event != l[r].event || l[j].endpoint != l[r].endpoint;
    assert l[j].replayOf == None && r < j ==> l[j].event != l[r].event || l[j].endpoint != l[r].endpoint;
  }

  lemma {:induction false} OriginalsAppend(ledger: Ledger, more: Ledger, event: int)
    requires forall k | 0 <= k < |more| :: more[k].replayOf.Some? || more[k].event != event
    ensures Originals(ledger + more, event) == Originals(ledger, event)
    decreases |more|
  {
    if more == [] {
      assert ledger + more == ledger;
    } else {
      var n := |more| - 1;
      OriginalsAppend(ledger, more[..n], event);
      assert (ledger + more)[..|ledger + more| - 1] == ledger + more[..n];
    }
  }

  lemma {:induction false} OriginalsIgnoreWork(ledger: Ledger, id: nat, status: DeliveryStatus, attempts: nat,
      event: int)
    requires id < |ledger|
    ensures Originals(ledger[id := ledger[id].(status := status, attempts := attempts)], event)
            == Originals(ledger, event)
  {
    var n := |ledger| - 1;
    var worked := ledger[id := ledger[id].(status := status, attempts := attempts)];
    if id < n {
      OriginalsIgnoreWork(ledger[..n], id, status, attempts, event);
      assert worked[..n] == ledger[..n][id := ledger[..n][id].(status := status, attempts := attempts)];
    } else {
      assert worked[..n] == ledger[..n];
    }
  }

  lemma StepKeepsOriginals(s: System, step: Step, event: int)
    requires step.Route? ==> step.event != event
    ensures Originals(Do(s, step).ledger, event) == Originals(s.ledger, event)
  {
    var r := Do(s, step);
    if step.Work? && step.id < |s.ledger| {
      OriginalsIgnoreWork(s.ledger, step.id, step.status, step.attempts, event);
    } else if step.Route? {
      if r.ledger != s.ledger { OriginalsAppend(s.ledger, [r.ledger[|s.ledger|]], event); }
    } else if step.ReplayEvent? || step.ReplayEventTo? || step.ReplayDelivery? {
      ReplayOnlyAppends(s, step);
      hide Do;
      var more := r.ledger[|s.ledger|..];
      assert r.ledger == s.ledger + more;
      OriginalsAppend(s.ledger, more, event);
    }
  }

  /** However many replays come before, replaying an event to all picks the same originals. */
  lemma {:induction false} ReplaysPickTheSameOriginals(s: System, steps: seq<Step>, event: int)
    requires forall i | 0 <= i < |steps| && steps[i].Route? :: steps[i].event != event
    ensures Originals(Run(s, steps).ledger, event) == Originals(s.ledger, event)
    ensures OriginalsFor(Run(s, steps).ledger, event) == OriginalsFor(s.ledger, event)
  {
    if steps != [] {
      var n := |steps| - 1;
      ReplaysPickTheSameOriginals(s, steps[..n], event);
      StepKeepsOriginals(Run(s, steps[..n]), steps[n], event);
    }
  }

  /** Replaying to all re-sends to every original, and is refused exactly when there are none or more than fifty. */
  lemma OriginalsForIsWhole(ledger: Ledger, event: int)
    ensures var all := Originals(ledger, event);
            OriginalsFor(ledger, event) ==
            if all == [] then Err(Conflict) else if |all| > 50 then Err(LimitExceeded) else Ok(all)
  {
    PagesTile(Originals(ledger, event), Some(MAX_REPLAY_DELIVERIES), 0);
    hide Originals;
  }

  // ---- What each step leaves ----

  /** `row` is a fresh replay of row `id`. */
  predicate Replays(ledger: Ledger, id: nat, row: Delivery) {
    && id < |ledger| && SameLine(ledger[id], row)
    && row.replayOf == Some(id) && row.status == Pending && row.attempts == 0
  }

  /** Replaying one delivery appends its replay when the delivery exists and its endpoint takes it, and
      changes nothing otherwise; an unknown delivery is a 404. */
  lemma ReplayDeliveryAnswers(s: System, id: nat)
    ensures var r := Do(s, ReplayDelivery(id));
            && r.endpoints == s.endpoints
            && (if id < |s.ledger| && Takes(s.endpoints, s.ledger[id].endpoint)
                then |r.ledger| == |s.ledger| + 1 && s.ledger <= r.ledger && Replays(s.ledger, id, r.ledger[|s.ledger|])
                else r.ledger == s.ledger)
    ensures id >= |s.ledger| ==> Plan(s, ReplayDelivery(id)) == Err(NotFound)
  {
    DoReplay(s, ReplayDelivery(id));
    hide Do;
    if id < |s.ledger| {
      assert Plan(s, ReplayDelivery(id)) == Ok([id]);
      assert AllReplayable(s.ledger, s.endpoints, [id]) <==> Replayable(s.ledger, s.endpoints, [id][0]);
    }
  }

  /** Replaying an event to one endpoint appends the replay of its original there when the endpoint was
      routed the event and takes it, and changes nothing otherwise. */
  lemma ReplayEventToAnswers(s: System, event: int, endpoint: int)
    ensures var r := Do(s, ReplayEventTo(event, endpoint));
            && r.endpoints == s.endpoints
            && (if Routed(s.ledger, event, endpoint) && Takes(s.endpoints, endpoint)
                then && |r.ledger| == |s.ledger| + 1 && s.ledger <= r.ledger
                     && exists id | 0 <= id < |s.ledger| ::
                          IsOriginalTo(s.ledger, id, event, endpoint) && Replays(s.ledger, id, r.ledger[|s.ledger|])
                else r.ledger == s.ledger)
  {
    var step := ReplayEventTo(event, endpoint);
    DoReplay(s, step);
    var plan := OriginalFor(s.ledger, s.endpoints, event, endpoint);
    hide Do, Routed;
    if plan.Ok? {
      var id := plan.value[0];
      assert plan.value == [id];
      assert AllReplayable(s.ledger, s.endpoints, [id]) <==> Replayable(s.ledger, s.endpoints, [id][0]);
      if Takes(s.endpoints, endpoint) { assert Replays(s.ledger, id, Do(s, step).ledger[|s.ledger|]); }
    }
  }

  /** Replaying an event to all appends the replays of all its originals, oldest first, when there are one
      to fifty and every endpoint takes its own, and changes nothing otherwise. */
  lemma ReplayEventAnswers(s: System, event: int)
    ensures var r, ids := Do(s, ReplayEvent(event)), Originals(s.ledger, event);
            && r.endpoints == s.endpoints
            && (if 1 <= |ids| <= 50 && AllTake(s, ids) then AllReplayed(s.ledger, r.ledger, ids)
                else r.ledger == s.ledger)
  {
    DoReplay(s, ReplayEvent(event));
    OriginalsForIsWhole(s.ledger, event);
    hide Do, Originals, OriginalsFor, AllTake, AllReplayed, Replayed;
    var ids := Originals(s.ledger, event);
    assert forall i | 0 <= i < |ids| :: IsOriginal(s.ledger, ids[i], event);
    if 1 <= |ids| <= 50 { ReplayedIs(s, ids); }
  }

  predicate AllTake(s: System, ids: seq<nat>)
    requires Known(s.ledger, ids)
  {
    forall i | 0 <= i < |ids| :: Takes(s.endpoints, s.ledger[ids[i]].endpoint)
  }

  /** The replays of `ids`, in order, are all that was added. */
  predicate AllReplayed(before: Ledger, after: Ledger, ids: seq<nat>) {
    && |after| == |before| + |ids| && before <= after
    && forall i | 0 <= i < |ids| :: Replays(before, ids[i], after[|before| + i])
  }

  lemma ReplayedIs(s: System, ids: seq<nat>)
    requires Known(s.ledger, ids) && |ids| <= 50
    ensures var after := Replayed(s.ledger, s.endpoints, ids);
            if AllTake(s, ids) then AllReplayed(s.ledger, after, ids) else after == s.ledger
  {
    assert AllTake(s, ids) <==> AllReplayable(s.ledger, s.endpoints, ids) by {
      assert forall i | 0 <= i < |ids| ::
          Takes(s.endpoints, s.ledger[ids[i]].endpoint) <==> Replayable(s.ledger, s.endpoints, ids[i]);
    }
    hide AllTake, AllReplayable, Takes;
    var after := Replayed(s.ledger, s.endpoints, ids);
    if AllTake(s, ids) {
      forall i | 0 <= i < |ids| ensures Replays(s.ledger, ids[i], after[|s.ledger| + i]) {
        assert after[|s.ledger| + i] == Copies(s.ledger, ids)[i];
      }
    }
  }

  /** Routing adds an original where there is none, work moves one row along, and an endpoint changes by
      itself. */
  lemma OtherSteps(s: System, event: int, endpoint: int, budget: nat, key: int, id: nat, status: DeliveryStatus,
                   attempts: nat, state: Endpoints.Endpoint)
    ensures Do(s, Route(event, endpoint, budget, key)).ledger
            == if exists i | 0 <= i < |s.ledger| :: IsOriginalTo(s.ledger, i, event, endpoint) then s.ledger
               else s.ledger + [Delivery(event, endpoint, budget, key, None, Pending, 0)]
    ensures var r := Do(s, Work(id, status, attempts));
            && |r.ledger| == |s.ledger|
            && forall i | 0 <= i < |s.ledger| ::
                 r.ledger[i] == if i == id then s.ledger[i].(status := status, attempts := attempts) else s.ledger[i]
    ensures Do(s, SetEndpoint(endpoint, state)) == s.(endpoints := s.endpoints[endpoint := state])
  {
  }
}
