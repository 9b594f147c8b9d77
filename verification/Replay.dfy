/** Replay: the delivery ledger, which a replay only appends to
    (apps/control-api/src/deliveries/delivery-replay.service.ts:92-289,
    apps/control-api/src/events/events.service.ts:179-308). */
module Replay {
  import opened Domain
  import opened Paging
  import Endpoints

  const MAX_REPLAY_DELIVERIES: nat := 50

  /** A ledger row. Its id is its position, so ids follow insertion order. */
  datatype Delivery = Delivery(
    event: int, endpoint: int, maxAttempts: nat, orderingKey: int,
    replayOf: Option<nat>, status: DeliveryStatus, attempts: nat)

  type EndpointTable = Endpoints.Table
  type Ledger = seq<Delivery>

  predicate Deliverable(e: Endpoints.Endpoint) { e.enabled && e.status == Active }

  // ---- Choosing what to replay ----

  predicate IsOriginal(ledger: Ledger, id: nat, event: int) {
    id < |ledger| && ledger[id].event == event && ledger[id].replayOf == None
  }

  /** The original rows of an event, oldest first. */
  function Originals(ledger: Ledger, event: int): (ids: seq<nat>)
    ensures forall i | 0 <= i < |ids| :: IsOriginal(ledger, ids[i], event)
    ensures forall i, j | 0 <= i < j < |ids| :: ids[i] < ids[j]
  {
    if ledger == [] then []
    else
      var last := |ledger| - 1;
      var before := Originals(ledger[..last], event);
      assert forall i | 0 <= i < |before| :: IsOriginal(ledger[..last], before[i], event);
      if ledger[last].event == event && ledger[last].replayOf == None then before + [last] else before
  }

  lemma {:induction false} OriginalsAreAll(ledger: Ledger, event: int)
    ensures forall id: nat | IsOriginal(ledger, id, event) :: id in Originals(ledger, event)
  {
    if ledger != [] {
      var last := |ledger| - 1;
      OriginalsAreAll(ledger[..last], event);
      forall id: nat | IsOriginal(ledger, id, event) ensures id in Originals(ledger, event) {
        if id < last { assert IsOriginal(ledger[..last], id, event); }
      }
    }
  }

  /** `originalsFor`: all of them, or a refusal past the cap or when there are none. */
  function OriginalsFor(ledger: Ledger, event: int): (r: Result<seq<nat>>)
    ensures r.Ok? ==> Known(ledger, r.value)
  {
    assert forall i | 0 <= i < |Originals(ledger, event)| :: IsOriginal(ledger, Originals(ledger, event)[i], event);
    var page := FindPage(Originals(ledger, event), Some(MAX_REPLAY_DELIVERIES), 0);
    if page.hasMore then Err(LimitExceeded)
    else if page.rows == [] then Err(Conflict)
    else Ok(page.rows)
  }

  predicate IsOriginalTo(ledger: Ledger, id: nat, event: int, endpoint: int) {
    IsOriginal(ledger, id, event) && ledger[id].endpoint == endpoint
  }

  predicate Routed(ledger: Ledger, event: int, endpoint: int) {
    exists id | 0 <= id < |ledger| :: IsOriginalTo(ledger, id, event, endpoint)
  }

  /** `originalFor`: the original delivery to one endpoint. */
  function OriginalFor(ledger: Ledger, endpoints: EndpointTable, event: int, endpoint: int): (r: Result<seq<nat>>)
    ensures r.Ok? <==> endpoint in endpoints && Routed(ledger, event, endpoint)
    ensures r.Ok? ==> |r.value| == 1 && IsOriginalTo(ledger, r.value[0], event, endpoint)
    ensures r.Err? ==> r.error == if endpoint in endpoints then Conflict else NotFound
  {
    if endpoint !in endpoints then Err(NotFound)
    else
      var ids := Originals(ledger, event);
      var i := FirstTo(ledger, ids, endpoint);
      if i == |ids| then
        OriginalsAreAll(ledger, event);
        assert forall id: nat | IsOriginalTo(ledger, id, event, endpoint) :: id in ids;
        Err(Conflict)
      else
        assert IsOriginalTo(ledger, ids[i], event, endpoint);
        Ok([ids[i]])
  }

  function FirstTo(ledger: Ledger, ids: seq<nat>, endpoint: int): (i: nat)
    requires Known(ledger, ids)
    ensures i <= |ids| && (i < |ids| ==> ledger[ids[i]].endpoint == endpoint)
    ensures i == |ids| ==> forall k | 0 <= k < |ids| :: ledger[ids[k]].endpoint != endpoint
  {
    if ids == [] || ledger[ids[0]].endpoint == endpoint then 0 else 1 + FirstTo(ledger, ids[1..], endpoint)
  }

  // ---- The replay itself ----

  function Copy(ledger: Ledger, id: nat): Delivery
    requires id < |ledger|
  {
    var d := ledger[id];
    Delivery(d.event, d.endpoint, d.maxAttempts, d.orderingKey, Some(id), Pending, 0)
  }

  function Copies(ledger: Ledger, ids: seq<nat>): (r: Ledger)
    requires Known(ledger, ids)
    ensures |r| == |ids| && forall i | 0 <= i < |ids| :: r[i] == Copy(ledger, ids[i])
  {
    seq(|ids|, i requires 0 <= i < |ids| => Copy(ledger, ids[i]))
  }

  predicate Known(ledger: Ledger, ids: seq<nat>) {
    forall i | 0 <= i < |ids| :: ids[i] < |ledger|
  }

  predicate Replayable(ledger: Ledger, endpoints: EndpointTable, id: nat) {
    id < |ledger| && ledger[id].endpoint in endpoints && Deliverable(endpoints[ledger[id].endpoint])
  }

  predicate AllReplayable(ledger: Ledger, endpoints: EndpointTable, ids: seq<nat>) {
    forall i | 0 <= i < |ids| :: Replayable(ledger, endpoints, ids[i])
  }

  /** Which refusal, if any, the endpoint check ends in: that of the first endpoint found wanting. */
  function Refusal(ledger: Ledger, endpoints: EndpointTable, ids: seq<nat>): (e: Option<Error>)
    requires Known(ledger, ids)
    ensures e == None <==> AllReplayable(ledger, endpoints, ids)
  {
    if ids == [] then None
    else if ledger[ids[0]].endpoint !in endpoints then assert !Replayable(ledger, endpoints, ids[0]); Some(NotFound)
    else if !Deliverable(endpoints[ledger[ids[0]].endpoint])
      then assert !Replayable(ledger, endpoints, ids[0]); Some(Conflict)
    else
      assert forall i | 0 < i < |ids| :: ids[1..][i - 1] == ids[i];
      Refusal(ledger, endpoints, ids[1..])
  }

  /** The ledger a replay of `ids` leaves: every copy, or no change at all. */
  function Replayed(ledger: Ledger, endpoints: EndpointTable, ids: seq<nat>): (r: Ledger)
    requires Known(ledger, ids)
  {
    if |ids| <= MAX_REPLAY_DELIVERIES && AllReplayable(ledger, endpoints, ids) then ledger + Copies(ledger, ids)
      else ledger
  }

  class DeliveryReplayService {
    var ledger: Ledger
    var endpoints: EndpointTable

    method ResolveEndpoints(originals: seq<nat>) returns (refused: Option<Error>, resolved: set<int>)
      requires Known(ledger, originals)
      ensures refused == Refusal(ledger, endpoints, originals)
      ensures refused == None ==> resolved == set i | 0 <= i < |originals| :: ledger[originals[i]].endpoint
    {
      resolved := {};
      for i := 0 to |originals|
        invariant resolved == set k | 0 <= k < i :: ledger[originals[k]].endpoint
        invariant forall e | e in resolved :: e in endpoints && Deliverable(endpoints[e])
        invariant Refusal(ledger, endpoints, originals) == Refusal(ledger, endpoints, originals[i..])
      {
        assert originals[i..][0] == originals[i] && originals[i..][1..] == originals[i + 1..];
        var endpoint := ledger[originals[i]].endpoint;
        if endpoint in resolved { continue; }
        if endpoint !in endpoints { return Some(NotFound), resolved; }
        if endpoints[endpoint].status == Deleted { return Some(Conflict), resolved; }
        if !Deliverable(endpoints[endpoint]) { return Some(Conflict), resolved; }
        resolved := resolved + {endpoint};
      }
      refused := None;
    }

    method InsertReplay(original: nat) returns (id: nat)
      requires original < |ledger|
      modifies this`ledger
      ensures id == old(|ledger|) && ledger == old(ledger) + [Copy(old(ledger), original)]
    {
      id := |ledger|;
      var d := ledger[original];
      ledger := ledger + [Delivery(d.event, d.endpoint, d.maxAttempts, d.orderingKey, Some(original), Pending, 0)];
    }

    /** One request: all of its inserts or none, and the ids of the new rows. */
    method ReplayAll(originals: seq<nat>) returns (created: Result<seq<nat>>)
      requires Known(ledger, originals)
      modifies this`ledger
      ensures ledger == Replayed(old(ledger), endpoints, originals)
      ensures |originals| > 50 ==> created == Err(LimitExceeded)
      ensures |originals| <= 50 ==>
                created == match Refusal(old(ledger), endpoints, originals)
                           case Some(e) => Err(e)
                           case None => Ok(seq(|originals|, i => old(|ledger|) + i))
    {
      if |originals| > MAX_REPLAY_DELIVERIES { return Err(LimitExceeded); }
      var refused, resolved := ResolveEndpoints(originals);
      if refused.Some? { return Err(refused.value); }
      var ids: seq<nat> := [];
      for i := 0 to |originals|
        invariant |ledger| == old(|ledger|) + i
        invariant ledger == old(ledger) + Copies(old(ledger), originals)[..i]
        invariant ids == seq(i, k => old(|ledger|) + k)
      {
        assert ledger[originals[i]] == old(ledger)[originals[i]];
        var id := InsertReplay(originals[i]);
        ids := ids + [id];
      }
      created := Ok(ids);
    }
  }

  // ---- Every run of routing and replaying ----

  datatype Step =
    | Route(event: int, endpoint: int, budget: nat, key: int)
    | Work(id: nat, status: DeliveryStatus, attempts: nat)
    | SetEndpoint(endpoint: int, state: Endpoints.Endpoint)
    | ReplayEvent(event: int)
    | ReplayEventTo(event: int, endpoint: int)
    | ReplayDelivery(id: nat)

  datatype System = System(ledger: Ledger, endpoints: EndpointTable)

  /** What a replay request would replay; an unknown delivery is refused. */
  function Plan(s: System, step: Step): (r: Result<seq<nat>>)
    requires step.ReplayEvent? || step.ReplayEventTo? || step.ReplayDelivery?
    ensures r.Ok? ==> Known(s.ledger, r.value)
  {
    match step
    case ReplayEvent(event) => OriginalsFor(s.ledger, event)
    case ReplayEventTo(event, endpoint) => OriginalFor(s.ledger, s.endpoints, event, endpoint)
    case ReplayDelivery(id) => if id < |s.ledger| then Ok([id]) else Err(NotFound)
  }

  /** Routing inserts under the partial unique index, the worker only moves a row along, and a
      replay is its plan carried out whole or not at all. */
  function Do(s: System, step: Step): (r: System) {
    match step
    case Route(event, endpoint, budget, key) =>
      if Routed(s.ledger, event, endpoint) then s
      else s.(ledger := s.ledger + [Delivery(event, endpoint, budget, key, None, Pending, 0)])
    case Work(id, status, attempts) =>
      if id >= |s.ledger| then s
      else s.(ledger := s.ledger[id := s.ledger[id].(status := status, attempts := attempts)])
    case SetEndpoint(endpoint, state) => s.(endpoints := s.endpoints[endpoint := state])
    case _ =>
      var plan := Plan(s, step);
      if plan.Err? then s else s.(ledger := Replayed(s.ledger, s.endpoints, plan.value))
  }

  function Run(s: System, steps: seq<Step>): (r: System) {
    if steps == [] then s else Do(Run(s, steps[..|steps| - 1]), steps[|steps| - 1])
  }
}
