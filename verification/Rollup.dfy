/** What became of each event on a page: grouped counts, read 200 groups at a time, rolled up into
    one of six states (apps/control-api/src/events/events.service.ts:108-145,
    apps/control-api/src/events/delivery-rollup.ts:71-102,
    apps/control-api/src/authz/tenant-scope.ts:516-534). */
module Rollup {
  import opened Domain
  import opened Paging

  const STATUSES: seq<DeliveryStatus> :=
    [Pending, Scheduled, Queued, DeliveryStatus.Processing, Succeeded, DeliveryStatus.Failed, Retrying,
     Exhausted, Cancelled]

  function Rank(s: DeliveryStatus): nat {
    match s
    case Pending => 0
    case Scheduled => 1
    case Queued => 2
    case Processing => 3
    case Succeeded => 4
    case Failed => 5
    case Retrying => 6
    case Exhausted => 7
    case Cancelled => 8
  }

  datatype Delivery = Delivery(eventId: int, status: DeliveryStatus)
  datatype EventStatus = Received | Processing | Processed | Failed
  datatype Event = Event(id: int, status: EventStatus)

  predicate InFlight(s: DeliveryStatus) {
    s in {Pending, Scheduled, Queued, DeliveryStatus.Processing, Retrying}
  }

  predicate Arrived(s: DeliveryStatus) { s == Succeeded }
  predicate Lost(s: DeliveryStatus) { s == DeliveryStatus.Failed || s == Exhausted }
  predicate Withdrawn(s: DeliveryStatus) { s == Cancelled }

  // ---- Grouping ----

  datatype Group = Group(eventId: int, status: DeliveryStatus, count: nat)

  function CountOf(ds: seq<Delivery>, e: int, s: DeliveryStatus): nat {
    if ds == [] then 0
    else CountOf(ds[..|ds| - 1], e, s) + if ds[|ds| - 1] == Delivery(e, s) then 1 else 0
  }

  /** The `orderBy` of the grouped columns, ascending. */
  predicate Before(e: int, s: DeliveryStatus, g: Group) {
    e < g.eventId || (e == g.eventId && Rank(s) < Rank(g.status))
  }

  predicate AllAfter(groups: seq<Group>, e: int, s: DeliveryStatus) {
    forall i | 0 <= i < |groups| :: Before(e, s, groups[i])
  }

  predicate Ordered(groups: seq<Group>) {
    groups != [] ==> AllAfter(groups[1..], groups[0].eventId, groups[0].status) && Ordered(groups[1..])
  }

  /** One more row of `(e, s)`. */
  function Tally(groups: seq<Group>, e: int, s: DeliveryStatus): (r: seq<Group>) {
    if groups == [] || Before(e, s, groups[0]) then [Group(e, s, 1)] + groups
    else if groups[0].eventId == e && groups[0].status == s
      then [groups[0].(count := groups[0].count + 1)] + groups[1..]
    else [groups[0]] + Tally(groups[1..], e, s)
  }

  /** `GROUP BY event_id, status ... WHERE event_id IN (ids)`. */
  function Groups(ds: seq<Delivery>, ids: set<int>): (r: seq<Group>) {
    if ds == [] then []
    else
      var rest := Groups(ds[..|ds| - 1], ids);
      var d := ds[|ds| - 1];
      if d.eventId in ids then Tally(rest, d.eventId, d.status) else rest
  }

  /** The count of a group, and zero for a group that is not there. */
  function Lookup(groups: seq<Group>, e: int, s: DeliveryStatus): nat {
    if groups == [] then 0
    else if groups[0].eventId == e && groups[0].status == s then groups[0].count
    else Lookup(groups[1..], e, s)
  }

  lemma {:induction false} TallyStaysAfter(groups: seq<Group>, e: int, s: DeliveryStatus, e': int, s': DeliveryStatus)
    requires AllAfter(groups, e', s') && Before(e', s', Group(e, s, 1))
    ensures AllAfter(Tally(groups, e, s), e', s')
  {
    if groups != [] && !Before(e, s, groups[0]) && !(groups[0].eventId == e && groups[0].status == s) {
      TallyStaysAfter(groups[1..], e, s, e', s');
    }
  }

  lemma {:induction false} TallyKeepsOrder(groups: seq<Group>, e: int, s: DeliveryStatus)
    requires Ordered(groups)
    ensures Ordered(Tally(groups, e, s))
  {
    var r := Tally(groups, e, s);
    if groups == [] || Before(e, s, groups[0]) {
      assert r[1..] == groups;
    } else if groups[0].eventId == e && groups[0].status == s {
      assert r[1..] == groups[1..];
    } else {
      assert r[1..] == Tally(groups[1..], e, s);
      TallyKeepsOrder(groups[1..], e, s);
      RankIsExact(s, groups[0].status);
      TallyStaysAfter(groups[1..], e, s, groups[0].eventId, groups[0].status);
    }
  }

  lemma RankIsExact(a: DeliveryStatus, b: DeliveryStatus)
    ensures Rank(a) == Rank(b) <==> a == b
  {
  }

  lemma {:induction false} TallyAddsOne(groups: seq<Group>, e: int, s: DeliveryStatus, e': int, s': DeliveryStatus)
    requires Ordered(groups)
    ensures Lookup(Tally(groups, e, s), e', s') == Lookup(groups, e', s') + if e == e' && s == s' then 1 else 0
  {
    var r := Tally(groups, e, s);
    if groups == [] || Before(e, s, groups[0]) {
      Absent(groups, e, s);
      assert r[1..] == groups;
    } else if groups[0].eventId == e && groups[0].status == s {
      assert r[1..] == groups[1..];
    } else {
      TallyAddsOne(groups[1..], e, s, e', s');
      assert r[1..] == Tally(groups[1..], e, s);
    }
  }

  lemma {:induction false} Absent(groups: seq<Group>, e: int, s: DeliveryStatus)
    requires AllAfter(groups, e, s)
    ensures Lookup(groups, e, s) == 0
  {
    if groups != [] { Absent(groups[1..], e, s); }
  }

  /** The grouped query tells the truth: one group per pair, with its exact count. */
  lemma {:induction false} GroupsCount(ds: seq<Delivery>, ids: set<int>)
    ensures Ordered(Groups(ds, ids))
    ensures forall e, s :: Lookup(Groups(ds, ids), e, s) == if e in ids then CountOf(ds, e, s) else 0
  {
    if ds != [] {
      GroupsCount(ds[..|ds| - 1], ids);
      var d := ds[|ds| - 1];
      var rest := Groups(ds[..|ds| - 1], ids);
      if d.eventId in ids {
        TallyKeepsOrder(rest, d.eventId, d.status);
        forall e, s ensures Lookup(Tally(rest, d.eventId, d.status), e, s) ==
                            Lookup(rest, e, s) + if d.eventId == e && d.status == s then 1 else 0 {
          TallyAddsOne(rest, d.eventId, d.status, e, s);
        }
      }
    }
  }

  /** `groupBy`: at most the page asked for; without a `take`, a result past the cap is an error. */
  method GroupBy(ds: seq<Delivery>, ids: set<int>, take: Option<int>, skip: nat) returns (r: Option<seq<Group>>)
    ensures take.Some? ==> r == Some(Slice(Groups(ds, ids), skip, PageSize(take)))
    ensures take.None? ==> r == if |Groups(ds, ids)| > skip + MAX_PAGE_SIZE then None
            else Some(Slice(Groups(ds, ids), skip, |Groups(ds, ids)|))
  {
    var limit := if take.Some? then PageSize(take) else MAX_PAGE_SIZE;
    var groups := Slice(Groups(ds, ids), skip, limit + 1);
    if |groups| <= limit { return Some(groups); }
    if take.None? { return None; }
    assert groups[..limit] == Slice(Groups(ds, ids), skip, limit);
    return Some(groups[..limit]);
  }

  // ---- The rollup of one event ----

  type Counts = map<DeliveryStatus, nat>

  function Get(counts: Counts, s: DeliveryStatus): nat {
    if s in counts then counts[s] else 0
  }

  function Sum(counts: Counts, statuses: seq<DeliveryStatus>): nat {
    if statuses == [] then 0 else Sum(counts, statuses[..|statuses| - 1]) + Get(counts, statuses[|statuses| - 1])
  }

  datatype State = ReceivedState | InProgress | Delivered | PartlyDelivered | AllFailed | Dropped
  datatype DeliveryRollup =
    DeliveryRollup(state: State, total: nat, succeeded: nat, failed: nat, inFlight: nat, cancelled: nat)

  method EmptyCounts() returns (counts: Counts)
    ensures forall s :: s in counts && counts[s] == 0
  {
    counts := map[];
    for i := 0 to |STATUSES|
      invariant forall k | 0 <= k < i :: STATUSES[k] in counts
      invariant forall s | s in counts :: counts[s] == 0
    {
      counts := counts[STATUSES[i] := 0];
    }
    forall s: DeliveryStatus ensures s in counts { assert STATUSES[Rank(s)] == s; }
  }

  function Only(ds: seq<Delivery>, keep: DeliveryStatus -> bool): (r: seq<Delivery>)
    ensures forall d | d in r :: d in ds && keep(d.status)
    ensures forall d | d in ds && keep(d.status) :: d in r
  {
    if ds == [] then []
    else
      assert ds == ds[..|ds| - 1] + [ds[|ds| - 1]];
      Only(ds[..|ds| - 1], keep) + if keep(ds[|ds| - 1].status) then [ds[|ds| - 1]] else []
  }

  function OfEvent(ds: seq<Delivery>, e: int): (r: seq<Delivery>) {
    if ds == [] then []
    else OfEvent(ds[..|ds| - 1], e) + if ds[|ds| - 1].eventId == e then [ds[|ds| - 1]] else []
  }

  /** The rollup read straight off an event's own deliveries, with no counting in groups. */
  ghost function Naive(status: EventStatus, mine: seq<Delivery>): (r: DeliveryRollup) {
    DeliveryRollup(
      if mine == [] then if status == Processed then Dropped else ReceivedState
      else if exists d | d in mine :: InFlight(d.status) then InProgress
      else if forall d | d in mine :: d.status == Succeeded then Delivered
      else if forall d | d in mine :: d.status != Succeeded then AllFailed
      else PartlyDelivered,
      |mine|,
      |Only(mine, Arrived)|,
      |Only(mine, Lost)|,
      |Only(mine, InFlight)|,
      |Only(mine, Withdrawn)|)
  }

  ghost predicate CountsAre(counts: Counts, ds: seq<Delivery>, e: int) {
    forall s :: Get(counts, s) == CountOf(ds, e, s)
  }

  method RollUp(status: EventStatus, counts: Counts) returns (r: DeliveryRollup)
    ensures r.total == r.succeeded + r.failed + r.inFlight + r.cancelled
    ensures forall ds, e | CountsAre(counts, ds, e) :: r == Naive(status, OfEvent(ds, e))
  {
    var total := 0;
    for i := 0 to |STATUSES|
      invariant total == Sum(counts, STATUSES[..i])
    {
      assert STATUSES[..i + 1][..i] == STATUSES[..i];
      total := total + Get(counts, STATUSES[i]);
    }
    var succeeded := Get(counts, Succeeded);
    var failed := Get(counts, DeliveryStatus.Failed) + Get(counts, Exhausted);
    var cancelled := Get(counts, Cancelled);
    var inFlight := Get(counts, Pending) + Get(counts, Scheduled) + Get(counts, Queued)
      + Get(counts, DeliveryStatus.Processing) + Get(counts, Retrying);
    assert STATUSES[..|STATUSES|] == STATUSES;
    SumOfNine(counts);
    var state :=
      if total == 0 then if status == Processed then Dropped else ReceivedState
      else if inFlight > 0 then InProgress
      else if succeeded == total then Delivered
      else if succeeded == 0 then AllFailed
      else PartlyDelivered;
    r := DeliveryRollup(state, total, succeeded, failed, inFlight, cancelled);
    forall ds, e | CountsAre(counts, ds, e) ensures r == Naive(status, OfEvent(ds, e)) {
      NaiveFromCounts(status, counts, ds, e);
    }
  }

  lemma SumNext(counts: Counts, n: nat)
    requires n < |STATUSES|
    ensures Sum(counts, STATUSES[..n + 1]) == Sum(counts, STATUSES[..n]) + Get(counts, STATUSES[n])
  {
    assert STATUSES[..n + 1][..n] == STATUSES[..n];
  }

  lemma SumOfNine(counts: Counts)
    ensures Sum(counts, STATUSES) ==
            Get(counts, Pending) + Get(counts, Scheduled) + Get(counts, Queued)
            + Get(counts, DeliveryStatus.Processing) + Get(counts, Succeeded)
            + Get(counts, DeliveryStatus.Failed) + Get(counts, Retrying) + Get(counts, Exhausted)
            + Get(counts, Cancelled)
  {
    SumNext(counts, 0); SumNext(counts, 1); SumNext(counts, 2); SumNext(counts, 3); SumNext(counts, 4);
    SumNext(counts, 5); SumNext(counts, 6); SumNext(counts, 7); SumNext(counts, 8);
    assert STATUSES[..0] == [] && STATUSES[..9] == STATUSES;
  }

  lemma OnlyNext(ds: seq<Delivery>, e: int, keep: DeliveryStatus -> bool)
    requires ds != []
    ensures var last := ds[|ds| - 1];
            |Only(OfEvent(ds, e), keep)|
            == |Only(OfEvent(ds[..|ds| - 1], e), keep)| + if last.eventId == e && keep(last.status) then 1 else 0
  {
    var mine := OfEvent(ds, e);
    if ds[|ds| - 1].eventId == e {
      assert mine[..|mine| - 1] == OfEvent(ds[..|ds| - 1], e);
    } else {
      assert mine == OfEvent(ds[..|ds| - 1], e);
    }
  }

  /** How many of an event's deliveries have a status in a class: the sum of the class's counts. */
  lemma {:induction false} SettledCounts(ds: seq<Delivery>, e: int)
    ensures |Only(OfEvent(ds, e), Arrived)| == CountOf(ds, e, Succeeded)
    ensures |Only(OfEvent(ds, e), Lost)| == CountOf(ds, e, DeliveryStatus.Failed) + CountOf(ds, e, Exhausted)
    ensures |Only(OfEvent(ds, e), Withdrawn)| == CountOf(ds, e, Cancelled)
  {
    if ds != [] {
      SettledCounts(ds[..|ds| - 1], e);
      OnlyNext(ds, e, Arrived); OnlyNext(ds, e, Lost); OnlyNext(ds, e, Withdrawn);
      hide Only, OfEvent;
    }
  }

  lemma {:induction false} InFlightCounts(ds: seq<Delivery>, e: int)
    ensures |Only(OfEvent(ds, e), InFlight)|
            == CountOf(ds, e, Pending) + CountOf(ds, e, Scheduled) + CountOf(ds, e, Queued)
                                                + CountOf(ds, e, DeliveryStatus.Processing) + CountOf(ds, e, Retrying)
  {
    if ds != [] {
      InFlightCounts(ds[..|ds| - 1], e);
      OnlyNext(ds, e, InFlight);
      hide Only, OfEvent;
    }
  }

  lemma {:induction false} ClassesPartition(mine: seq<Delivery>)
    ensures |mine| == |Only(mine, Arrived)| + |Only(mine, Lost)| + |Only(mine, Withdrawn)| + |Only(mine, InFlight)|
  {
    if mine != [] { ClassesPartition(mine[..|mine| - 1]); }
  }

  lemma OnlyAll(ds: seq<Delivery>, keep: DeliveryStatus -> bool)
    ensures |Only(ds, keep)| <= |ds|
    ensures |Only(ds, keep)| == |ds| <==> forall d | d in ds :: keep(d.status)
  {
    if ds != [] {
      OnlyAll(ds[..|ds| - 1], keep);
      assert ds == ds[..|ds| - 1] + [ds[|ds| - 1]];
    }
  }

  lemma NaiveFromCounts(status: EventStatus, counts: Counts, ds: seq<Delivery>, e: int)
    requires CountsAre(counts, ds, e)
    ensures var n := Naive(status, OfEvent(ds, e));
            && n.total == n.succeeded + n.failed + n.inFlight + n.cancelled
            && n.succeeded == Get(counts, Succeeded)
            && n.failed == Get(counts, DeliveryStatus.Failed) + Get(counts, Exhausted)
            && n.cancelled == Get(counts, Cancelled)
            && n.inFlight == Get(counts, Pending) + Get(counts, Scheduled) + Get(counts, Queued)
              + Get(counts, DeliveryStatus.Processing) + Get(counts, Retrying)
            && n.state == (if n.total == 0 then if status == Processed then Dropped else ReceivedState
                           else if n.inFlight > 0 then InProgress
                           else if n.succeeded == n.total then Delivered
                           else if n.succeeded == 0 then AllFailed
                           else PartlyDelivered)
  {
    SettledCounts(ds, e);
    InFlightCounts(ds, e);
    var mine := OfEvent(ds, e);
    ClassesPartition(mine);
    OnlyAll(mine, Arrived);
    hide Only, OfEvent, CountOf;
    var flying, arrived := Only(mine, InFlight), Only(mine, Arrived);
    assert |flying| > 0 ==> flying[0] in mine && InFlight(flying[0].status);
    assert |arrived| > 0 ==> arrived[0] in mine && arrived[0].status == Succeeded;
  }

  // ---- The page of events ----

  ghost predicate Tallied(counts: map<int, Counts>, ids: set<int>, done: seq<Group>) {
    counts.Keys == ids && forall e, s | e in counts :: Get(counts[e], s) == Lookup(done, e, s)
  }

  lemma {:induction false} LookupNext(groups: seq<Group>, n: nat, e: int, s: DeliveryStatus)
    requires Ordered(groups) && n < |groups|
    ensures Lookup(groups[..n + 1], e, s) ==
            if groups[n].eventId == e && groups[n].status == s then groups[n].count else Lookup(groups[..n], e, s)
    decreases n
  {
    if n == 0 {
      assert groups[..1][1..] == [];
    } else {
      LookupNext(groups[1..], n - 1, e, s);
      assert groups[..n + 1][1..] == groups[1..][..n] && groups[..n][1..] == groups[1..][..n - 1];
      assert groups[1..][n - 1] == groups[n] && Before(groups[0].eventId, groups[0].status, groups[n]);
    }
  }

  /** Writes one page of groups, `all[skip..skip + |groups|]`, over the counts of the events it knows. */
  method Apply(groups: seq<Group>, before: map<int, Counts>, ghost all: seq<Group>, ghost skip: nat,
      ghost ids: set<int>)
    returns (counts: map<int, Counts>)
    requires Ordered(all) && skip + |groups| <= |all| && groups == all[skip..skip + |groups|]
    requires Tallied(before, ids, all[..skip])
    ensures Tallied(counts, ids, all[..skip + |groups|])
  {
    counts := before;
    for i := 0 to |groups|
      invariant Tallied(counts, ids, all[..skip + i])
    {
      var g: Group := groups[i];
      assert g == all[skip + i];
      ghost var longer := all[..skip + i + 1];
      forall e, s ensures Lookup(longer, e, s) ==
                          if g.eventId == e && g.status == s then g.count else Lookup(all[..skip + i], e, s) {
        LookupNext(all, skip + i, e, s);
      }
      hide Lookup, Ordered;
      if g.eventId in counts {
        var row: Counts := counts[g.eventId];
        row := row[g.status := g.count];
        counts := counts[g.eventId := row];
      }
    }
  }

  /** The counts of every event of the page, 200 groups at a time until a page comes back short. */
  method CountPage(ds: seq<Delivery>, eventIds: seq<int>) returns (counts: map<int, Counts>)
    ensures counts.Keys == set e | e in eventIds
    ensures forall e | e in eventIds :: CountsAre(counts[e], ds, e)
  {
    ghost var ids := set e | e in eventIds;
    counts := map[];
    for i := 0 to |eventIds|
      invariant counts.Keys == set e | e in eventIds[..i]
      invariant forall e, s | e in counts :: Get(counts[e], s) == 0
    {
      var empty := EmptyCounts();
      counts := counts[eventIds[i] := empty];
    }
    assert eventIds[..|eventIds|] == eventIds;
    var wanted := set e | e in eventIds;
    ghost var all := Groups(ds, wanted);
    GroupsCount(ds, wanted);
    var skip := 0;
    while true
      invariant skip <= |all|
      invariant Tallied(counts, ids, all[..skip])
      decreases |all| - skip
    {
      var page := GroupBy(ds, wanted, Some(MAX_PAGE_SIZE), skip);
      var groups := page.value;
      counts := Apply(groups, counts, all, skip, ids);
      if |groups| < MAX_PAGE_SIZE {
        assert all[..skip + |groups|] == all;
        return;
      }
      skip := skip + MAX_PAGE_SIZE;
    }
  }

  function EventIds(events: seq<Event>): (r: seq<int>)
    ensures |r| == |events| && forall i | 0 <= i < |events| :: r[i] == events[i].id
  {
    seq(|events|, i requires 0 <= i < |events| => events[i].id)
  }

  ghost predicate RolledUp(rollups: map<int, DeliveryRollup>, ds: seq<Delivery>, e: Event) {
    e.id in rollups && rollups[e.id] == Naive(e.status, OfEvent(ds, e.id))
  }

  lemma RollUpNext(rollups: map<int, DeliveryRollup>, ds: seq<Delivery>, events: seq<Event>, i: nat, r: DeliveryRollup)
    requires forall j, k | 0 <= j < k < |events| :: events[j].id != events[k].id
    requires i < |events| && r == Naive(events[i].status, OfEvent(ds, events[i].id))
    requires forall k | 0 <= k < i :: RolledUp(rollups, ds, events[k])
    ensures forall k | 0 <= k <= i :: RolledUp(rollups[events[i].id := r], ds, events[k])
  {
    hide Naive, OfEvent;
  }

  /** `rollUpDeliveries`: every event of the page gets the rollup of its own deliveries. */
  method RollUpDeliveries(ds: seq<Delivery>, events: seq<Event>) returns (rollups: map<int, DeliveryRollup>)
    requires forall i, j | 0 <= i < j < |events| :: events[i].id != events[j].id
    ensures forall id | id in rollups :: id in EventIds(events)
    ensures forall i | 0 <= i < |events| :: RolledUp(rollups, ds, events[i])
  {
    rollups := map[];
    if events == [] { return; }
    var eventIds := EventIds(events);
    var counts := CountPage(ds, eventIds);
    hide EventIds;
    for i := 0 to |events|
      invariant forall id | id in rollups :: id in eventIds
      invariant forall k | 0 <= k < i :: RolledUp(rollups, ds, events[k])
    {
      hide Naive, OfEvent, CountsAre, RolledUp;
      var e := events[i];
      assert eventIds[i] == e.id && e.id in eventIds;
      var r := RollUp(e.status, counts[e.id]);
      assert CountsAre(counts[e.id], ds, e.id);
      RollUpNext(rollups, ds, events, i, r);
      rollups := rollups[e.id := r];
    }
  }
}
