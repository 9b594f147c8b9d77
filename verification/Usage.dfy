/** Hourly usage rollups against the raw ledger
    (apps/control-api/src/maintenance/usage-aggregator.service.ts:65-199). */
module Usage {

  const HOUR: int := 3_600_000
  const MAX_BUCKETS_PER_RUN: int := 48

  datatype Metric = EventsIngested | Deliveries | Replays
  datatype Scope = Scope(organization: int, project: int)
  datatype Kind = Event | Delivery(replay: bool)
  /** A ledger row, created at epoch millisecond `at`. */
  datatype Row = Row(scope: Scope, kind: Kind, at: int)
  /** The unique key of a usage record; `hour` is `period_start` in whole hours. */
  datatype Key = Key(scope: Scope, metric: Metric, hour: int)
  type Table = map<Key, nat>

  function HourOf(at: int): int { at / HOUR }

  predicate Measures(m: Metric, k: Kind) {
    match m
    case EventsIngested => k.Event?
    case Deliveries => k.Delivery?
    case Replays => k.Delivery? && k.replay
  }

  predicate Belongs(r: Row, k: Key) {
    r.scope == k.scope && Measures(k.metric, r.kind) && HourOf(r.at) == k.hour
  }

  /** The grouped count of one hour. */
  function Count(ledger: seq<Row>, k: Key): nat {
    if ledger == [] then 0
    else Count(ledger[..|ledger| - 1], k) + if Belongs(ledger[|ledger| - 1], k) then 1 else 0
  }

  function Keys(ledger: seq<Row>): (ks: set<Key>)
    ensures forall k :: k in ks <==> Count(ledger, k) > 0
  {
    if ledger == [] then {}
    else
      var r := ledger[|ledger| - 1];
      Keys(ledger[..|ledger| - 1])
      + set m | m in {EventsIngested, Deliveries, Replays} && Measures(m, r.kind) :: Key(r.scope, m, HourOf(r.at))
  }

  function Get(usage: Table, k: Key): nat {
    if k in usage then usage[k] else 0
  }

  // ---- One pass ----

  /** An hour counts as rolled up as soon as any events record of it exists. */
  predicate Done(usage: Table, hour: int) {
    exists k | k in usage :: k.metric == EventsIngested && k.hour == hour
  }

  predicate Pending(usage: Table, currentHour: int, hour: int) {
    currentHour - MAX_BUCKETS_PER_RUN <= hour < currentHour && !Done(usage, hour)
  }

  /** The records of some hours, upserted over the table. */
  function Upserted(usage: Table, ledger: seq<Row>, hours: set<int>): (r: Table) {
    usage + Records(ledger, KeysIn(ledger, hours))
  }

  function Records(ledger: seq<Row>, keys: set<Key>): Table { map k | k in keys :: Count(ledger, k) }

  function KeysIn(ledger: seq<Row>, hours: set<int>): set<Key> { set k | k in Keys(ledger) && k.hour in hours }

  lemma UpsertOneMore(usage: Table, ledger: seq<Row>, hours: set<int>, hour: int)
    ensures Upserted(Upserted(usage, ledger, hours), ledger, {hour}) == Upserted(usage, ledger, hours + {hour})
  {
    hide Count, Keys;
  }

  lemma UpsertNothing(usage: Table, ledger: seq<Row>)
    ensures Upserted(usage, ledger, {}) == usage
  {
  }

  lemma KeysOneMore(ledger: seq<Row>, hours: set<int>, hour: int)
    requires hour !in hours
    ensures |KeysIn(ledger, hours + {hour})| == |KeysIn(ledger, hours)| + |KeysIn(ledger, {hour})|
  {
    hide Keys;
    assert KeysIn(ledger, hours + {hour}) == KeysIn(ledger, hours) + KeysIn(ledger, {hour});
    assert KeysIn(ledger, hours) !! KeysIn(ledger, {hour});
  }

  function ToSet(hours: seq<int>): set<int> { set h | h in hours }

  function PendingHours(usage: Table, currentHour: int): set<int> {
    set h | currentHour - MAX_BUCKETS_PER_RUN <= h < currentHour && !Done(usage, h)
  }

  /** What filling one more bucket adds, to the table and to the count of records. */
  lemma BucketOneMore(usage: Table, ledger: seq<Row>, buckets: seq<int>, i: nat)
    requires i < |buckets| && forall j, k | 0 <= j < k < |buckets| :: buckets[j] < buckets[k]
    ensures var before, after := ToSet(buckets[..i]), ToSet(buckets[..i + 1]);
            && |after| == |before| + 1
            && Upserted(Upserted(usage, ledger, before), ledger, {buckets[i]}) == Upserted(usage, ledger, after)
            && |KeysIn(ledger, after)| == |KeysIn(ledger, before)| + |KeysIn(ledger, {buckets[i]})|
  {
    var before, after := ToSet(buckets[..i]), ToSet(buckets[..i + 1]);
    assert buckets[i] !in before;
    assert before + {buckets[i]} == after;
    hide Upserted, KeysIn, ToSet;
    KeysOneMore(ledger, before, buckets[i]);
    UpsertOneMore(usage, ledger, before, buckets[i]);
  }

  function Swept(usage: Table, ledger: seq<Row>, currentHour: int): (r: Table)
    ensures forall k ::
              Get(r, k) == if Pending(usage, currentHour, k.hour) && Count(ledger, k) > 0
                           then Count(ledger, k) else Get(usage, k)
    ensures forall k :: k in r <==> k in usage || (Pending(usage, currentHour, k.hour) && Count(ledger, k) > 0)
  {
    Upserted(usage, ledger, PendingHours(usage, currentHour))
  }

  lemma {:induction false} CountSince(ledger: seq<Row>, more: seq<Row>, k: Key)
    requires forall i | 0 <= i < |more| :: HourOf(more[i].at) > k.hour
    ensures Count(ledger + more, k) == Count(ledger, k)
  {
    if more == [] {
      assert ledger + more == ledger;
    } else {
      var n := |more| - 1;
      assert (ledger + more)[..|ledger + more| - 1] == ledger + more[..n];
      CountSince(ledger, more[..n], k);
    }
  }

  /** A repeated pass changes nothing, whatever was recorded meanwhile in the hour it runs in. */
  lemma SweepTwice(usage: Table, ledger: seq<Row>, more: seq<Row>, currentHour: int)
    requires forall i | 0 <= i < |more| :: HourOf(more[i].at) >= currentHour
    ensures Swept(Swept(usage, ledger, currentHour), ledger + more, currentHour) == Swept(usage, ledger, currentHour)
  {
    var once := Swept(usage, ledger, currentHour);
    var twice := Swept(once, ledger + more, currentHour);
    hide Swept, Count, HourOf;
    forall h | Pending(once, currentHour, h) ensures Pending(usage, currentHour, h) {
      assert forall k | k in usage :: k in once;
    }
    forall k: Key | k.hour < currentHour ensures Count(ledger + more, k) == Count(ledger, k) {
      CountSince(ledger, more, k);
    }
    assert forall h | Pending(once, currentHour, h) :: h < currentHour;
    hide Pending;
    forall k ensures k in twice <==> k in once {}
    forall k | k in once ensures twice[k] == once[k] {
      assert Get(twice, k) == Get(once, k);
    }
  }

  // ---- Runs ----

  datatype Step = Record(scope: Scope, kind: Kind) | Advance(ms: nat) | Pass(locked: bool)
  /** `passes` remembers the current hour of each completed pass. */
  datatype System = System(ledger: seq<Row>, usage: Table, clock: int, passes: seq<int>)

  function Do(s: System, step: Step): (r: System) {
    match step
    case Record(scope, kind) => s.(ledger := s.ledger + [Row(scope, kind, s.clock)])
    case Advance(ms) => s.(clock := s.clock + ms)
    case Pass(locked) =>
      if !locked then s
      else s.(usage := Swept(s.usage, s.ledger, HourOf(s.clock)), passes := s.passes + [HourOf(s.clock)])
  }

  function Run(s: System, steps: seq<Step>): (r: System) {
    if steps == [] then s else Do(Run(s, steps[..|steps| - 1]), steps[|steps| - 1])
  }

  /** The system before its first pass: any ledger written so far, and no usage records. */
  predicate Initial(s: System) {
    s.usage == map[] && s.passes == [] && forall i | 0 <= i < |s.ledger| :: s.ledger[i].at <= s.clock
  }

  predicate Close(passes: seq<int>) {
    forall i | 0 < i < |passes| :: passes[i] - passes[i - 1] <= 48
  }

  function First(s: System): int
    requires s.passes != []
  {
    s.passes[0] - 48
  }

  function Last(s: System): int
    requires s.passes != []
  {
    s.passes[|s.passes| - 1]
  }

  /** Between the first lookback and the latest pass the records are exact, and nothing else is recorded. */
  ghost predicate Exact(s: System) {
    && (s.passes == [] ==> s.usage == map[])
    && (s.passes != [] ==> s.passes[0] <= Last(s) <= HourOf(s.clock))
    && (forall i | 0 <= i < |s.ledger| :: s.ledger[i].at <= s.clock)
    && (s.passes != [] ==> forall k: Key | First(s) <= k.hour < Last(s) :: Get(s.usage, k) == Count(s.ledger, k))
    && (s.passes != [] ==> forall k | k in s.usage :: First(s) <= k.hour < Last(s))
  }

  lemma HourIsMonotone(a: int, b: int)
    requires a <= b
    ensures HourOf(a) <= HourOf(b)
  {
  }

  lemma PassKeepsExact(s: System)
    requires Exact(s) && Close(s.passes + [HourOf(s.clock)])
    ensures Exact(Do(s, Pass(true)))
  {
    var r := Do(s, Pass(true));
    var now := HourOf(s.clock);
    assert r.passes[|s.passes|] == now;
    if s.passes != [] { assert r.passes[|s.passes| - 1] == Last(s) && now - Last(s) <= MAX_BUCKETS_PER_RUN; }
    hide Count, Swept, HourOf;
    forall k: Key | First(r) <= k.hour < now ensures Get(r.usage, k) == Count(r.ledger, k) {
      if s.passes != [] && k.hour < Last(s) {
        assert Get(s.usage, k) == Count(s.ledger, k);
      } else {
        assert k !in s.usage;
        assert !Done(s.usage, k.hour);
      }
    }
    forall k | k in r.usage ensures First(r) <= k.hour < now {
      if k in s.usage { assert First(s) <= k.hour < Last(s); }
    }
  }

  lemma StepKeepsExact(s: System, step: Step)
    requires Exact(s) && Close(Do(s, step).passes)
    ensures Exact(Do(s, step))
  {
    if step == Pass(true) {
      PassKeepsExact(s);
    } else {
      var r := Do(s, step);
      HourIsMonotone(s.clock, r.clock);
      if step.Record? {
        assert r.ledger[..|r.ledger| - 1] == s.ledger;
        forall k: Key | s.passes != [] && k.hour < Last(s) ensures Count(r.ledger, k) == Count(s.ledger, k) {}
      }
    }
  }

  lemma {:induction false} EveryRunIsExact(s: System, steps: seq<Step>)
    requires Initial(s) && Close(Run(s, steps).passes)
    ensures Exact(Run(s, steps))
  {
    if steps != [] {
      var before := Run(s, steps[..|steps| - 1]);
      var after := Run(s, steps);
      assert forall i | 0 <= i < |before.passes| :: after.passes[i] == before.passes[i];
      EveryRunIsExact(s, steps[..|steps| - 1]);
      hide Run, Exact;
      StepKeepsExact(before, steps[|steps| - 1]);
    }
  }

  // ---- Whole-hour ranges ----

  /** What a bill adds up: the records of the hours `lo` up to `hi`. */
  function Billed(usage: Table, scope: Scope, m: Metric, lo: int, hi: int): nat
    requires lo <= hi
    decreases hi - lo
  {
    if lo == hi then 0 else Billed(usage, scope, m, lo, hi - 1) + Get(usage, Key(scope, m, hi - 1))
  }

  // The rows each query of the service counts, scope by scope.
  function EventsOf(scope: Scope): Row -> bool { (r: Row) => r.scope == scope && r.kind == Event }
  function DeliveriesOf(scope: Scope): Row -> bool { (r: Row) => r.scope == scope && r.kind.Delivery? }
  function ReplaysOf(scope: Scope): Row -> bool { (r: Row) => r.scope == scope && r.kind == Delivery(true) }

  /** The direct count: ledger rows created from the start of hour `lo` to the start of hour `hi`. */
  function Direct(ledger: seq<Row>, keep: Row -> bool, lo: int, hi: int): nat {
    if ledger == [] then 0
    else
      var r := ledger[|ledger| - 1];
      Direct(ledger[..|ledger| - 1], keep, lo, hi) + if keep(r) && lo * 3_600_000 <= r.at < hi * 3_600_000 then 1 else 0
  }

  /** The rows of one metric, whichever it is. */
  function RowsOf(scope: Scope, m: Metric): Row -> bool {
    match m
    case EventsIngested => EventsOf(scope)
    case Deliveries => DeliveriesOf(scope)
    case Replays => ReplaysOf(scope)
  }

  lemma HourBounds(at: int, hour: int)
    ensures HourOf(at) == hour <==> hour * HOUR <= at < (hour + 1) * HOUR
  {
  }

  /** The grouped count of an hour is the direct one: events are the event rows, deliveries all delivery
      rows, replays those made by a replay. */
  lemma {:induction false} CountIsDirect(ledger: seq<Row>, scope: Scope, m: Metric, hour: int)
    ensures Count(ledger, Key(scope, m, hour)) == Direct(ledger, RowsOf(scope, m), hour, hour + 1)
  {
    if ledger != [] {
      CountIsDirect(ledger[..|ledger| - 1], scope, m, hour);
      HourBounds(ledger[|ledger| - 1].at, hour);
    }
  }

  lemma {:induction false} DirectSplits(ledger: seq<Row>, keep: Row -> bool, lo: int, hi: int)
    requires lo < hi
    ensures Direct(ledger, keep, lo, hi) == Direct(ledger, keep, lo, hi - 1) + Direct(ledger, keep, hi - 1, hi)
  {
    if ledger != [] { DirectSplits(ledger[..|ledger| - 1], keep, lo, hi); }
  }

  lemma {:induction false} DirectOfNothing(ledger: seq<Row>, keep: Row -> bool, lo: int)
    ensures Direct(ledger, keep, lo, lo) == 0
  {
    if ledger != [] { DirectOfNothing(ledger[..|ledger| - 1], keep, lo); }
  }

  lemma {:induction false} BilledIsDirect(usage: Table, ledger: seq<Row>, scope: Scope, m: Metric, lo: int, hi: int)
    requires lo <= hi
    requires forall k: Key | lo <= k.hour < hi :: Get(usage, k) == Count(ledger, k)
    ensures Billed(usage, scope, m, lo, hi) == Direct(ledger, RowsOf(scope, m), lo, hi)
    decreases hi - lo
  {
    if lo == hi {
      DirectOfNothing(ledger, RowsOf(scope, m), lo);
    } else {
      BilledIsDirect(usage, ledger, scope, m, lo, hi - 1);
      DirectSplits(ledger, RowsOf(scope, m), lo, hi);
      CountIsDirect(ledger, scope, m, hi - 1);
      assert Get(usage, Key(scope, m, hi - 1)) == Count(ledger, Key(scope, m, hi - 1));
    }
  }

  lemma {:induction false} DirectGrows(ledger: seq<Row>, scope: Scope, lo: int, hi: int)
    ensures Direct(ledger, ReplaysOf(scope), lo, hi) <= Direct(ledger, DeliveriesOf(scope), lo, hi)
  {
    if ledger != [] { DirectGrows(ledger[..|ledger| - 1], scope, lo, hi); }
  }

  /** However far apart the passes are, none records the hour it runs in or a later one. */
  lemma {:induction false} CurrentHourIsUnwritten(s: System, steps: seq<Step>)
    requires Initial(s)
    ensures var r := Run(s, steps); forall k | k in r.usage :: k.hour < HourOf(r.clock)
  {
    if steps != [] {
      var before, after := Run(s, steps[..|steps| - 1]), Run(s, steps);
      CurrentHourIsUnwritten(s, steps[..|steps| - 1]);
      HourIsMonotone(before.clock, after.clock);
      hide HourOf, Count, Swept;
    }
  }

  /** Passes at most 48 hours apart bill every whole-hour range since the first lookback exactly: its
      event rows, its delivery rows with the replayed ones among them, and those again as replays. */
  lemma BillsAreTrue(s: System, steps: seq<Step>, scope: Scope, lo: int, hi: int)
    requires Initial(s)
    ensures var r := Run(s, steps);
            Close(r.passes) && r.passes != [] && First(r) <= lo <= hi <= Last(r) ==>
              && Billed(r.usage, scope, EventsIngested, lo, hi) == Direct(r.ledger, EventsOf(scope), lo, hi)
              && Billed(r.usage, scope, Deliveries, lo, hi) == Direct(r.ledger, DeliveriesOf(scope), lo, hi)
              && Billed(r.usage, scope, Replays, lo, hi) == Direct(r.ledger, ReplaysOf(scope), lo, hi)
              && Billed(r.usage, scope, Replays, lo, hi) <= Billed(r.usage, scope, Deliveries, lo, hi)
  {
    var r := Run(s, steps);
    if Close(r.passes) && r.passes != [] && First(r) <= lo <= hi <= Last(r) {
      EveryRunIsExact(s, steps);
      BilledIsDirect(r.usage, r.ledger, scope, EventsIngested, lo, hi);
      BilledIsDirect(r.usage, r.ledger, scope, Deliveries, lo, hi);
      BilledIsDirect(r.usage, r.ledger, scope, Replays, lo, hi);
      DirectGrows(r.ledger, scope, lo, hi);
    }
  }

  // ---- A pass cut short ----

  /** The records of an hour in the order they are written: events first. */
  ghost predicate WriteOrder(order: seq<Key>, ledger: seq<Row>, hour: int) {
    && (forall k :: k in order <==> k.hour == hour && Count(ledger, k) > 0)
    && (forall i, j | 0 <= i < j < |order| :: order[i] != order[j])
    && (forall i, j | 0 <= i < j < |order| && order[j].metric == EventsIngested :: order[i].metric == EventsIngested)
  }

  /** The table after a crash that let only the first `n` records of an hour through. */
  function CutShort(usage: Table, ledger: seq<Row>, order: seq<Key>, n: nat): (r: Table)
    requires n <= |order|
  {
    usage + map k | k in order[..n] :: Count(ledger, k)
  }

  ghost predicate HourExact(usage: Table, ledger: seq<Row>, hour: int) {
    forall k: Key | k.hour == hour :: Get(usage, k) == Count(ledger, k)
  }

  /** The next pass repairs a cut-short hour exactly when nothing of it was written, or it had no
      events, or all of it was written. */
  lemma RepairedIff(usage: Table, ledger: seq<Row>, order: seq<Key>, n: nat, hour: int, currentHour: int)
    requires WriteOrder(order, ledger, hour) && n <= |order|
    requires currentHour - MAX_BUCKETS_PER_RUN <= hour < currentHour
    requires forall k | k in usage :: k.hour != hour
    ensures HourExact(Swept(CutShort(usage, ledger, order, n), ledger, currentHour), ledger, hour) <==>
            n == 0 || n == |order| || order[0].metric != EventsIngested
  {
    if n == 0 || order[0].metric != EventsIngested {
      RepairedWithoutEvents(usage, ledger, order, n, hour, currentHour);
    } else {
      DoneWithEvents(usage, ledger, order, n, hour, currentHour);
    }
  }

  lemma RepairedWithoutEvents(
    usage: Table, ledger: seq<Row>, order: seq<Key>, n: nat, hour: int, currentHour: int)
    requires WriteOrder(order, ledger, hour) && n <= |order| && (n == 0 || order[0].metric != EventsIngested)
    requires currentHour - MAX_BUCKETS_PER_RUN <= hour < currentHour
    requires forall k | k in usage :: k.hour != hour
    ensures HourExact(Swept(CutShort(usage, ledger, order, n), ledger, currentHour), ledger, hour)
  {
    var cut := CutShort(usage, ledger, order, n);
    hide Swept, Count;
    assert forall k | k in order[..n] :: k.metric != EventsIngested;
    assert Pending(cut, currentHour, hour);
    forall k: Key | k.hour == hour ensures Get(Swept(cut, ledger, currentHour), k) == Count(ledger, k) {}
  }

  lemma DoneWithEvents(usage: Table, ledger: seq<Row>, order: seq<Key>, n: nat, hour: int, currentHour: int)
    requires WriteOrder(order, ledger, hour) && 0 < n <= |order| && order[0].metric == EventsIngested
    requires forall k | k in usage :: k.hour != hour
    ensures HourExact(Swept(CutShort(usage, ledger, order, n), ledger, currentHour), ledger, hour) <==> n == |order|
  {
    var cut := CutShort(usage, ledger, order, n);
    var next := Swept(cut, ledger, currentHour);
    hide Swept, Count;
    assert order[0] in order[..n] && order[0] in order && order[0] in cut;
    assert Done(cut, hour);
    assert forall k: Key | k.hour == hour :: Get(next, k) == Get(cut, k);
    hide Done, Pending;
    if n < |order| {
      var lost := order[n];
      assert lost in order && lost !in order[..n];
      assert Get(next, lost) == 0 && Count(ledger, lost) > 0;
    } else {
      assert order[..n] == order;
      forall k: Key | k.hour == hour ensures Get(next, k) == Count(ledger, k) {}
    }
  }

  /** A completed pass: the ledger it counted and the hour it ran in. */
  datatype Later = Later(ledger: seq<Row>, currentHour: int)

  function AfterPasses(usage: Table, passes: seq<Later>): (r: Table) {
    if passes == [] then usage
    else
      var p := passes[|passes| - 1];
      Swept(AfterPasses(usage, passes[..|passes| - 1]), p.ledger, p.currentHour)
  }

  /** An hour with an events record is never written again, by any later pass over any ledger. */
  lemma {:induction false} DoneIsFrozen(usage: Table, passes: seq<Later>, k: Key)
    requires Done(usage, k.hour)
    ensures Done(AfterPasses(usage, passes), k.hour) && Get(AfterPasses(usage, passes), k) == Get(usage, k)
  {
    if passes != [] {
      var before := AfterPasses(usage, passes[..|passes| - 1]);
      DoneIsFrozen(usage, passes[..|passes| - 1], k);
      var e :| e in before && e.metric == EventsIngested && e.hour == k.hour;
      hide Swept, Count;
      assert e in AfterPasses(usage, passes);
    }
  }

  /** So an hour with events that was cut short part of the way stays wrong whatever passes follow. */
  lemma NeverMadeGood(usage: Table, ledger: seq<Row>, order: seq<Key>, n: nat, hour: int, passes: seq<Later>)
    requires WriteOrder(order, ledger, hour) && 0 < n < |order| && order[0].metric == EventsIngested
    requires forall k | k in usage :: k.hour != hour
    ensures !HourExact(AfterPasses(CutShort(usage, ledger, order, n), passes), ledger, hour)
  {
    var cut, lost := CutShort(usage, ledger, order, n), order[n];
    assert order[0] in order[..n] && order[0] in cut && order[0] in order;
    assert lost in order && lost !in order[..n];
    hide AfterPasses, Count;
    DoneIsFrozen(cut, passes, lost);
  }

  lemma CountOfTwo(a: Row, b: Row, k: Key)
    ensures Count([a, b], k) == (if Belongs(a, k) then 1 else 0) + if Belongs(b, k) then 1 else 0
  {
    assert [a, b][..1] == [a] && [a][..0] == [];
    assert Count([a], k) == if Belongs(a, k) then 1 else 0;
  }

  /** A crash after one record of a two-record hour is never made good. */
  lemma CrashHalfwayLosesARecord(passes: seq<Later>)
    ensures exists ledger: seq<Row>, order ::
              && WriteOrder(order, ledger, 0) && |order| == 2
              && !HourExact(AfterPasses(CutShort(map[], ledger, order, 1), passes), ledger, 0)
  {
    var scope := Scope(1, 1);
    var a, b := Row(scope, Event, 0), Row(scope, Delivery(false), 0);
    var order := [Key(scope, EventsIngested, 0), Key(scope, Deliveries, 0)];
    hide AfterPasses, Count, CutShort, HourExact;
    forall k ensures k in order <==> k.hour == 0 && Count([a, b], k) > 0 { CountOfTwo(a, b, k); }
    hide Belongs;
    NeverMadeGood(map[], [a, b], order, 1, 0, passes);
  }

  // ---- The service ----

  datatype Report = Report(skipped: bool, buckets: nat, rows: nat, truncated: bool)

  class UsageAggregator {
    var ledger: seq<Row>
    var usage: Table

    /** The complete hours of the last two days with no events record yet, oldest first. */
    method PendingBuckets(now: int) returns (pending: seq<int>)
      ensures |pending| <= 48
      ensures forall h :: h in pending <==> Pending(usage, HourOf(now), h)
      ensures forall i, j | 0 <= i < j < |pending| :: pending[i] < pending[j]
    {
      var currentHour := HourOf(now);
      var oldest := currentHour - MAX_BUCKETS_PER_RUN;
      var done := set k | k in usage && k.metric == EventsIngested && k.hour >= oldest :: k.hour;
      pending := [];
      var start := oldest;
      while start < currentHour
        invariant oldest <= start <= currentHour && |pending| <= start - oldest
        invariant forall h :: h in pending <==> oldest <= h < start && !Done(usage, h)
        invariant forall i, j | 0 <= i < j < |pending| :: pending[i] < pending[j]
      {
        assert forall i | 0 <= i < |pending| :: pending[i] in pending;
        assert start in done <==> Done(usage, start);
        if start !in done { pending := pending + [start]; }
        start := start + 1;
      }
    }

    /** Counts one hour, for every project and metric with any activity in it. */
    method Fill(hour: int) returns (rows: nat)
      modifies this`usage
      ensures usage == Upserted(old(usage), ledger, {hour}) && rows == |KeysIn(ledger, {hour})|
    {
      var left := KeysIn(ledger, {hour});
      rows := |left|;
      ghost var all := left;
      hide Keys, KeysIn, Count;
      while left != {}
        invariant left <= all
        invariant usage == old(usage) + Records(ledger, all - left)
        decreases left
      {
        var k :| k in left;
        usage := usage[k := Count(ledger, k)];
        left := left - {k};
      }
      assert all - left == all;
    }

    method Sweep(now: int, locked: bool) returns (report: Report)
      modifies this`usage
      ensures !locked ==> usage == old(usage) && report == Report(true, 0, 0, false)
      ensures locked ==> usage == Swept(old(usage), ledger, HourOf(now))
      ensures locked ==>
                && !report.skipped
                && report.buckets == |PendingHours(old(usage), HourOf(now))|
                && report.rows == |KeysIn(ledger, PendingHours(old(usage), HourOf(now)))|
      ensures !report.truncated && report.buckets <= MAX_BUCKETS_PER_RUN
    {
      if !locked { return Report(true, 0, 0, false); }
      var buckets := PendingBuckets(now);
      var rows := 0;
      UpsertNothing(usage, ledger);
      assert ToSet(buckets[..0]) == {};
      assert ToSet(buckets) == PendingHours(usage, HourOf(now));
      assert KeysIn(ledger, {}) == {};
      hide PendingHours, Pending, Keys, Count;
      for i := 0 to |buckets|
        invariant usage == Upserted(old(usage), ledger, ToSet(buckets[..i]))
        invariant |ToSet(buckets[..i])| == i && rows == |KeysIn(ledger, ToSet(buckets[..i]))|
      {
        BucketOneMore(old(usage), ledger, buckets, i);
        hide Upserted, KeysIn, ToSet;
        var filled := Fill(buckets[i]);
        rows := rows + filled;
      }
      assert buckets[..|buckets|] == buckets;
      report := Report(false, |buckets|, rows, |buckets| > MAX_BUCKETS_PER_RUN);
    }
  }
}
