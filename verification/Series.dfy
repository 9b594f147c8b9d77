/** Chart windows and the aligned buckets that cover them
    (apps/control-api/src/analytics/analytics-window.ts:70-95,
    apps/control-api/src/analytics/delivery-series.ts:11-141). */
module Series {
  import opened Domain

  const HOUR_MS: int := 3_600_000
  const DEFAULT_WINDOW_HOURS: int := 24
  const MAX_WINDOW_HOURS: int := 720
  const MAX_BUCKETS: int := 32

  datatype Unit = Unit(name: string, widthMs: int)

  /** Bucket widths, smallest first. */
  const UNITS: seq<Unit> := [
    Unit("5m", 300_000), Unit("15m", 900_000), Unit("30m", 1_800_000), Unit("1h", 3_600_000), Unit("2h", 7_200_000),
    Unit("3h", 10_800_000), Unit("6h", 21_600_000), Unit("12h", 43_200_000), Unit("1d", 86_400_000)]

  /** Instants from `from` up to, not including, `to`, and the equally long window before. */
  datatype Window = Window(hours: int, from: int, to: int, previousFrom: int, previousTo: int)
  datatype Bucket = Bucket(start: int, end: int)
  datatype Plan = Plan(unit: Unit, buckets: seq<Bucket>, leadingPartial: bool)

  /** `resolveWindow`: a whole number of hours from 1 to 720, 24 when none is asked for, ending now. */
  function ResolveWindow(hours: Option<real>, now: int): (r: Result<Window>)
    ensures r.Ok? <==>
            hours.None? || (hours.value.Floor as real == hours.value && 1 <= hours.value.Floor <= 720)
    ensures r.Ok? ==>
              var w := r.value;
              && ValidWindow(w) && w.to == now
              && w.to - w.from == w.from - w.previousFrom && w.previousTo == w.from
              && (if hours.Some? then w.hours as real == hours.value else w.hours == 24)
    ensures r.Err? ==> r.error == InvalidRequest
  {
    var requested := if hours.Some? then hours.value else DEFAULT_WINDOW_HOURS as real;
    if requested.Floor as real != requested || requested < 1.0 then Err(InvalidRequest)
    else if requested > MAX_WINDOW_HOURS as real then Err(InvalidRequest)
    else
      var n := requested.Floor;
      var from := now - n * HOUR_MS;
      Ok(Window(n, from, now, from - n * HOUR_MS, from))
  }

  predicate ValidWindow(w: Window) {
    1 <= w.hours <= MAX_WINDOW_HOURS && w.to == w.from + w.hours * 3_600_000
  }

  // ---- The default unit ----

  function CeilDiv(a: int, b: int): int
    requires b > 0
  {
    (a + b - 1) / b
  }

  /** A window that starts and ends mid-bucket still fits. */
  predicate Fits(hours: int, i: int)
    requires 0 <= i < |UNITS|
  {
    CeilDiv(hours * HOUR_MS, UNITS[i].widthMs) + 1 <= MAX_BUCKETS
  }

  function FirstFit(hours: int, i: nat): (r: nat)
    requires i <= |UNITS|
    ensures i <= r <= |UNITS| && (forall j | i <= j < r :: !Fits(hours, j)) && (r < |UNITS| ==> Fits(hours, r))
    decreases |UNITS| - i
  {
    if i == |UNITS| || Fits(hours, i) then i else FirstFit(hours, i + 1)
  }

  function DefaultUnit(hours: int): Unit {
    var i := FirstFit(hours, 0);
    if i < |UNITS| then UNITS[i] else UNITS[|UNITS| - 1]
  }

  function FindUnit(name: string, i: nat): (r: nat)
    requires i <= |UNITS|
    ensures i <= r <= |UNITS| && (r < |UNITS| ==> UNITS[r].name == name)
    ensures forall j | i <= j < r :: UNITS[j].name != name
    decreases |UNITS| - i
  {
    if i == |UNITS| || UNITS[i].name == name then i else FindUnit(name, i + 1)
  }

  /** How long `count` of a unit is, by its letter. */
  function LengthMs(count: int, letter: char): int {
    count * if letter == 'm' then 60_000 else if letter == 'h' then 3_600_000 else 86_400_000
  }

  /** The number a name begins with, of one or two digits. */
  function Numeral(name: string): int
    requires 2 <= |name| <= 3
  {
    if |name| == 2 then name[0] as int - '0' as int
    else (name[0] as int - '0' as int) * 10 + (name[1] as int - '0' as int)
  }

  /** A name is found exactly when it is one of the nine, and stands for the time it says. */
  lemma NamedUnit(w: Window, name: string)
    ensures var u := ResolvedUnit(w, Some(name));
            && (u.Some? <==> name in {"5m", "15m", "30m", "1h", "2h", "3h", "6h", "12h", "1d"})
            && (u.Some? ==> && u.value.name == name && 2 <= |name| <= 3
                            && u.value.widthMs == LengthMs(Numeral(name), name[|name| - 1]))
  {
    var i := FindUnit(name, 0);
    if name in {"5m", "15m", "30m", "1h", "2h", "3h", "6h", "12h", "1d"} { NameIsListed(name); }
  }

  lemma NameIsListed(name: string)
    requires name in {"5m", "15m", "30m", "1h", "2h", "3h", "6h", "12h", "1d"}
    ensures exists j | 0 <= j < |UNITS| :: UNITS[j].name == name
  {
    assert UNITS[0].name == "5m" && UNITS[1].name == "15m" && UNITS[2].name == "30m" && UNITS[3].name == "1h"
        && UNITS[4].name == "2h" && UNITS[5].name == "3h" && UNITS[6].name == "6h" && UNITS[7].name == "12h"
        && UNITS[8].name == "1d";
  }

  // ---- The plan ----

  /** How many aligned buckets of `width` the window touches. */
  function BucketCount(w: Window, width: int): int
    requires width > 0
  {
    w.to / width - w.from / width + 1
  }

  predicate Aligned(start: int, width: int)
    requires width > 0
  {
    start % width == 0
  }

  /** Buckets of one width on wall-clock boundaries, each ending where the next begins. */
  ghost predicate Contiguous(buckets: seq<Bucket>, width: int)
    requires width > 0
  {
    && (forall i | 0 <= i < |buckets| :: Aligned(buckets[i].start, width) && buckets[i].end == buckets[i].start + width)
    && (forall i | 0 <= i < |buckets| - 1 :: buckets[i].end == buckets[i + 1].start)
  }

  predicate Holds(b: Bucket, t: int) { b.start <= t < b.end }

  ghost predicate ExactlyOne(buckets: seq<Bucket>, t: int) {
    && (exists i | 0 <= i < |buckets| :: Holds(buckets[i], t))
    && (forall i, j | 0 <= i < j < |buckets| :: !(Holds(buckets[i], t) && Holds(buckets[j], t)))
  }

  /** The unit a request ends up with, if it names a known one. */
  function ResolvedUnit(w: Window, unit: Option<string>): (r: Option<Unit>)
    ensures r.Some? ==> r.value.widthMs > 0
  {
    if unit.None? then Some(DefaultUnit(w.hours))
    else if FindUnit(unit.value, 0) < |UNITS| then Some(UNITS[FindUnit(unit.value, 0)])
    else None
  }

  lemma DivBounds(a: int, w: int)
    requires w > 0
    ensures a / w * w <= a < a / w * w + w
    ensures a % w == a - a / w * w
  {
    assert a == a / w * w + a % w;
  }

  lemma Grows(x: int, y: int, w: int)
    requires w > 0 && x <= y
    ensures x * w <= y * w
  {
  }

  lemma Cancel(x: int, y: int, w: int)
    requires w > 0 && x * w < y * w
    ensures x < y
  {
    if y <= x { Grows(y, x, w); }
  }

  lemma QuotientOfMultiple(k: int, w: int)
    requires w > 0
    ensures k * w / w == k && (k * w) % w == 0
  {
    var p := k * w;
    var q := p / w;
    DivBounds(p, w);
    Distributes(k, w);
    Distributes(q, w);
    Cancel(q, k + 1, w);
    Cancel(k, q + 1, w);
  }

  lemma Distributes(k: int, w: int)
    ensures (k + 1) * w == k * w + w
  {
  }

  /** Bucket `i` of a plan that starts at `q * width`. */
  function BucketAt(q: int, i: int, width: int): Bucket {
    Bucket((q + i) * width, (q + i) * width + width)
  }

  lemma PlanIsContiguous(q: int, buckets: seq<Bucket>, width: int)
    requires width > 0 && forall i | 0 <= i < |buckets| :: buckets[i] == BucketAt(q, i, width)
    ensures Contiguous(buckets, width)
  {
    forall i | 0 <= i < |buckets| ensures Aligned(buckets[i].start, width) {
      QuotientOfMultiple(q + i, width);
    }
    forall i | 0 <= i < |buckets| - 1 ensures buckets[i].end == buckets[i + 1].start {
      assert (q + i) * width + width == (q + i + 1) * width;
    }
  }

  /** Which bucket an instant falls in. */
  lemma HeldByItsBucket(q: int, i: int, width: int, t: int)
    requires width > 0
    ensures Holds(BucketAt(q, i, width), t) <==> i == t / width - q
  {
    DivBounds(t, width);
    var k := q + i;
    if Holds(BucketAt(q, i, width), t) {
      assert k * width < (t / width + 1) * width;
      Cancel(k, t / width + 1, width);
      assert t / width * width < (k + 1) * width;
      Cancel(t / width, k + 1, width);
    }
  }

  lemma Covered(w: Window, q: int, buckets: seq<Bucket>, width: int, t: int)
    requires width > 0 && q == w.from / width && w.from <= t <= w.to && |buckets| == BucketCount(w, width)
    requires forall i | 0 <= i < |buckets| :: buckets[i] == BucketAt(q, i, width)
    ensures ExactlyOne(buckets, t)
  {
    DivMonotone(w.from, t, width);
    DivMonotone(t, w.to, width);
    var k := t / width - q;
    forall i | 0 <= i < |buckets| ensures Holds(buckets[i], t) <==> i == k {
      HeldByItsBucket(q, i, width, t);
    }
    assert Holds(buckets[k], t);
  }

  lemma DivMonotone(a: int, b: int, w: int)
    requires w > 0 && a <= b
    ensures a / w <= b / w
  {
    DivBounds(a, w);
    DivBounds(b, w);
    assert a / w * w < (b / w + 1) * w;
    Cancel(a / w, b / w + 1, w);
  }

  method AlignedBuckets(q: int, count: nat, width: int) returns (buckets: seq<Bucket>)
    ensures |buckets| == count && forall i | 0 <= i < count :: buckets[i] == BucketAt(q, i, width)
  {
    buckets := [];
    var firstStart := q * width;
    for index := 0 to count
      invariant |buckets| == index
      invariant forall i | 0 <= i < index :: buckets[i] == BucketAt(q, i, width)
    {
      var start := firstStart + index * width;
      assert start == (q + index) * width;
      buckets := buckets + [Bucket(start, start + width)];
    }
  }

  lemma CountOfPlan(w: Window, width: int)
    requires width > 0
    ensures (w.to / width * width - w.from / width * width) / width + 1 == BucketCount(w, width)
  {
    var span := w.to / width - w.from / width;
    assert w.to / width * width - w.from / width * width == span * width;
    QuotientOfMultiple(span, width);
  }

  /** `planSeries`: refused past 32 buckets, and otherwise aligned buckets that hold every instant once. */
  method PlanSeries(w: Window, unit: Option<string>) returns (r: Result<Plan>)
    requires w.from <= w.to
    ensures var u := ResolvedUnit(w, unit);
            r.Ok? <==> u.Some? && BucketCount(w, u.value.widthMs) <= 32
    ensures r.Err? ==> r.error == InvalidRequest
    ensures r.Ok? ==>
              var width := r.value.unit.widthMs;
              && ResolvedUnit(w, unit) == Some(r.value.unit) && width > 0
              && 1 <= |r.value.buckets| <= 32
              && Contiguous(r.value.buckets, width)
              && (forall t | w.from <= t <= w.to :: ExactlyOne(r.value.buckets, t))
              && (r.value.leadingPartial <==> r.value.buckets[0].start != w.from)
  {
    hide ResolvedUnit;
    var resolved := ResolvedUnit(w, unit);
    if resolved.None? { return Err(InvalidRequest); }
    var width := resolved.value.widthMs;
    var q := w.from / width;
    var firstStart := q * width;
    var lastStart := w.to / width * width;
    CountOfPlan(w, width);
    var count := (lastStart - firstStart) / width + 1;
    if count > MAX_BUCKETS { return Err(InvalidRequest); }
    DivMonotone(w.from, w.to, width);
    DivBounds(w.from, width);
    var buckets := AlignedBuckets(q, count, width);
    PlanIsContiguous(q, buckets, width);
    forall t | w.from <= t <= w.to ensures ExactlyOne(buckets, t) { Covered(w, q, buckets, width, t); }
    hide Contiguous, ExactlyOne;
    r := Ok(Plan(resolved.value, buckets, firstStart < w.from));
  }

  // ---- The default is never refused, and is the finest that never is ----

  lemma CeilBounds(a: int, w: int)
    requires w > 0
    ensures a <= CeilDiv(a, w) * w < a + w
  {
    DivBounds(a + w - 1, w);
  }

  /** No clock reading needs more than one bucket past the ceiling of the span. */
  lemma CountAtMost(w: Window, width: int)
    requires ValidWindow(w) && width > 0
    ensures BucketCount(w, width) <= CeilDiv(w.hours * HOUR_MS, width) + 1
  {
    var c := CeilDiv(w.hours * HOUR_MS, width);
    DivBounds(w.from, width);
    DivBounds(w.to, width);
    CeilBounds(w.hours * HOUR_MS, width);
    var q := w.from / width;
    assert (q + 1 + c) * width == q * width + width + c * width;
    Cancel(w.to / width, q + 1 + c, width);
  }

  /** And some clock reading needs exactly that many. */
  lemma CountReached(hours: int, width: int) returns (w: Window)
    requires 1 <= hours <= MAX_WINDOW_HOURS && width > 0
    ensures ValidWindow(w) && w.hours == hours && BucketCount(w, width) == CeilDiv(hours * HOUR_MS, width) + 1
  {
    var span := hours * HOUR_MS;
    var c := CeilDiv(span, width);
    CeilBounds(span, width);
    var from := c * width - span;
    w := Window(hours, from, from + span, from - span, from);
    QuotientOfMultiple(c, width);
    DivBounds(from, width);
    Cancel(from / width, 1, width);
    Cancel(-1, from / width, width);
  }

  /** A unit is accepted at every clock reading exactly when it fits the unaligned bound. */
  lemma AlwaysAcceptedIffFits(hours: int, i: int)
    requires 1 <= hours <= MAX_WINDOW_HOURS && 0 <= i < |UNITS|
    ensures (forall w | ValidWindow(w) && w.hours == hours :: BucketCount(w, UNITS[i].widthMs) <= MAX_BUCKETS)
            <==> Fits(hours, i)
  {
    var width := UNITS[i].widthMs;
    forall w | ValidWindow(w) && w.hours == hours ensures BucketCount(w, width) <= CeilDiv(hours * HOUR_MS, width) + 1 {
      CountAtMost(w, width);
    }
    var worst := CountReached(hours, width);
  }

  /** The default bucket is never refused, and every finer one is at some clock reading. */
  lemma DefaultIsFinestAlwaysAccepted(hours: int)
    requires 1 <= hours <= MAX_WINDOW_HOURS
    ensures var i := FirstFit(hours, 0);
            && i < |UNITS| && DefaultUnit(hours) == UNITS[i]
            && (forall w | ValidWindow(w) && w.hours == hours ::
              BucketCount(w, DefaultUnit(hours).widthMs) <= MAX_BUCKETS)
            && (forall j | 0 <= j < i :: exists w | ValidWindow(w) && w.hours == hours ::
              BucketCount(w, UNITS[j].widthMs) > MAX_BUCKETS)
  {
    assert Fits(hours, |UNITS| - 1);
    var i := FirstFit(hours, 0);
    AlwaysAcceptedIffFits(hours, i);
    forall j | 0 <= j < i ensures exists w | ValidWindow(w) && w.hours == hours ::
      BucketCount(w, UNITS[j].widthMs) > MAX_BUCKETS {
      AlwaysAcceptedIffFits(hours, j);
    }
  }
}
