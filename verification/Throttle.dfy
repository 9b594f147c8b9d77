/** The fixed-window throttle: its windows, what a run of requests is admitted, and the guard's rule
    (apps/control-api/src/common/throttle.store.ts:18-67,
    apps/control-api/src/common/throttle.guard.ts:70-93). */
module Throttle {

  datatype Window = Window(count: nat, resetAt: int)
  type Windows = map<string, Window>

  /** One charge of a key, at the instant the clock showed. */
  datatype Charge = Charge(key: string, windowMs: int, now: int)

  /** The window a charge falls in, itself counted. */
  function Charged(ws: Windows, c: Charge): (w: Window) {
    if c.key !in ws || ws[c.key].resetAt <= c.now then Window(1, c.now + c.windowMs)
    else ws[c.key].(count := ws[c.key].count + 1)
  }

  /** A store that never sweeps. */
  function Hit(ws: Windows, c: Charge): (r: Windows) {
    ws[c.key := Charged(ws, c)]
  }

  function HitAll(ws: Windows, cs: seq<Charge>): (r: Windows)
    decreases cs
  {
    if cs == [] then ws else HitAll(Hit(ws, cs[0]), cs[1..])
  }

  /** The answers a run of charges gets. */
  function Answers(ws: Windows, cs: seq<Charge>): (r: seq<Window>)
    ensures |r| == |cs|
    decreases cs
  {
    if cs == [] then [] else [Charged(ws, cs[0])] + Answers(Hit(ws, cs[0]), cs[1..])
  }

  predicate InOrder(cs: seq<Charge>) {
    forall i, j | 0 <= i <= j < |cs| :: cs[i].now <= cs[j].now
  }

  // ---- How much one span admits ----

  predicate Within(c: Charge, key: string, lo: int, hi: int) {
    c.key == key && lo <= c.now < hi
  }

  /** The charges of `key` in `[lo, hi)` answered with at most `limit`. */
  function Admitted(ws: Windows, cs: seq<Charge>, key: string, limit: nat, lo: int, hi: int): nat
    decreases cs
  {
    if cs == [] then 0
    else
      Admitted(Hit(ws, cs[0]), cs[1..], key, limit, lo, hi)
      + if Within(cs[0], key, lo, hi) && Charged(ws, cs[0]).count <= limit then 1 else 0
  }

  /** What is already used of the window open on `key`. */
  function Used(ws: Windows, key: string, limit: nat): (n: nat)
    ensures n <= limit
  {
    if key !in ws then 0 else if ws[key].count <= limit then ws[key].count else limit
  }

  lemma {:induction false} NothingPastTheSpan(ws: Windows, cs: seq<Charge>, key: string, limit: nat, lo: int, hi: int)
    requires forall i | 0 <= i < |cs| :: hi <= cs[i].now
    ensures Admitted(ws, cs, key, limit, lo, hi) == 0
    decreases cs
  {
    if cs != [] { NothingPastTheSpan(Hit(ws, cs[0]), cs[1..], key, limit, lo, hi); }
  }

  /** One window that outlives the span admits at most what is left of it. */
  lemma {:induction false} OneWindow(ws: Windows, cs: seq<Charge>, key: string, limit: nat, lo: int, hi: int)
    requires InOrder(cs) && key in ws && hi <= ws[key].resetAt
    ensures Admitted(ws, cs, key, limit, lo, hi) + Used(ws, key, limit) <= limit
    decreases cs
  {
    if cs != [] {
      if cs[0].now < hi {
        OneWindow(Hit(ws, cs[0]), cs[1..], key, limit, lo, hi);
      } else {
        NothingPastTheSpan(ws, cs, key, limit, lo, hi);
      }
    }
  }

  predicate OneLength(cs: seq<Charge>, key: string, windowMs: int) {
    forall i | 0 <= i < |cs| && cs[i].key == key :: cs[i].windowMs == windowMs
  }

  /** From the first charge of the span on, only the window then open and one more can be met. */
  lemma {:induction false} TwoWindows(ws: Windows, cs: seq<Charge>, key: string, limit: nat, lo: int, windowMs: int)
    requires InOrder(cs) && OneLength(cs, key, windowMs)
    requires forall i | 0 <= i < |cs| :: lo <= cs[i].now
    ensures Admitted(ws, cs, key, limit, lo, lo + windowMs) + Used(ws, key, limit) <= 2 * limit
    ensures key !in ws ==> Admitted(ws, cs, key, limit, lo, lo + windowMs) <= limit
    decreases cs
  {
    if cs != [] {
      var c := cs[0];
      if c.now >= lo + windowMs {
        NothingPastTheSpan(ws, cs, key, limit, lo, lo + windowMs);
      } else if c.key == key && (key !in ws || ws[key].resetAt <= c.now) {
        OneWindow(Hit(ws, c), cs[1..], key, limit, lo, lo + windowMs);
      } else {
        TwoWindows(Hit(ws, c), cs[1..], key, limit, lo, windowMs);
      }
    }
  }

  /** Any span of one window length admits at most twice the limit, from any state of the store, and one
      less than that where every window on record has been hit. */
  lemma {:induction false} SpanAdmitsTwiceTheLimit(ws: Windows, cs: seq<Charge>, key: string, limit: nat, lo: int,
      windowMs: int)
    requires InOrder(cs) && OneLength(cs, key, windowMs)
    ensures Admitted(ws, cs, key, limit, lo, lo + windowMs) <= 2 * limit
    ensures limit >= 1 && (key in ws ==> ws[key].count >= 1) ==>
              Admitted(ws, cs, key, limit, lo, lo + windowMs) <= 2 * limit - 1
    decreases cs
  {
    if cs != [] {
      if cs[0].now < lo {
        SpanAdmitsTwiceTheLimit(Hit(ws, cs[0]), cs[1..], key, limit, lo, windowMs);
      } else {
        TwoWindows(ws, cs, key, limit, lo, windowMs);
      }
    }
  }

  /** A run of `n` equal charges. */
  function Burst(key: string, windowMs: int, now: int, n: nat): (cs: seq<Charge>) {
    if n == 0 then [] else [Charge(key, windowMs, now)] + Burst(key, windowMs, now, n - 1)
  }

  lemma {:induction false} BurstAdmits(ws: Windows, key: string, windowMs: int, now: int, n: nat, limit: nat, lo: int,
      hi: int)
    requires key in ws && now < ws[key].resetAt && lo <= now < hi && ws[key].count + n <= limit
    ensures Admitted(ws, Burst(key, windowMs, now, n), key, limit, lo, hi) == n
    ensures HitAll(ws, Burst(key, windowMs, now, n)) == ws[key := ws[key].(count := ws[key].count + n)]
    decreases n
  {
    if n > 0 {
      var c := Charge(key, windowMs, now);
      BurstAdmits(Hit(ws, c), key, windowMs, now, n - 1, limit, lo, hi);
    }
  }

  /** The bound is met: one early charge, the rest of its window at the end of it, and a full window after. */
  lemma BoundIsMet(key: string, windowMs: int, limit: nat)
    requires windowMs >= 2 && limit >= 1
    ensures var early, late := Charge(key, windowMs, 0), Burst(key, windowMs, windowMs - 1, limit - 1);
            var cs := [early] + (late + Burst(key, windowMs, windowMs, limit));
            Admitted(map[], cs, key, limit, windowMs - 1, windowMs - 1 + windowMs) == 2 * limit - 1
  {
    var early := Charge(key, windowMs, 0);
    var late, full := Burst(key, windowMs, windowMs - 1, limit - 1), Burst(key, windowMs, windowMs, limit);
    var lo, hi := windowMs - 1, windowMs - 1 + windowMs;
    var first := Hit(map[], early);
    assert first == map[key := Window(1, windowMs)];
    BurstAdmits(first, key, windowMs, windowMs - 1, limit - 1, limit, lo, hi);
    FullWindow(HitAll(first, late), key, windowMs, windowMs, limit, lo, hi);
    AdmittedConcat(first, late, full, key, limit, lo, hi);
    hide Burst, HitAll, Hit;
    assert ([early] + (late + full))[1..] == late + full;
  }

  /** A span closed at both ends is met by no third window either. */
  lemma {:induction false} TwoWindowsClosed(
    ws: Windows, cs: seq<Charge>, key: string, limit: nat, lo: int, windowMs: int)
    requires InOrder(cs) && OneLength(cs, key, windowMs) && windowMs >= 1
    requires forall i | 0 <= i < |cs| :: lo <= cs[i].now
    ensures Admitted(ws, cs, key, limit, lo, lo + windowMs + 1) <= 2 * limit
    ensures key in ws && ws[key].resetAt > lo ==>
              Admitted(ws, cs, key, limit, lo, lo + windowMs + 1) + Used(ws, key, limit) <= 2 * limit
    decreases cs
  {
    if cs != [] {
      var c := cs[0];
      if c.now > lo + windowMs {
        NothingPastTheSpan(ws, cs, key, limit, lo, lo + windowMs + 1);
      } else if c.key == key && (key !in ws || ws[key].resetAt <= c.now) && c.now > lo {
        OneWindow(Hit(ws, c), cs[1..], key, limit, lo, lo + windowMs + 1);
      } else {
        TwoWindowsClosed(Hit(ws, c), cs[1..], key, limit, lo, windowMs);
      }
    }
  }

  /** With both ends counted, any span of one window length admits at most twice the limit. */
  lemma {:induction false} ClosedSpanAdmitsTwiceTheLimit(
    ws: Windows, cs: seq<Charge>, key: string, limit: nat, lo: int, windowMs: int)
    requires InOrder(cs) && OneLength(cs, key, windowMs) && windowMs >= 1
    ensures Admitted(ws, cs, key, limit, lo, lo + windowMs + 1) <= 2 * limit
    decreases cs
  {
    if cs != [] {
      if cs[0].now < lo {
        ClosedSpanAdmitsTwiceTheLimit(Hit(ws, cs[0]), cs[1..], key, limit, lo, windowMs);
      } else {
        TwoWindowsClosed(ws, cs, key, limit, lo, windowMs);
      }
    }
  }

  lemma {:induction false} FullWindow(ws: Windows, key: string, windowMs: int, now: int, limit: nat, lo: int, hi: int)
    requires windowMs >= 1 && lo <= now < hi && limit >= 1 && (key in ws ==> ws[key].resetAt <= now)
    ensures Admitted(ws, Burst(key, windowMs, now, limit), key, limit, lo, hi) == limit
    ensures HitAll(ws, Burst(key, windowMs, now, limit)) == ws[key := Window(limit, now + windowMs)]
  {
    var c := Charge(key, windowMs, now);
    BurstAdmits(Hit(ws, c), key, windowMs, now, limit - 1, limit, lo, hi);
    assert Burst(key, windowMs, now, limit)[1..] == Burst(key, windowMs, now, limit - 1);
  }

  /** And that is met, from an empty store: a full window from the first instant, a full one at the last. */
  lemma ClosedBoundIsMet(key: string, windowMs: int, limit: nat)
    requires windowMs >= 1 && limit >= 1
    ensures var cs := Burst(key, windowMs, 0, limit) + Burst(key, windowMs, windowMs, limit);
            Admitted(map[], cs, key, limit, 0, windowMs + 1) == 2 * limit
  {
    hide Burst, HitAll, Admitted;
    FullWindow(map[], key, windowMs, 0, limit, 0, windowMs + 1);
    FullWindow(HitAll(map[], Burst(key, windowMs, 0, limit)), key, windowMs, windowMs, limit, 0, windowMs + 1);
    AdmittedConcat(map[], Burst(key, windowMs, 0, limit), Burst(key, windowMs, windowMs, limit), key, limit, 0,
      windowMs + 1);
  }

  // ---- The sweeping store refines the one that never sweeps ----

  /** The swept table agrees with the reference on every window still open. */
  predicate Agrees(swept: Windows, all: Windows, clock: int) {
    && (forall k | k in swept :: k in all && all[k] == swept[k])
    && (forall k | k in all && k !in swept :: all[k].resetAt <= clock)
  }

  lemma HitAgrees(swept: Windows, all: Windows, clock: int, c: Charge)
    requires Agrees(swept, all, clock) && clock <= c.now
    ensures Charged(swept, c) == Charged(all, c)
    ensures Agrees(Hit(swept, c), Hit(all, c), c.now)
  {
  }

  class InMemoryThrottleStore {
    var windows: Windows
    var sweepCountdown: int
    /** The never-swept windows of the same run, and the latest instant seen. */
    ghost var reference: Windows
    ghost var clock: int

    ghost predicate Valid()
      reads this
    {
      Agrees(windows, reference, clock)
    }

    constructor (now: int)
      ensures Valid() && reference == map[] && clock == now
    {
      windows, sweepCountdown := map[], 1000;
      reference, clock := map[], now;
    }

    method MaybeSweep(now: int)
      requires Valid() && clock <= now
      modifies this`windows, this`sweepCountdown, this`clock
      ensures Valid() && clock == now
      ensures windows.Keys == if old(sweepCountdown) > 1 then old(windows.Keys)
                              else set k | k in old(windows) && old(windows)[k].resetAt > now
      ensures sweepCountdown == if old(sweepCountdown) > 1 then old(sweepCountdown) - 1 else 1000
    {
      clock := now;
      sweepCountdown := sweepCountdown - 1;
      if sweepCountdown > 0 { return; }
      sweepCountdown := 1000;
      ghost var before := windows;
      var left := windows.Keys;
      while left != {}
        invariant left <= before.Keys
        invariant windows == map k | k in before && (k in left || before[k].resetAt > now) :: before[k]
        invariant windows.Keys <= before.Keys
        modifies this`windows
        decreases left
      {
        var key :| key in left;
        if windows[key].resetAt <= now {
          windows := windows - {key};
        }
        left := left - {key};
      }
    }

    method HitKey(key: string, windowMs: int, now: int) returns (hit: Window)
      requires Valid() && clock <= now
      modifies this
      ensures Valid() && clock == now
      ensures hit == Charged(old(reference), Charge(key, windowMs, now))
      ensures reference == Hit(old(reference), Charge(key, windowMs, now))
    {
      MaybeSweep(now);
      ghost var c := Charge(key, windowMs, now);
      HitAgrees(windows, reference, clock, c);
      reference := Hit(reference, c);
      if key !in windows || windows[key].resetAt <= now {
        hit := Window(1, now + windowMs);
      } else {
        hit := windows[key].(count := windows[key].count + 1);
      }
      windows := windows[key := hit];
    }

    method Reset(key: string)
      requires Valid()
      modifies this
      ensures Valid() && clock == old(clock) && reference == old(reference) - {key}
    {
      windows := windows - {key};
      reference := reference - {key};
    }
  }

  /** A whole run through the sweeping store gets the answers of the one that never sweeps. */
  method RunStore(store: InMemoryThrottleStore, cs: seq<Charge>) returns (hits: seq<Window>)
    requires store.Valid() && InOrder(cs) && (cs != [] ==> store.clock <= cs[0].now)
    modifies store
    ensures store.Valid() && store.reference == HitAll(old(store.reference), cs)
    ensures hits == Answers(old(store.reference), cs)
  {
    hits := [];
    for i := 0 to |cs|
      invariant store.Valid() && (i < |cs| ==> store.clock <= cs[i].now)
      invariant HitAll(store.reference, cs[i..]) == HitAll(old(store.reference), cs)
      invariant hits + Answers(store.reference, cs[i..]) == Answers(old(store.reference), cs)
    {
      ghost var c, ws := cs[i], store.reference;
      assert cs[i..][0] == c && cs[i..][1..] == cs[i + 1..];
      var hit := store.HitKey(cs[i].key, cs[i].windowMs, cs[i].now);
      assert [hit] + Answers(Hit(ws, c), cs[i + 1..]) == Answers(ws, cs[i..]);
      hits := hits + [hit];
    }
  }

  // ---- The guard ----

  datatype Bucket = Bucket(key: string, enforced: bool)
  /** One guarded request: its buckets, each charged at the same instant, in one turn of the loop. */
  datatype Request = Request(buckets: seq<Bucket>, windowMs: int, limit: nat, now: int)

  function Charges(q: Request): (cs: seq<Charge>)
    ensures |cs| == |q.buckets|
    ensures forall i | 0 <= i < |cs| :: cs[i] == Charge(q.buckets[i].key, q.windowMs, q.now)
  {
    seq(|q.buckets|, i requires 0 <= i < |q.buckets| => Charge(q.buckets[i].key, q.windowMs, q.now))
  }

  predicate Passes(q: Request, hits: seq<Window>)
    requires |hits| == |q.buckets|
  {
    forall i | 0 <= i < |hits| && q.buckets[i].enforced :: hits[i].count <= q.limit
  }

  predicate Enforces(q: Request, key: string) {
    exists i | 0 <= i < |q.buckets| :: q.buckets[i] == Bucket(key, true)
  }

  /** Requests let through on an enforced bucket `key` in `[lo, hi)`. */
  function LetThrough(ws: Windows, qs: seq<Request>, key: string, lo: int, hi: int): nat
    decreases qs
  {
    if qs == [] then 0
    else
      var q := qs[0];
      LetThrough(HitAll(ws, Charges(q)), qs[1..], key, lo, hi)
      + if Enforces(q, key) && lo <= q.now < hi && Passes(q, Answers(ws, Charges(q))) then 1 else 0
  }

  function AllCharges(qs: seq<Request>): (cs: seq<Charge>) {
    if qs == [] then [] else Charges(qs[0]) + AllCharges(qs[1..])
  }

  lemma {:induction false} AdmittedConcat(ws: Windows, a: seq<Charge>, b: seq<Charge>, key: string, limit: nat,
      lo: int, hi: int)
    ensures Admitted(ws, a + b, key, limit, lo, hi) ==
            Admitted(ws, a, key, limit, lo, hi) + Admitted(HitAll(ws, a), b, key, limit, lo, hi)
    decreases a
  {
    if a == [] {
      assert a + b == b;
    } else {
      assert (a + b)[1..] == a[1..] + b;
      AdmittedConcat(Hit(ws, a[0]), a[1..], b, key, limit, lo, hi);
    }
  }

  /** A charge answered within the limit is one of those counted. */
  lemma {:induction false} AdmittedAt(ws: Windows, cs: seq<Charge>, key: string, limit: nat, lo: int, hi: int, i: nat)
    requires i < |cs| && Within(cs[i], key, lo, hi) && Answers(ws, cs)[i].count <= limit
    ensures Admitted(ws, cs, key, limit, lo, hi) >= 1
    decreases cs
  {
    if i > 0 { AdmittedAt(Hit(ws, cs[0]), cs[1..], key, limit, lo, hi, i - 1); }
  }

  predicate SameOptions(qs: seq<Request>, key: string, windowMs: int, limit: nat) {
    forall i, b | 0 <= i < |qs| && b in qs[i].buckets && b.key == key ::
      qs[i].windowMs == windowMs && qs[i].limit == limit
  }

  lemma {:induction false} LetThroughIsAdmitted(ws: Windows, qs: seq<Request>, key: string, windowMs: int, limit: nat,
      lo: int, hi: int)
    requires SameOptions(qs, key, windowMs, limit)
    ensures LetThrough(ws, qs, key, lo, hi) <= Admitted(ws, AllCharges(qs), key, limit, lo, hi)
    decreases qs
  {
    if qs != [] {
      var q, cs := qs[0], Charges(qs[0]);
      LetThroughIsAdmitted(HitAll(ws, cs), qs[1..], key, windowMs, limit, lo, hi);
      AdmittedConcat(ws, cs, AllCharges(qs[1..]), key, limit, lo, hi);
      if Enforces(q, key) && lo <= q.now < hi && Passes(q, Answers(ws, cs)) {
        var i :| 0 <= i < |q.buckets| && q.buckets[i] == Bucket(key, true);
        assert q.buckets[i] in q.buckets;
        AdmittedAt(ws, cs, key, limit, lo, hi, i);
      }
    }
  }

  lemma {:induction false} ChargesInOrder(qs: seq<Request>, key: string, windowMs: int, limit: nat, from: int)
    requires forall i, j | 0 <= i <= j < |qs| :: qs[i].now <= qs[j].now
    requires forall i | 0 <= i < |qs| :: from <= qs[i].now
    requires SameOptions(qs, key, windowMs, limit)
    ensures InOrder(AllCharges(qs)) && OneLength(AllCharges(qs), key, windowMs)
    ensures forall i | 0 <= i < |AllCharges(qs)| :: from <= AllCharges(qs)[i].now
  {
    if qs != [] {
      ChargesInOrder(qs[1..], key, windowMs, limit, qs[0].now);
      assert forall i | 0 <= i < |qs[0].buckets| :: qs[0].buckets[i] in qs[0].buckets;
    }
  }

  /** The guard's promise: on an enforced bucket, any span of one window lets at most `2 * limit` through. */
  lemma GuardAdmitsTwiceTheLimit(ws: Windows, qs: seq<Request>, key: string, windowMs: int, limit: nat, lo: int)
    requires forall i, j | 0 <= i <= j < |qs| :: qs[i].now <= qs[j].now
    requires SameOptions(qs, key, windowMs, limit)
    ensures LetThrough(ws, qs, key, lo, lo + windowMs) <= 2 * limit
    ensures limit >= 1 && (key in ws ==> ws[key].count >= 1) ==>
            LetThrough(ws, qs, key, lo, lo + windowMs) <= 2 * limit - 1
  {
    if qs != [] {
      ChargesInOrder(qs, key, windowMs, limit, qs[0].now);
      LetThroughIsAdmitted(ws, qs, key, windowMs, limit, lo, lo + windowMs);
      SpanAdmitsTwiceTheLimit(ws, AllCharges(qs), key, limit, lo, windowMs);
    }
  }

  datatype Verdict = Admit | RateLimited(retryAfterSeconds: int)

  function CeilDiv(a: int, b: int): (q: int)
    requires b > 0
    ensures (q - 1) * b < a <= q * b
  {
    (a + b - 1) / b
  }

  predicate IsOver(q: Request, hits: seq<Window>, k: nat)
    requires |hits| == |q.buckets| && k < |hits|
  {
    q.buckets[k].enforced && hits[k].count > q.limit
  }

  /** How many enforced buckets are over, and the latest instant one of them rolls over. */
  method Exceeded(q: Request, hits: seq<Window>) returns (exceeded: nat, resetAt: int)
    requires |hits| == |q.buckets|
    ensures exceeded == 0 <==> Passes(q, hits)
    ensures exceeded > 0 ==> exists k | 0 <= k < |hits| :: IsOver(q, hits, k) && hits[k].resetAt == resetAt
    ensures forall k | 0 <= k < |hits| && q.buckets[k].enforced && hits[k].count > q.limit :: hits[k].resetAt <= resetAt
  {
    exceeded, resetAt := 0, 0;
    for i := 0 to |hits|
      invariant exceeded == 0 <==> forall k | 0 <= k < i && q.buckets[k].enforced :: hits[k].count <= q.limit
      invariant exceeded > 0 ==> exists k | 0 <= k < i :: IsOver(q, hits, k) && hits[k].resetAt == resetAt
      invariant forall k | 0 <= k < i && q.buckets[k].enforced && hits[k].count > q.limit :: hits[k].resetAt <= resetAt
    {
      if q.buckets[i].enforced && hits[i].count > q.limit {
        if exceeded == 0 || hits[i].resetAt > resetAt { resetAt := hits[i].resetAt; }
        exceeded := exceeded + 1;
        assert IsOver(q, hits, i);
      }
    }
  }

  /** `canActivate`: no bucket is spared its charge, and the wait is the least number of whole seconds, at
      least one, that outlasts every exceeded window. */
  method CanActivate(store: InMemoryThrottleStore, q: Request) returns (v: Verdict)
    requires store.Valid() && store.clock <= q.now
    modifies store
    ensures store.Valid() && store.reference == HitAll(old(store.reference), Charges(q))
    ensures v.Admit? <==> Passes(q, Answers(old(store.reference), Charges(q)))
    ensures v.RateLimited? ==> v.retryAfterSeconds >= 1
    ensures v.RateLimited? ==> forall i | 0 <= i < |q.buckets| && q.buckets[i].enforced ::
              var hit := Answers(old(store.reference), Charges(q))[i];
              hit.count > q.limit ==> hit.resetAt <= q.now + 1000 * v.retryAfterSeconds
    ensures v.RateLimited? && v.retryAfterSeconds > 1 ==>
              exists i | 0 <= i < |q.buckets| ::
                && IsOver(q, Answers(old(store.reference), Charges(q)), i)
                && Answers(old(store.reference), Charges(q))[i].resetAt > q.now + 1000 * (v.retryAfterSeconds - 1)
  {
    var hits := RunStore(store, Charges(q));
    hide Answers, HitAll, Charges;
    var exceeded, resetAt := Exceeded(q, hits);
    hide Passes;
    if exceeded == 0 { return Admit; }
    var wait := CeilDiv(resetAt - q.now, 1000);
    v := RateLimited(if wait < 1 then 1 else wait);
  }
}
