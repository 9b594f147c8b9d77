/** The sweep in place on the endpoint table, and what a pass run alone does
    (apps/control-api/src/maintenance/endpoint-auto-disable.service.ts:164-361). */
module AutoDisable {
  import opened Domain
  import opened Endpoints

  // ---- A pass run alone ----

  function Elems(ids: seq<int>): set<int> { set i | 0 <= i < |ids| :: ids[i] }

  predicate WentDark(t: Table, id: int, now: int) {
    id in t && t[id].status == Disabled && !t[id].enabled && t[id].disabledReason.Some? && t[id].disabledAt == Some(now)
  }

  /** One pass with nothing in between: the longest-open eligible endpoints go down, each with its
      audit entry, and nothing else changes. */
  ghost predicate LonePass(t: Table, h: HealthTable, options: Options, now: int, t': Table, entries: seq<int>) {
    var ids, left := Eligible(t, h, now, options.afterHours), Eligible(t', h, now, options.afterHours);
    && t'.Keys == t.Keys
    && |entries| == (if options.maxPerRun < |ids| then options.maxPerRun else |ids|)
    && Elems(entries) <= ids && left == ids - Elems(entries) && |left| == |ids| - |entries|
    && (forall i | 0 <= i < |entries| :: WentDark(t', entries[i], now))
    && (forall i, x | 0 <= i < |entries| && x in left :: OpenedAt(h, entries[i]) <= OpenedAt(h, x))
    && (forall id | id in t && id !in Elems(entries) :: t'[id] == t[id])
  }

  function Min(a: nat, b: nat): nat { if a < b then a else b }

  function Left(t: Table, h: HealthTable, options: Options, now: int): nat {
    |Eligible(t, h, now, options.afterHours)|
  }

  /** A breaker that had been open long enough at `now`, whoever owns it. */
  predicate Overdue(h: HealthTable, now: int, afterHours: nat, id: int) {
    id in h && h[id].state == Open && OpenLongEnough(h[id].openedAt, now, afterHours)
  }

  /** The same breakers are overdue by `now`; any others may have opened or closed. */
  ghost predicate SameOverdue(h: HealthTable, h': HealthTable, now: int, afterHours: nat) {
    forall id :: Overdue(h, now, afterHours, id) <==> Overdue(h', now, afterHours, id)
  }

  /** What a pass leaves of the endpoints that were eligible at some earlier instant. */
  lemma LeftEarlier(t: Table, h: HealthTable, options: Options, first: int, now: int, t': Table, entries: seq<int>)
    requires LonePass(t, h, options, now, t', entries) && first <= now
    ensures var early := Eligible(t, h, first, options.afterHours);
            && early <= Eligible(t, h, now, options.afterHours)
            && Eligible(t', h, first, options.afterHours) == early - Elems(entries)
  {
    forall id ensures IsEligible(t', h, first, options.afterHours, id)
                      <==> IsEligible(t, h, first, options.afterHours, id) && id !in Elems(entries) {
      assert Overdue(h, first, options.afterHours, id) ==> Overdue(h, now, options.afterHours, id);
      assert IsEligible(t', h, now, options.afterHours, id)
             <==> IsEligible(t, h, now, options.afterHours, id) && id !in Elems(entries);
    }
  }

  /** The longest open go first: while one of the early endpoints is left, only early ones were taken. */
  lemma EarlyFirst(t: Table, h: HealthTable, options: Options, first: int, now: int, t': Table, entries: seq<int>)
    requires LonePass(t, h, options, now, t', entries) && first <= now
    requires Eligible(t', h, first, options.afterHours) != {}
    ensures Elems(entries) <= Eligible(t, h, first, options.afterHours) && |entries| == options.maxPerRun
  {
    LeftEarlier(t, h, options, first, now, t', entries);
    var left := Eligible(t', h, now, options.afterHours);
    var early := Eligible(t', h, first, options.afterHours);
    assert (forall m: int :: m !in early) ==> early == {};
    var x :| x in early;
    assert IsEligible(t', h, first, options.afterHours, x);
    assert x in left;
    forall id | id in Elems(entries) ensures IsEligible(t, h, first, options.afterHours, id) {
      var i :| 0 <= i < |entries| && entries[i] == id;
      assert IsEligible(t, h, now, options.afterHours, id);
      assert OpenedAt(h, entries[i]) <= OpenedAt(h, x);
    }
  }

  lemma OnePassTakes(t: Table, h: HealthTable, options: Options, first: int, now: int, t': Table, entries: seq<int>)
    requires LonePass(t, h, options, now, t', entries) && first <= now
    ensures Left(t', h, options, first)
            == Left(t, h, options, first) - Min(Left(t, h, options, first), options.maxPerRun)
  {
    var early, late := Eligible(t, h, first, options.afterHours), Eligible(t, h, now, options.afterHours);
    var taken := Elems(entries);
    LeftEarlier(t, h, options, first, now, t', entries);
    Rest(late, taken);
    if early <= taken {
      Rest(taken, early);
    } else {
      EarlyFirst(t, h, options, first, now, t', entries);
      Rest(early, taken);
    }
  }

  /** Passes one after another with no operator between them. Time goes on, so later passes also find
      endpoints that were not eligible at `first`, and breakers not overdue by then come and go. */
  ghost predicate Passes(ts: seq<Table>, hs: seq<HealthTable>, nows: seq<int>, entries: seq<seq<int>>,
                         options: Options, h: HealthTable, first: int) {
    && |ts| == |entries| + 1 && |hs| == |nows| == |entries|
    && forall i | 0 <= i < |entries| ::
         && LonePass(ts[i], hs[i], options, nows[i], ts[i + 1], entries[i])
         && first <= nows[i] && SameOverdue(h, hs[i], first, options.afterHours)
  }

  lemma SameOverdueSameLeft(t: Table, h: HealthTable, h': HealthTable, options: Options, now: int)
    requires SameOverdue(h, h', now, options.afterHours)
    ensures Eligible(t, h, now, options.afterHours) == Eligible(t, h', now, options.afterHours)
  {
    forall id ensures IsEligible(t, h, now, options.afterHours, id)
      <==> IsEligible(t, h', now, options.afterHours, id) {
      assert Overdue(h, now, options.afterHours, id) <==> Overdue(h', now, options.afterHours, id);
    }
  }

  /** Of the endpoints eligible at the first cutoff, each pass takes `maxPerRun` until none of them is
      left, however late it runs and however many others have become eligible. */
  lemma {:induction false} PassesDrain(ts: seq<Table>, hs: seq<HealthTable>, nows: seq<int>, entries: seq<seq<int>>,
                                       options: Options, h: HealthTable, first: int, k: nat)
    requires Passes(ts, hs, nows, entries, options, h, first) && k <= |entries|
    ensures Left(ts[k], h, options, first)
            == Left(ts[0], h, options, first) - Min(Left(ts[0], h, options, first), k * options.maxPerRun)
    decreases k
  {
    if k > 0 {
      PassesDrain(ts, hs, nows, entries, options, h, first, k - 1);
      assert LonePass(ts[k - 1], hs[k - 1], options, nows[k - 1], ts[k - 1 + 1], entries[k - 1]);
      OnePassTakes(ts[k - 1], hs[k - 1], options, first, nows[k - 1], ts[k], entries[k - 1]);
      SameOverdueSameLeft(ts[k - 1], h, hs[k - 1], options, first);
      SameOverdueSameLeft(ts[k], h, hs[k - 1], options, first);
      hide LonePass, SameOverdue, Eligible;
      Times(k - 1, k, options.maxPerRun);
    }
  }

  /** So `ceil(n / maxPerRun)` passes leave none of the first `n` eligible, and fewer do not. */
  lemma EnoughPassesLeaveNone(ts: seq<Table>, hs: seq<HealthTable>, nows: seq<int>, entries: seq<seq<int>>,
                              options: Options, h: HealthTable, first: int)
    requires Passes(ts, hs, nows, entries, options, h, first) && options.maxPerRun >= 1
    ensures |entries| >= (Left(ts[0], h, options, first) + options.maxPerRun - 1) / options.maxPerRun <==>
            Eligible(ts[|entries|], h, first, options.afterHours) == {}
  {
    PassesDrain(ts, hs, nows, entries, options, h, first, |entries|);
    CeilingCovers(Left(ts[0], h, options, first), options.maxPerRun, |entries|);
    hide LonePass, Eligible, SameOverdue;
    assert Left(ts[|entries|], h, options, first) == 0 <==> Eligible(ts[|entries|], h, first, options.afterHours) == {};
  }

  lemma CeilingCovers(n: nat, m: nat, k: nat)
    requires m >= 1
    ensures k >= (n + m - 1) / m <==> k * m >= n
  {
    var c := (n + m - 1) / m;
    assert c * m <= n + m - 1 < c * m + m;
    if k >= c { Times(c, k, m); } else { Times(k + 1, c, m); }
  }

  lemma Times(a: int, b: int, m: nat)
    requires a <= b
    ensures a * m <= b * m && (a + 1) * m == a * m + m
  {
  }

  predicate IsOldest(h: HealthTable, ids: set<int>, m: int) {
    m in ids && forall x | x in ids :: OpenedAt(h, m) <= OpenedAt(h, x)
  }

  lemma {:induction false} HasOldest(h: HealthTable, ids: set<int>)
    requires ids != {}
    ensures exists m :: IsOldest(h, ids, m)
    decreases ids
  {
    assert (forall m: int :: m !in ids) ==> ids == {};
    var m :| m in ids;
    var rest := ids - {m};
    assert forall x | x in ids :: x == m || x in rest;
    if rest == {} {
      assert IsOldest(h, ids, m);
    } else {
      HasOldest(h, rest);
      var k :| IsOldest(h, rest, k);
      assert IsOldest(h, ids, if OpenedAt(h, m) < OpenedAt(h, k) then m else k);
    }
  }

  ghost predicate Ranked(h: HealthTable, left: set<int>, picked: seq<Candidate>) {
    && (forall i, j | 0 <= i < j < |picked| ::
      picked[i].id != picked[j].id && OpenedAt(h, picked[i].id) <= OpenedAt(h, picked[j].id))
    && (forall i, x | 0 <= i < |picked| && x in left :: OpenedAt(h, picked[i].id) <= OpenedAt(h, x))
  }

  lemma RankedIsLongest(h: HealthTable, all: set<int>, left: set<int>, picked: seq<Candidate>, max: nat)
    requires left <= all && Ids(picked) == all - left && Ranked(h, left, picked)
    requires |picked| <= max && |picked| + |left| == |all| && (|picked| == max || left == {})
    requires forall i | 0 <= i < |picked| :: picked[i] == Snapshot(h, picked[i].id)
    ensures LongestOpen(all, h, max, picked)
  {
    hide Ids;
    assert all - Ids(picked) == left;
  }

  lemma PickOne(h: HealthTable, all: set<int>, left: set<int>, picked: seq<Candidate>, m: int)
    requires left <= all && Ids(picked) == all - left && Ranked(h, left, picked) && IsOldest(h, left, m)
    ensures Ids(picked + [Snapshot(h, m)]) == all - (left - {m})
    ensures Ranked(h, left - {m}, picked + [Snapshot(h, m)])
  {
    var more := picked + [Snapshot(h, m)];
    assert forall i | 0 <= i < |picked| :: picked[i].id in Ids(picked);
    forall x ensures x in Ids(more) <==> x in all - (left - {m}) {
      if x in Ids(picked) {
        var i :| 0 <= i < |picked| && picked[i].id == x;
        assert more[i].id == x;
      }
      if x == m { assert more[|picked|].id == m; }
    }
  }

  // ---- The service ----

  function IdSeq(picked: seq<Candidate>): (ids: seq<int>)
    ensures |ids| == |picked| && forall i | 0 <= i < |ids| :: ids[i] == picked[i].id
  {
    seq(|picked|, i requires 0 <= i < |picked| => picked[i].id)
  }

  /** The table after the first `n` candidates. */
  ghost predicate Treated(t: Table, t': Table, picked: seq<Candidate>, n: nat, now: int) {
    && n <= |picked| && t'.Keys == t.Keys
    && (forall i | 0 <= i < n && picked[i].openedAt.Some? && picked[i].id in t ::
          t'[picked[i].id] == Endpoint(Disabled, false, picked[i].openedAt, Some(now)))
    && (forall id | id in t && id !in Ids(picked[..n]) :: t'[id] == t[id])
  }

  /** The next candidate is still live and still qualifies, so it goes down. */
  lemma TreatOne(t: Table, h: HealthTable, t': Table, picked: seq<Candidate>, n: nat, options: Options, now: int)
    requires Treated(t, t', picked, n, now) && n < |picked|
    requires LongestOpen(Eligible(t, h, now, options.afterHours), h, options.maxPerRun, picked)
    ensures OpenLongEnough(picked[n].openedAt, now, options.afterHours) && Live(t', picked[n].id)
    ensures Treated(t, AutoDisabled(t', picked[n], now), picked, n + 1, now)
  {
    var id := picked[n].id;
    assert id in Ids(picked);
    assert IsEligible(t, h, now, options.afterHours, id);
    assert id !in Ids(picked[..n]);
    var t'' := AutoDisabled(t', picked[n], now);
    forall x | x in t && x !in Ids(picked[..n + 1]) ensures t''[x] == t[x] {
      assert picked[..n + 1][n].id == id;
      assert forall i | 0 <= i < n :: picked[..n + 1][i] == picked[..n][i];
    }
  }

  lemma TreatedIsLonePass(t: Table, h: HealthTable, t': Table, picked: seq<Candidate>, options: Options, now: int)
    requires Treated(t, t', picked, |picked|, now)
    requires LongestOpen(Eligible(t, h, now, options.afterHours), h, options.maxPerRun, picked)
    ensures LonePass(t, h, options, now, t', IdSeq(picked))
  {
    TreatedLeavesTheRest(t, h, t', picked, options, now);
    IdsAreDistinct(picked);
    IdsAsEntries(picked);
    assert picked[..|picked|] == picked;
    var ids := Eligible(t, h, now, options.afterHours);
    hide Eligible, Elems, Ids;
    Rest(ids, Ids(picked));
    forall i | 0 <= i < |IdSeq(picked)| ensures WentDark(t', IdSeq(picked)[i], now) {
      assert picked[i].id in t;
    }
    hide IdSeq, WentDark;
  }

  lemma Rest(a: set<int>, b: set<int>)
    requires b <= a
    ensures |a - b| == |a| - |b|
  {
    assert a == (a - b) + b;
  }

  lemma IdsAsEntries(picked: seq<Candidate>)
    ensures Elems(IdSeq(picked)) == Ids(picked)
  {
    var entries := IdSeq(picked);
    forall x ensures x in Elems(entries) <==> x in Ids(picked) {
      if x in Ids(picked) { var i :| 0 <= i < |picked| && picked[i].id == x; assert entries[i] == x; }
      if x in Elems(entries) { var i :| 0 <= i < |entries| && entries[i] == x; assert picked[i].id == x; }
    }
  }

  lemma TreatedLeavesTheRest(t: Table, h: HealthTable, t': Table, picked: seq<Candidate>, options: Options, now: int)
    requires Treated(t, t', picked, |picked|, now)
    requires LongestOpen(Eligible(t, h, now, options.afterHours), h, options.maxPerRun, picked)
    ensures forall i | 0 <= i < |picked| ::
            picked[i].id in Eligible(t, h, now, options.afterHours) && picked[i].openedAt.Some? && picked[i].id in t
    ensures Eligible(t', h, now, options.afterHours) == Eligible(t, h, now, options.afterHours) - Ids(picked)
  {
    assert picked[..|picked|] == picked;
    forall i | 0 <= i < |picked|
      ensures picked[i].id in Eligible(t, h, now, options.afterHours) && picked[i].openedAt.Some? && picked[i].id in t
    {
      assert picked[i].id in Ids(picked);
      assert IsEligible(t, h, now, options.afterHours, picked[i].id);
    }
    forall id ensures IsEligible(t', h, now, options.afterHours, id)
      <==> IsEligible(t, h, now, options.afterHours, id) && id !in Ids(picked) {}
  }

  lemma {:induction false} IdsAreDistinct(picked: seq<Candidate>)
    requires forall i, j | 0 <= i < j < |picked| :: picked[i].id != picked[j].id
    ensures |Ids(picked)| == |picked|
  {
    if picked != [] {
      var n := |picked| - 1;
      IdsAreDistinct(picked[..n]);
      assert Ids(picked) == Ids(picked[..n]) + {picked[n].id};
    }
  }

  // ---- A sweep that nothing interrupts ----

  function Updates(n: nat): (steps: seq<Step>)
    ensures |steps| == n
  {
    seq(n, i => SweepUpdate)
  }

  lemma UpdateNext(s: System, t: Table, picked: seq<Candidate>, n: nat, options: Options, now: int)
    requires n < |picked| && s.queue == picked[n..] && s.sweepNow == now && s.sweepOptions == options
    requires Treated(t, s.endpoints, picked, n, now)
    requires LongestOpen(Eligible(t, s.health, now, options.afterHours), s.health, options.maxPerRun, picked)
    ensures var r := Do(s, SweepUpdate);
            && r == s.(endpoints := r.endpoints, audits := s.audits + [picked[n].id], queue := picked[n + 1..])
            && Treated(t, r.endpoints, picked, n + 1, now)
  {
    TreatOne(t, s.health, s.endpoints, picked, n, options, now);
    assert picked[n..][0] == picked[n] && picked[n..][1..] == picked[n + 1..];
    hide Treated, LongestOpen, Eligible, AutoDisabled;
  }

  lemma {:induction false} TreatsInOrder(s: System, options: Options, now: int, picked: seq<Candidate>, n: nat)
    requires s.queue == [] && options.enabled && n <= |picked|
    requires LongestOpen(Eligible(s.endpoints, s.health, now, options.afterHours), s.health, options.maxPerRun, picked)
    ensures var r := Run(s, [SweepRead(options, now, picked)] + Updates(n));
            && r == System(r.endpoints, s.health, s.audits + IdSeq(picked[..n]), picked[n..], now, options)
            && Treated(s.endpoints, r.endpoints, picked, n, now)
    decreases n
  {
    hide LongestOpen, Eligible, Treated, Do, IdSeq;
    if n == 0 {
      ReadsFirst(s, options, now, picked);
    } else {
      TreatsInOrder(s, options, now, picked, n - 1);
      RunSnoc(s, [SweepRead(options, now, picked)] + Updates(n - 1), SweepUpdate);
      assert [SweepRead(options, now, picked)] + Updates(n - 1) + [SweepUpdate]
          == [SweepRead(options, now, picked)] + Updates(n);
      hide Run, Updates;
      var mid := Run(s, [SweepRead(options, now, picked)] + Updates(n - 1));
      UpdateNext(mid, s.endpoints, picked, n - 1, options, now);
      IdSnoc(picked, n - 1);
      assert s.audits + IdSeq(picked[..n - 1]) + [picked[n - 1].id] == s.audits + IdSeq(picked[..n]);
    }
  }

  lemma RunSnoc(s: System, steps: seq<Step>, step: Step)
    ensures Run(s, steps + [step]) == Do(Run(s, steps), step)
  {
    hide Do;
    assert (steps + [step])[..|steps|] == steps;
  }

  lemma IdSnoc(picked: seq<Candidate>, n: nat)
    requires n < |picked|
    ensures IdSeq(picked[..n + 1]) == IdSeq(picked[..n]) + [picked[n].id]
  {
  }

  lemma ReadsFirst(s: System, options: Options, now: int, picked: seq<Candidate>)
    requires s.queue == [] && options.enabled
    ensures Run(s, [SweepRead(options, now, picked)] + Updates(0))
            == System(s.endpoints, s.health, s.audits + IdSeq(picked[..0]), picked[0..], now, options)
    ensures Treated(s.endpoints, s.endpoints, picked, 0, now)
  {
    var steps := [SweepRead(options, now, picked)] + Updates(0);
    assert steps == [SweepRead(options, now, picked)] && steps[..0] == [];
    assert s.audits + IdSeq(picked[..0]) == s.audits && picked[0..] == picked;
  }

  /** A sweep that no operator interrupts is a lone pass: what it reads it takes down, each with its entry,
      and then it holds nothing more to do. */
  lemma UninterruptedIsLonePass(s: System, options: Options, now: int, picked: seq<Candidate>)
    requires s.queue == [] && options.enabled && Enabled(s, SweepRead(options, now, picked))
    ensures var r := Run(s, [SweepRead(options, now, picked)] + Updates(|picked|));
            && r.queue == [] && r.health == s.health
            && |s.audits| <= |r.audits| && r.audits[..|s.audits|] == s.audits
            && LonePass(s.endpoints, s.health, options, now, r.endpoints, r.audits[|s.audits|..])
  {
    TreatsInOrder(s, options, now, picked, |picked|);
    hide LonePass, Treated, LongestOpen, Eligible, Run;
    var r := Run(s, [SweepRead(options, now, picked)] + Updates(|picked|));
    assert picked[..|picked|] == picked && picked[|picked|..] == [];
    TreatedIsLonePass(s.endpoints, s.health, r.endpoints, picked, options, now);
    assert r.audits[|s.audits|..] == IdSeq(picked);
  }

  datatype Report = Report(skipped: bool, considered: nat, disabled: nat, truncated: bool)

  class EndpointStore {
    var endpoints: Table
    var health: HealthTable
    var audits: seq<int>

    method Candidates(options: Options, now: int) returns (picked: seq<Candidate>)
      ensures LongestOpen(Eligible(endpoints, health, now, options.afterHours), health, options.maxPerRun, picked)
    {
      picked := [];
      var left := Eligible(endpoints, health, now, options.afterHours);
      ghost var all := left;
      hide Eligible, LongestOpen;
      assert all - left == Ids(picked);
      while |picked| < options.maxPerRun && left != {}
        invariant |picked| <= options.maxPerRun && |picked| + |left| == |all| && left <= all
        invariant Ids(picked) == all - left
        invariant forall i | 0 <= i < |picked| :: picked[i] == Snapshot(health, picked[i].id)
        invariant Ranked(health, left, picked)
        decreases left
      {
        HasOldest(health, left);
        var m :| m in left && IsOldest(health, left, m);
        PickOne(health, all, left, picked, m);
        hide Ids, Snapshot, Ranked, IsOldest;
        picked := picked + [Snapshot(health, m)];
        left := left - {m};
      }
      RankedIsLongest(health, all, left, picked, options.maxPerRun);
    }

    /** Disables one candidate and files its entry, or does neither. */
    method DisableCandidate(c: Candidate, now: int) returns (done: bool)
      modifies this`endpoints, this`audits
      ensures done <==> Live(old(endpoints), c.id)
      ensures endpoints == AutoDisabled(old(endpoints), c, now) && audits == Audited(old(endpoints), old(audits), c)
    {
      if c.id !in endpoints || endpoints[c.id].status != Active || !endpoints[c.id].enabled { return false; }
      var since := if c.openedAt.Some? then c.openedAt.value else now;
      endpoints := endpoints[c.id := Endpoint(Disabled, false, Some(since), Some(now))];
      audits := audits + [c.id];
      done := true;
    }

    /** One whole pass, with nothing between its read and its updates. */
    method Sweep(options: Options, now: int, locked: bool) returns (report: Report)
      modifies this`endpoints, this`audits
      ensures !options.enabled || !locked ==>
                && endpoints == old(endpoints) && audits == old(audits)
                && report == Report(options.enabled, 0, 0, false)
      ensures options.enabled && locked ==>
                && old(|audits|) <= |audits| && audits[..old(|audits|)] == old(audits)
                && LonePass(old(endpoints), health, options, now, endpoints, audits[old(|audits|)..])
                && report.disabled == report.considered == |audits| - old(|audits|) && !report.skipped
                && (report.truncated <==>
                      |Eligible(old(endpoints), health, now, options.afterHours)| >= options.maxPerRun)
    {
      if !options.enabled { return Report(false, 0, 0, false); }
      if !locked { return Report(true, 0, 0, false); }
      var candidates := Candidates(options, now);
      var disabled := 0;
      hide LongestOpen, LonePass, Eligible;
      assert IdSeq(candidates[..0]) == [];
      for i := 0 to |candidates|
        invariant disabled == i && audits == old(audits) + IdSeq(candidates[..i])
        invariant Treated(old(endpoints), endpoints, candidates, i, now)
      {
        TreatOne(old(endpoints), health, endpoints, candidates, i, options, now);
        assert IdSeq(candidates[..i + 1]) == IdSeq(candidates[..i]) + [candidates[i].id];
        hide Treated, LongestOpen, IdSeq, AutoDisabled, Live, LonePass;
        if !OpenLongEnough(candidates[i].openedAt, now, options.afterHours) { continue; }
        var done := DisableCandidate(candidates[i], now);
        if done { disabled := disabled + 1; }
      }
      assert candidates[..|candidates|] == candidates;
      TreatedIsLonePass(old(endpoints), health, endpoints, candidates, options, now);
      report := Report(false, |candidates|, disabled, |candidates| >= options.maxPerRun);
    }
  }
}
