/** Alert mail: grouping, quiet hours, and the count a message carries
    (apps/control-api/src/notification-destinations/notification-rules.ts:44-129,
    apps/control-api/src/maintenance/notification-dispatcher.service.ts:73-180). */
module Alerts {
  import opened Domain

  const GROUPING_WINDOW_MS: int := 30 * 60_000
  const HOUR_MS: int := 3_600_000

  datatype Trigger = EndpointStopped | EventStuck | SecretRetiring | DeliveryExhausted

  predicate Urgent(e: Trigger) { e == EndpointStopped }

  /** 22:00 to 07:00 UTC; the window crosses midnight. */
  predicate InQuietHours(at: int) {
    var hour := at / HOUR_MS % 24;
    hour >= 22 || hour < 7
  }

  datatype Reason = New | WindowExpired | UrgentNow | Grouped | QuietHours | NotSubscribed | NotConfirmed

  predicate Sends(r: Reason) { r in {New, WindowExpired, UrgentNow} }

  datatype Destination = Destination(id: int, confirmed: bool, events: set<Trigger>)
  /** The grouping row of one destination and subject. */
  datatype Dispatch = Dispatch(event: Trigger, occurrences: nat, firstAt: int, lastAt: int, sentAt: Option<int>)

  /** `shouldSend`, whose previous dispatch is the one of the same subject. */
  function Verdict(d: Destination, e: Trigger, previous: Option<Dispatch>, now: int): (r: Reason) {
    if !d.confirmed then NotConfirmed
    else if e !in d.events then NotSubscribed
    else if previous.Some? then
      if now - previous.value.lastAt < GROUPING_WINDOW_MS then Grouped
      else if InQuietHours(now) && !Urgent(e) then QuietHours
      else WindowExpired
    else if Urgent(e) then UrgentNow
    else if InQuietHours(now) then QuietHours
    else New
  }

  predicate Listed(d: Destination, e: Trigger) { d.confirmed && e in d.events }

  /** `record`: the occurrence is kept whether or not a message goes out. */
  function Recorded(previous: Option<Dispatch>, e: Trigger, now: int): (r: Dispatch) {
    match previous
    case None => Dispatch(e, 1, now, now, None)
    case Some(p) => p.(event := e, occurrences := p.occurrences + 1, lastAt := now)
  }

  /** How a send ends: refused by the mailer, sent and noted, or sent while noting it failed. */
  datatype Outcome = MailFails | SentAndNoted | SentNotNoted

  function After(d: Destination, previous: Option<Dispatch>, e: Trigger, now: int, outcome: Outcome): (r: Dispatch) {
    var row := Recorded(previous, e, now);
    if Sends(Verdict(d, e, previous, now)) && outcome == SentAndNoted
      then row.(occurrences := 1, firstAt := now, sentAt := Some(now))
    else row
  }

  /** The row an alert leaves: untouched for a destination that does not hear it. */
  function Next(d: Destination, previous: Option<Dispatch>, e: Trigger, now: int,
      outcome: Outcome): (r: Option<Dispatch>) {
    if Listed(d, e) then Some(After(d, previous, e, now, outcome)) else previous
  }

  // ---- Every run of alerts for one destination and subject ----

  /** An alert, the destination as it then stands, and how a send would end. */
  datatype Alert = Alert(event: Trigger, now: int, destination: Destination, outcome: Outcome)

  predicate Heard(a: Alert) { Listed(a.destination, a.event) }

  function RowAfter(alerts: seq<Alert>): (r: Option<Dispatch>) {
    if alerts == [] then None
    else
      var before, a := RowAfter(alerts[..|alerts| - 1]), alerts[|alerts| - 1];
      Next(a.destination, before, a.event, a.now, a.outcome)
  }

  /** Alert `k` put a message in the post. */
  predicate Mailed(alerts: seq<Alert>, k: nat)
    requires k < |alerts|
  {
    var a := alerts[k];
    Heard(a) && Sends(Verdict(a.destination, a.event, RowAfter(alerts[..k]), a.now)) && a.outcome != MailFails
  }

  predicate InOrder(alerts: seq<Alert>) {
    forall i, j | 0 <= i < j < |alerts| :: alerts[i].now <= alerts[j].now
  }

  lemma {:induction false} RowRemembersTheLast(alerts: seq<Alert>, i: nat)
    requires InOrder(alerts) && i < |alerts| && Heard(alerts[i])
    ensures RowAfter(alerts).Some? && alerts[i].now <= RowAfter(alerts).value.lastAt
  {
    var n := |alerts| - 1;
    if i < n { RowRemembersTheLast(alerts[..n], i); }
  }

  /** Two messages are at least thirty minutes apart, failed sends or not. */
  lemma MailsAreApart(alerts: seq<Alert>, i: nat, j: nat)
    requires InOrder(alerts) && i < j < |alerts| && Mailed(alerts, i) && Mailed(alerts, j)
    ensures alerts[j].now - alerts[i].now >= 1_800_000
  {
    assert alerts[..j][i] == alerts[i];
    RowRemembersTheLast(alerts[..j], i);
  }

  /** No message that can wait goes out in quiet hours. */
  lemma QuietHoursAreQuiet(alerts: seq<Alert>, k: nat)
    requires k < |alerts| && Mailed(alerts, k) && alerts[k].event != EndpointStopped
    ensures !InQuietHours(alerts[k].now)
  {
  }

  /** Alert `k` was sent and noted. */
  predicate Noted(alerts: seq<Alert>, k: nat)
    requires k < |alerts|
  {
    Mailed(alerts, k) && alerts[k].outcome == SentAndNoted
  }

  /** The alerts heard from the last noted send on, counting that one. */
  function SinceLastSend(alerts: seq<Alert>): nat {
    if alerts == [] then 0
    else
      var n := |alerts| - 1;
      if !Heard(alerts[n]) then SinceLastSend(alerts[..n])
      else if Noted(alerts, n) then 1
      else SinceLastSend(alerts[..n]) + 1
  }

  /** The same count, read off the run directly: no noted send after `from`, and `from` is one or is 0. */
  function HeardFrom(alerts: seq<Alert>, from: nat): nat
    requires from <= |alerts|
  {
    if from == |alerts| then 0
    else HeardFrom(alerts[..|alerts| - 1], from) + if Heard(alerts[|alerts| - 1]) then 1 else 0
  }

  lemma {:induction false} CountIsSinceLastSend(alerts: seq<Alert>)
    ensures (if RowAfter(alerts).Some? then RowAfter(alerts).value.occurrences else 0) == SinceLastSend(alerts)
  {
    if alerts != [] { CountIsSinceLastSend(alerts[..|alerts| - 1]); }
  }

  predicate LastSend(alerts: seq<Alert>, from: nat) {
    && from <= |alerts|
    && (forall k | from < k < |alerts| :: !Noted(alerts, k))
    && (from == 0 || (from < |alerts| && Noted(alerts, from)))
  }

  lemma {:induction false} NotedInPrefix(alerts: seq<Alert>, n: nat, k: nat)
    requires k < n <= |alerts|
    ensures Noted(alerts[..n], k) <==> Noted(alerts, k)
  {
    assert alerts[..n][..k] == alerts[..k];
  }

  lemma {:induction false} SinceIsHeardFrom(alerts: seq<Alert>, from: nat)
    requires LastSend(alerts, from)
    ensures SinceLastSend(alerts) == HeardFrom(alerts, from)
  {
    var n := |alerts| - 1;
    if alerts != [] && from <= n {
      if from == n {
        assert alerts[..n] == alerts[..from];
        if n == 0 { assert alerts[..0] == []; }
      } else {
        forall k | from <= k < n ensures Noted(alerts[..n], k) <==> Noted(alerts, k) { NotedInPrefix(alerts, n, k); }
        SinceIsHeardFrom(alerts[..n], from);
      }
    }
  }

  /** The stored count is the alerts heard since the last noted send, counting that one. */
  lemma OccurrencesAreExact(alerts: seq<Alert>, from: nat)
    requires LastSend(alerts, from) && RowAfter(alerts).Some?
    ensures RowAfter(alerts).value.occurrences == HeardFrom(alerts, from)
  {
    CountIsSinceLastSend(alerts);
    SinceIsHeardFrom(alerts, from);
  }

  /** So a message counts every alert from the last noted send up to its own, that send included. */
  lemma MessageCountIsExact(alerts: seq<Alert>, k: nat, from: nat)
    requires k < |alerts| && Heard(alerts[k]) && LastSend(alerts[..k], from)
    ensures Recorded(RowAfter(alerts[..k]), alerts[k].event, alerts[k].now).occurrences
            == HeardFrom(alerts[..k], from) + 1
  {
    CountIsSinceLastSend(alerts[..k]);
    SinceIsHeardFrom(alerts[..k], from);
  }

  /** A message goes out exactly when the subject has been silent for the window, or is new, and the
      hour or the urgency allows it: alerts that keep coming keep the subject grouped. */
  lemma MailIff(alerts: seq<Alert>, k: nat, p: nat)
    requires InOrder(alerts) && p < k < |alerts| && Heard(alerts[p]) && forall i | p < i < k :: !Heard(alerts[i])
    ensures Mailed(alerts, k) <==>
            && Heard(alerts[k]) && alerts[k].now - alerts[p].now >= 1_800_000
            && (alerts[k].event == EndpointStopped || !InQuietHours(alerts[k].now)) && alerts[k].outcome != MailFails
  {
    LastHeard(alerts[..k], p);
  }

  /** The first alert heard about a subject goes out at once unless it can wait and must. */
  lemma FirstMailIff(alerts: seq<Alert>, k: nat)
    requires k < |alerts| && forall i | 0 <= i < k :: !Heard(alerts[i])
    ensures Mailed(alerts, k) <==>
            && Heard(alerts[k]) && (alerts[k].event == EndpointStopped || !InQuietHours(alerts[k].now))
            && alerts[k].outcome != MailFails
  {
    NothingHeard(alerts[..k]);
  }

  lemma {:induction false} NothingHeard(alerts: seq<Alert>)
    requires forall i | 0 <= i < |alerts| :: !Heard(alerts[i])
    ensures RowAfter(alerts) == None
  {
    if alerts != [] { NothingHeard(alerts[..|alerts| - 1]); }
  }

  lemma {:induction false} LastHeard(alerts: seq<Alert>, p: nat)
    requires p < |alerts| && Heard(alerts[p]) && forall i | p < i < |alerts| :: !Heard(alerts[i])
    ensures RowAfter(alerts).Some? && RowAfter(alerts).value.lastAt == alerts[p].now
  {
    var n := |alerts| - 1;
    if p < n { LastHeard(alerts[..n], p); }
  }

  // ---- What becomes of an alert held in quiet hours ----

  predicate Held(alerts: seq<Alert>, k: nat)
    requires k < |alerts|
  {
    var a := alerts[k];
    Heard(a) && Verdict(a.destination, a.event, RowAfter(alerts[..k]), a.now) == QuietHours
  }

  /** A message goes out for alert `j`, and alert `k` is among those it counts. */
  ghost predicate Tells(alerts: seq<Alert>, j: nat, k: nat) {
    k < j < |alerts| && Mailed(alerts, j) && exists from | 0 <= from <= k :: LastSend(alerts[..j], from)
  }

  /** Alert `j` follows a silence of the window after alert `p`, the last one heard before it, and may
      and does go out. */
  predicate EndsSilence(alerts: seq<Alert>, p: nat, j: nat) {
    && p < j < |alerts| && Heard(alerts[p]) && (forall i | p < i < j :: !Heard(alerts[i]))
    && Heard(alerts[j]) && alerts[j].now - alerts[p].now >= GROUPING_WINDOW_MS
    && (alerts[j].event == EndpointStopped || !InQuietHours(alerts[j].now)) && alerts[j].outcome != MailFails
  }

  lemma {:induction false} LastHeardBefore(alerts: seq<Alert>, k: nat, j: nat) returns (p: nat)
    requires k < j <= |alerts| && Heard(alerts[k])
    ensures k <= p < j && Heard(alerts[p]) && forall i | p < i < j :: !Heard(alerts[i])
    decreases j
  {
    if Heard(alerts[j - 1]) { p := j - 1; } else { p := LastHeardBefore(alerts, k, j - 1); }
  }

  lemma {:induction false} FirstMailAfter(alerts: seq<Alert>, k: nat, j: nat) returns (m: nat)
    requires k < j < |alerts| && Mailed(alerts, j)
    ensures k < m <= j && Mailed(alerts, m) && forall i | k < i < m :: !Mailed(alerts, i)
    decreases j - k
  {
    if Mailed(alerts, k + 1) { m := k + 1; } else { m := FirstMailAfter(alerts, k + 1, j); }
  }

  lemma {:induction false} LastSendExists(alerts: seq<Alert>) returns (from: nat)
    ensures LastSend(alerts, from)
  {
    from := 0;
    if alerts != [] {
      var n := |alerts| - 1;
      if Noted(alerts, n) {
        from := n;
      } else {
        from := LastSendExists(alerts[..n]);
        forall k | 0 <= k < n ensures Noted(alerts[..n], k) <==> Noted(alerts, k) { NotedInPrefix(alerts, n, k); }
      }
    }
  }

  /** An alert held in quiet hours does not wait for the morning: it is told of exactly when some later
      alert about the subject ends a silence of thirty minutes and may go out itself. */
  lemma HeldIsToldIff(alerts: seq<Alert>, k: nat)
    requires InOrder(alerts) && k < |alerts| && Held(alerts, k)
    ensures (exists j: nat :: Tells(alerts, j, k)) <==> exists p: nat, j: nat :: k <= p && EndsSilence(alerts, p, j)
  {
    if j: nat :| Tells(alerts, j, k) {
      var p := LastHeardBefore(alerts, k, j);
      MailIff(alerts, j, p);
      assert EndsSilence(alerts, p, j);
    }
    if p: nat, j: nat :| k <= p && EndsSilence(alerts, p, j) {
      MailIff(alerts, j, p);
      var m := FirstMailAfter(alerts, k, j);
      CountedByTheNext(alerts, k, m);
    }
  }

  lemma CountedByTheNext(alerts: seq<Alert>, k: nat, m: nat)
    requires k < m < |alerts| && Held(alerts, k)
    requires Mailed(alerts, m) && forall i | k < i < m :: !Mailed(alerts, i)
    ensures Tells(alerts, m, k)
  {
    var from := LastSendExists(alerts[..m]);
    if from > k { NotedInPrefix(alerts, m, from); }
  }

  /** Alerts that keep coming inside the window are never told of once the first was held, day or night. */
  lemma {:induction false} HeldAndNeverTold(alerts: seq<Alert>, k: nat, j: nat)
    requires InOrder(alerts) && k < |alerts| && Held(alerts, k)
    requires forall i | k < i < |alerts| :: alerts[i].now - alerts[i - 1].now < GROUPING_WINDOW_MS && Heard(alerts[i])
    ensures !Tells(alerts, j, k)
  {
    HeldIsToldIff(alerts, k);
    forall p: nat, i: nat ensures !(k <= p && EndsSilence(alerts, p, i)) {}
  }

  // ---- The dispatcher ----

  datatype Report = Report(considered: nat, sent: nat, grouped: nat, held: nat, failed: nat)

  datatype Row = Row(destination: int, subject: string)

  function Rows(ds: seq<Destination>, subject: string): set<Row> { set i | 0 <= i < |ds| :: Row(ds[i].id, subject) }

  function ListedCount(ds: seq<Destination>, e: Trigger): nat {
    if ds == [] then 0 else ListedCount(ds[..|ds| - 1], e) + if Listed(ds[|ds| - 1], e) then 1 else 0
  }

  class NotificationDispatcher {
    var dispatches: map<Row, Dispatch>

    function Previous(d: Destination, subject: string): Option<Dispatch>
      reads this
    {
      if Row(d.id, subject) in dispatches then Some(dispatches[Row(d.id, subject)]) else None
    }

    /** `alert`: one pass over the project's destinations that are confirmed and subscribed. `outcomes[i]`
        is how a send to destination `i` ends. */
    method AlertAll(destinations: seq<Destination>, outcomes: seq<Outcome>, e: Trigger, subject: string, now: int)
        returns (report: Report)
      requires |outcomes| == |destinations|
      requires forall i, j | 0 <= i < j < |destinations| :: destinations[i].id != destinations[j].id
      modifies this
      ensures report.considered == ListedCount(destinations, e)
      ensures report.considered == report.sent + report.grouped + report.held + report.failed
      ensures forall i | 0 <= i < |destinations| ::
                Previous(destinations[i], subject)
                  == Next(destinations[i], old(Previous(destinations[i], subject)), e, now, outcomes[i])
      ensures forall row | row !in Rows(destinations, subject) ::
                (row in dispatches <==> row in old(dispatches))
                  && (row in dispatches ==> dispatches[row] == old(dispatches)[row])
    {
      report := Report(0, 0, 0, 0, 0);
      for i := 0 to |destinations|
        invariant report.considered == ListedCount(destinations[..i], e)
                  == report.sent + report.grouped + report.held + report.failed
        invariant forall k | 0 <= k < i ::
                    Previous(destinations[k], subject)
                      == Next(destinations[k], old(Previous(destinations[k], subject)), e, now, outcomes[k])
        invariant forall k | i <= k < |destinations| ::
                  Previous(destinations[k], subject) == old(Previous(destinations[k], subject))
        invariant forall row | row !in Rows(destinations, subject) ::
                    (row in dispatches <==> row in old(dispatches))
                      && (row in dispatches ==> dispatches[row] == old(dispatches)[row])
      {
        var d := destinations[i];
        assert destinations[..i + 1][..i] == destinations[..i];
        assert Row(destinations[i].id, subject) in Rows(destinations, subject);
        if !Listed(d, e) { continue; }
        report := AlertOne(d, outcomes[i], e, subject, now, report);
      }
      assert destinations[..|destinations|] == destinations;
    }

    method AlertOne(d: Destination, outcome: Outcome, e: Trigger, subject: string, now: int, before: Report)
        returns (report: Report)
      requires Listed(d, e)
      modifies this
      ensures dispatches == old(dispatches)[Row(d.id, subject) := After(d, old(Previous(d, subject)), e, now, outcome)]
      ensures report.considered == before.considered + 1
      ensures report.sent + report.grouped + report.held + report.failed
              == before.sent + before.grouped + before.held + before.failed + 1
      ensures var verdict := Verdict(d, e, old(Previous(d, subject)), now);
              && report.sent == before.sent + (if Sends(verdict) && outcome == SentAndNoted then 1 else 0)
              && report.failed == before.failed + (if Sends(verdict) && outcome != SentAndNoted then 1 else 0)
              && report.grouped == before.grouped + (if verdict == Grouped then 1 else 0)
              && report.held == before.held + (if verdict == QuietHours then 1 else 0)
    {
      report := before.(considered := before.considered + 1);
      var previous := Previous(d, subject);
      var verdict := Verdict(d, e, previous, now);
      var dispatch := Recorded(previous, e, now);
      dispatches := dispatches[Row(d.id, subject) := dispatch];
      if !Sends(verdict) {
        if verdict == Grouped { report := report.(grouped := report.grouped + 1); }
        else if verdict == QuietHours { report := report.(held := report.held + 1); }
        return;
      }
      if outcome == SentAndNoted {
        dispatches := dispatches[Row(d.id, subject) :=
          dispatch.(sentAt := Some(now), occurrences := 1, firstAt := now)];
        report := report.(sent := report.sent + 1);
      } else {
        report := report.(failed := report.failed + 1);
      }
    }
  }
}
