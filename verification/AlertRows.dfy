/** Quiet hours by the clock, and the grouping row read off a whole run
    (apps/control-api/src/notification-destinations/notification-rules.ts:62-69,
    apps/control-api/src/maintenance/notification-dispatcher.service.ts:116-180). */
module AlertRows {
  import opened Domain
  import opened Alerts

  const DAY_MS: int := 24 * HOUR_MS

  /** Quiet hours are the first seven hours and the last two of every UTC day. */
  lemma QuietInterval(day: int, ms: int)
    requires 0 <= ms < DAY_MS
    ensures InQuietHours(day * DAY_MS + ms) <==> ms < 25_200_000 || ms >= 79_200_000
  {
    var hour := ms / HOUR_MS;
    assert (day * DAY_MS + ms) / HOUR_MS == day * 24 + hour;
    assert 0 <= hour < 24 && (day * 24 + hour) % 24 == hour;
  }

  /** The whole row, read off the run: `first` and `last` are the first and last alerts heard from the last
      noted send on, which is `from` itself if there was one. */
  lemma {:induction false} RowIsExact(alerts: seq<Alert>, from: nat, first: nat, last: nat)
    requires LastSend(alerts, from) && from <= first <= last < |alerts| && Heard(alerts[first]) && Heard(alerts[last])
    requires forall i | from <= i < first || last < i < |alerts| :: !Heard(alerts[i])
    requires from == 0 || first == from
    ensures RowAfter(alerts)
            == Some(Dispatch(alerts[last].event, HeardFrom(alerts, from), alerts[first].now, alerts[last].now,
                             if Noted(alerts, from) then Some(alerts[from].now) else None))
  {
    var n := |alerts| - 1;
    if from == n {
      OccurrencesAreExact(alerts, from);
      if !Noted(alerts, n) { assert alerts[..0] == []; }
    } else {
      forall k | from <= k < n ensures Noted(alerts[..n], k) <==> Noted(alerts, k) { NotedInPrefix(alerts, n, k); }
      assert !Noted(alerts, n);
      if last < n {
        RowIsExact(alerts[..n], from, first, last);
      } else if first < n {
        var before := LastHeardBefore(alerts, first, n);
        RowIsExact(alerts[..n], from, first, before);
      } else {
        NothingHeard(alerts[..n]);
        OccurrencesAreExact(alerts, from);
        assert !Heard(alerts[from]);
      }
    }
  }
}
