/** What the operator's requests answer, and when an endpoint is due for the sweep
    (apps/control-api/src/endpoints/endpoints.service.ts:203-479). */
module EndpointAnswers {
  import opened Domain
  import opened Endpoints
  import opened EndpointProofs

  /** An endpoint is due for the sweep exactly when it is in service and its breaker has stood open for the
      configured hours or longer. */
  lemma EligibleMeans(t: Table, h: HealthTable, now: int, afterHours: nat, id: int)
    ensures id in Eligible(t, h, now, afterHours) <==>
            && id in t && t[id].status == Active && t[id].enabled
            && id in h && h[id].state == Open && h[id].openedAt.Some?
            && h[id].openedAt.value + afterHours * 60 * 60 * 1000 <= now
  {
  }

  /** Nothing but the row of `id` differs. */
  predicate OnlyRow(s: System, r: System, id: int) {
    && r.audits == s.audits && r.queue == s.queue
    && (forall k | k in s.endpoints && k != id :: k in r.endpoints && r.endpoints[k] == s.endpoints[k])
    && (forall k | k in r.endpoints && k != id :: k in s.endpoints)
  }

  /** An endpoint is created paused. It goes live when its secret is minted and may be handed over, and is
      marked deleted when none could be minted and that much could still be written. */
  lemma CreateAnswers(s: System, id: int, mayReceiveSecret: bool, minted: bool, cleanedUp: bool)
    ensures var r := Do(s, Create(id, mayReceiveSecret, minted, cleanedUp));
            && OnlyRow(s, r, id) && id in r.endpoints && TidyRow(r.endpoints[id])
            && r.health == s.health
            && r.endpoints[id].status == (if minted && mayReceiveSecret then Active
                                          else if !minted && cleanedUp then Deleted
                                          else Paused)
            && r.endpoints[id].disabledReason == None && r.endpoints[id].disabledAt == None
  {
  }

  /** An enable is refused for a row that is absent or deleted and without a live secret. Otherwise the row
      is live with no trace of the breaker, whose next probe, where it is open, is due at once. */
  lemma EnableAnswers(s: System, id: int, hasLiveSecret: bool, now: int)
    ensures var r := Do(s, Enable(id, hasLiveSecret, now));
            && OnlyRow(s, r, id)
            && (if id !in s.endpoints || s.endpoints[id].status == Deleted || !hasLiveSecret then r == s
                else && Live(r.endpoints, id) && TidyRow(r.endpoints[id])
                     && r.health.Keys == s.health.Keys
                     && (forall k | k in s.health ::
                           if k == id && s.health[k].state in {Open, HalfOpen}
                           then r.health[k].probeAfter == now && r.health[k].state == s.health[k].state
                                && r.health[k].openedAt == s.health[k].openedAt
                           else r.health[k] == s.health[k]))
    ensures EnableRow(s.endpoints, id, hasLiveSecret).Err? ==>
              EnableRow(s.endpoints, id, hasLiveSecret).error == if id in s.endpoints then Conflict else NotFound
  {
  }

  /** A disable pauses a row that is there and not deleted, and leaves the breaker's columns alone. */
  lemma DisableAnswers(s: System, id: int)
    ensures var r := Do(s, Disable(id));
            && OnlyRow(s, r, id) && r.health == s.health
            && (if id !in s.endpoints || s.endpoints[id].status == Deleted then r == s
                else && id in r.endpoints && r.endpoints[id].status == Paused && !r.endpoints[id].enabled
                     && r.endpoints[id].disabledReason == s.endpoints[id].disabledReason
                     && r.endpoints[id].disabledAt == s.endpoints[id].disabledAt)
    ensures DisableRow(s.endpoints, id).Err? ==>
              DisableRow(s.endpoints, id).error == if id in s.endpoints then Conflict else NotFound
  {
  }

  /** A removal marks the row deleted, and a second one finds it so and changes nothing. */
  lemma RemoveAnswers(s: System, id: int)
    ensures var r := Do(s, Remove(id));
            && OnlyRow(s, r, id) && r.health == s.health
            && (if id !in s.endpoints then r == s
                else && id in r.endpoints && r.endpoints[id].status == Deleted
                     && (s.endpoints[id].status != Deleted ==> !r.endpoints[id].enabled)
                     && r.endpoints[id].disabledReason == s.endpoints[id].disabledReason
                     && Do(r, Remove(id)) == r)
    ensures RemoveRow(s.endpoints, id).Err? <==> id !in s.endpoints
  {
  }

  /** The data plane's breaker moves by itself. */
  lemma BreakerAnswers(s: System, id: int, health: Health)
    ensures Do(s, Breaker(id, health)) == s.(health := s.health[id := health])
  {
  }
}
