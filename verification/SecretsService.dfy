/** The statements of `rotate` and `revoke`, in the source's order, against the table of their
    transaction (apps/control-api/src/endpoint-secrets/endpoint-secrets.service.ts:178-602). */
module SecretsService {
  import opened Domain
  import opened Secrets

  /** What a rotation reports: the older versions that go on signing beside the new one, and until when. */
  datatype Overlap = Overlap(versions: set<nat>, until: Option<Time>)

  /** A column list of `updateMany`; `None` leaves a column alone. */
  datatype Patch = Patch(active: Option<bool>, expiresAt: Option<Time>, rotatedAt: Option<Time>)

  function Patched(s: Secret, p: Patch): (r: Secret) {
    s.(active := if p.active.Some? then p.active.value else s.active,
       expiresAt := if p.expiresAt.Some? then p.expiresAt else s.expiresAt,
       rotatedAt := if p.rotatedAt.Some? then p.rotatedAt else s.rotatedAt)
  }

  /** Some secret that existed before, as `after` holds it now, signs at `t`. */
  predicate PriorSigns(before: Table, after: Table, e: Id, t: Time)
    requires before.Keys <= after.Keys
  {
    exists id | id in before :: after[id].endpoint == e && Signs(after[id], t)
  }

  function ExtendedIds(rows: Table, live: set<Id>, now: Time, until: Time): (ids: set<Id>)
    requires live <= rows.Keys
  {
    set id | id in live && Extended(rows[id], now, until)
  }

  function LiveIds(rows: Table, e: Id, now: Time): (ids: set<Id>) {
    set id | id in rows && rows[id].endpoint == e && Signs(rows[id], now)
  }

  /** When a secret stops: an extended one at the new expiry, any other at its own. */
  function StopsAt(rows: Table, extended: set<Id>, newExpiry: Time, id: Id): (t: Time)
    requires id in rows && (id in extended || rows[id].expiresAt.Some?)
  {
    if id in extended then newExpiry else rows[id].expiresAt.value
  }

  /** `r` lists the versions of `live` that stop after `now`, and the latest of those instants. */
  ghost predicate IsOverlap(rows: Table, live: set<Id>, extended: set<Id>, newExpiry: Time, now: Time, r: Overlap)
    requires live <= rows.Keys && forall id | id in live - extended :: rows[id].expiresAt.Some?
  {
    var surviving := set id | id in live && StopsAt(rows, extended, newExpiry, id) > now;
    && r.versions == (set id | id in surviving :: rows[id].version)
    && (r.until.None? <==> surviving == {})
    && (r.until.Some? ==>
          && (exists id | id in surviving :: StopsAt(rows, extended, newExpiry, id) == r.until.value)
          && (forall id | id in surviving :: StopsAt(rows, extended, newExpiry, id) <= r.until.value))
  }

  /** `stillSigningAfter`. */
  method StillSigningAfter(rows: Table, live: set<Id>, extended: set<Id>, newExpiry: Time, now: Time)
    returns (r: Overlap)
    requires live <= rows.Keys
    requires forall id | id in live - extended :: rows[id].expiresAt.Some?
    ensures IsOverlap(rows, live, extended, newExpiry, now, r)
  {
    var surviving := set id | id in live && StopsAt(rows, extended, newExpiry, id) > now;
    var versions := set id | id in surviving :: rows[id].version;
    if surviving == {} { return Overlap(versions, None); }
    var first :| first in surviving;
    var until := StopsAt(rows, extended, newExpiry, first);
    var todo := surviving - {first};
    while todo != {}
      invariant todo <= surviving
      invariant exists id | id in surviving :: StopsAt(rows, extended, newExpiry, id) == until
      invariant forall id | id in surviving && id !in todo :: StopsAt(rows, extended, newExpiry, id) <= until
      decreases todo
    {
      var id :| id in todo;
      todo := todo - {id};
      if StopsAt(rows, extended, newExpiry, id) > until { until := StopsAt(rows, extended, newExpiry, id); }
    }
    return Overlap(versions, Some(until));
  }

  class SecretTable {
    var rows: Table

    constructor(rows: Table)
      ensures this.rows == rows
    {
      this.rows := rows;
    }

    /** `updateMany({ endpointId, id in ids }, patch)`. */
    method UpdateMany(e: Id, ids: set<Id>, patch: Patch)
      modifies this
      ensures rows.Keys == old(rows).Keys
      ensures forall id | id in rows ::
        rows[id] == if old(rows)[id].endpoint == e && id in ids then Patched(old(rows)[id], patch) else old(rows)[id]
    {
      rows := map id | id in rows :: if rows[id].endpoint == e && id in ids then Patched(rows[id], patch) else rows[id];
    }

    /** The next version after the highest read; both unique keys of the table are checked. */
    method InsertSecret(e: Id, newId: Id, ghost existing: Table, highest: nat) returns (r: Result<Secret>)
      requires highest == Highest(VersionsOf(existing, e))
      modifies this
      ensures r.Ok? <==>
        && newId !in old(rows)
        && forall id | id in old(rows) && old(rows)[id].endpoint == e :: old(rows)[id].version != highest + 1
      ensures r.Ok? ==> r.value == Secret(e, NextVersion(existing, e), true, None, None)
                        && rows == old(rows)[newId := r.value]
      ensures r.Err? ==> r.error == Conflict && rows == old(rows)
    {
      if newId in rows || exists id | id in rows :: rows[id].endpoint == e && rows[id].version == highest + 1 {
        return Err(Conflict);
      }
      var row := Secret(e, highest + 1, true, None, None);
      rows := rows[newId := row];
      return Ok(row);
    }

    /** The reduce over `secretsFor` that finds the highest version. */
    method HighestVersion(e: Id) returns (highest: nat)
      ensures highest == Highest(VersionsOf(rows, e))
    {
      highest := 0;
      var todo := set id | id in rows && rows[id].endpoint == e;
      ghost var all := todo;
      while todo != {}
        invariant todo <= all
        invariant forall id | id in all - todo :: rows[id].version <= highest
        invariant highest == 0 || highest in VersionsOf(rows, e)
        decreases todo
      {
        var id :| id in todo;
        if rows[id].version > highest { highest := rows[id].version; }
        assert rows[id].version in VersionsOf(rows, e);
        ghost var done := all - todo;
        todo := todo - {id};
        assert all - todo == done + {id};
      }
      assert all - todo == all;
    }

    /** `sweepExpired`, over the rows read at the start of the transaction. */
    method SweepExpired(e: Id, secrets: Table, now: Time)
      modifies this
      ensures rows.Keys == old(rows).Keys
      ensures forall id | id in rows ::
        rows[id] == if old(rows)[id].endpoint == e && id in secrets && secrets[id].active && !Signs(secrets[id], now)
                    then old(rows)[id].(active := false) else old(rows)[id]
    {
      var stale := set id | id in secrets && Stale(secrets[id], now);
      assert forall id | id in secrets && Stale(secrets[id], now) :: id in stale;
      if stale == {} { return; }
      UpdateMany(e, stale, Patch(Some(false), None, None));
    }

    method AssertStillSigning(e: Id, status: EndpointStatus, now: Time) returns (r: Option<Error>)
      ensures r.None? <==> status == Deleted || CanSign(rows, e, now)
      ensures r.Some? ==> r.value == InternalError
    {
      if status == Deleted { return None; }
      if CanSign(rows, e, now) { return None; }
      return Some(InternalError);
    }

    /** The writes of a rotation in order: insert, expiries, sweep. Returns the ids whose life was cut
        to the overlap. */
    method WriteRotation(e: Id, newId: Id, now: Time, expiresAt: Time, live: set<Id>) returns (r: Result<set<Id>>)
      requires live == LiveIds(rows, e, now)
      modifies this
      ensures r.Ok? <==> newId !in old(rows)
      ensures r.Err? ==> rows == old(rows) && r.error == Conflict
      ensures r.Ok? ==> r.value == ExtendedIds(old(rows), live, now, expiresAt)
      ensures r.Ok? ==> rows.Keys == old(rows).Keys + {newId}
      ensures r.Ok? ==> rows[newId] == Secret(e, NextVersion(old(rows), e), true, None, None)
      ensures r.Ok? ==> forall id | id in old(rows) :: rows[id] == AfterStatements(old(rows)[id], e, now, expiresAt)
    {
      var existing := rows;
      var highest := HighestVersion(e);
      var created := InsertSecret(e, newId, existing, highest);
      assert forall id | id in existing && existing[id].endpoint == e ::
             existing[id].version < NextVersion(existing, e);
      if created.Err? { return Err(created.error); }
      hide AfterStatements, ExtendedIds;
      var extended := ClockAndSweep(e, existing, now, expiresAt, live);
      return Ok(extended);
    }

    /** Put a clock on the live ones, then flip the ones whose window had already closed. */
    method ClockAndSweep(e: Id, existing: Table, now: Time, expiresAt: Time, live: set<Id>) returns (extended: set<Id>)
      requires live == LiveIds(existing, e, now)
      requires existing.Keys <= rows.Keys && forall id | id in existing :: rows[id] == existing[id]
      modifies this
      ensures extended == ExtendedIds(existing, live, now, expiresAt)
      ensures rows.Keys == old(rows).Keys
      ensures forall id | id in rows ::
              rows[id] == if id in existing then AfterStatements(existing[id], e, now, expiresAt) else old(rows)[id]
    {
      extended := ExtendedIds(existing, live, now, expiresAt);
      assert forall id | id in existing ::
          id in extended <==> existing[id].endpoint == e && Extended(existing[id], now, expiresAt);
      if extended != {} {
        UpdateMany(e, extended, Patch(None, Some(expiresAt), Some(now)));
      }
      SweepExpired(e, existing, now);
    }

    /** `rotate`: refused for an absent or deleted endpoint; otherwise the table becomes
        `RotateTable`, and the answer names exactly the prior versions the new table still signs with. */
    method Rotate(status: Option<EndpointStatus>, e: Id, newId: Id, now: Time, overlap: nat)
        returns (r: Result<Overlap>)
      modifies this
      ensures r.Ok? <==> status.Some? && status.value != Deleted && newId !in old(rows)
      ensures r.Err? ==> rows == old(rows) && r.error == if status.None? then NotFound else Conflict
      ensures r.Ok? ==> rows == RotateTable(old(rows), e, newId, now, overlap)
      ensures r.Ok? ==> r.value.versions == set id | id in LiveIds(rows, e, now) && id != newId :: rows[id].version
      ensures r.Ok? ==> forall t | t >= now ::
        PriorSigns(old(rows), rows, e, t) <==> r.value.until.Some? && t < r.value.until.value
    {
      if status.None? { return Err(NotFound); }
      if status.value == Deleted { return Err(Conflict); }
      var before, live := rows, LiveIds(rows, e, now);
      var expiresAt := now + overlap * 1000;
      var written := WriteRotation(e, newId, now, expiresAt, live);
      if written.Err? { return Err(written.error); }
      hide Superseded, RotateTable, Extended, Stale;
      StatementsRotate(before, e, newId, now, overlap, rows);
      NullExpiryIsExtended(before, e, now, expiresAt);
      var still := StillSigningAfter(before, live, written.value, expiresAt, now);
      OverlapIsExact(before, e, newId, now, overlap, still);
      RotateSignsForever(before, e, newId, now, overlap);
      var refused := AssertStillSigning(e, status.value, now);
      assert refused.None?;
      return Ok(still);
    }

    /** `revoke`: refused for an absent endpoint or secret, and when it would leave a live endpoint
        with nothing to sign with. */
    method Revoke(status: Option<EndpointStatus>, e: Id, target: Id, now: Time) returns (r: Result<()>)
      modifies this
      ensures r.Ok? <==>
        && status.Some? && target in old(rows) && old(rows)[target].endpoint == e
        && (status.value == Deleted || HasSurvivor(old(rows), e, target, now))
      ensures r.Ok? ==> rows == RevokeTable(old(rows), e, target, now)
      ensures r.Err? ==> rows == old(rows)
      ensures r.Err? ==> r.error == if status.None? || target !in rows || rows[target].endpoint != e then NotFound
              else Conflict
    {
      if status.None? { return Err(NotFound); }
      if target !in rows || rows[target].endpoint != e { return Err(NotFound); }
      if !HasSurvivor(rows, e, target, now) && status.value != Deleted { return Err(Conflict); }
      ghost var was := rows;
      UpdateMany(e, {target}, Patch(Some(false), Some(now), Some(now)));
      assert rows == RevokeTable(was, e, target, now) by {
        assert forall id | id in rows :: rows[id] == RevokeTable(was, e, target, now)[id];
      }
      SurvivorIffStillSigns(was, e, target, now);
      var refused := AssertStillSigning(e, status.value, now);
      assert refused.None?;
      return Ok(());
    }
  }

  lemma NullExpiryIsExtended(rows: Table, e: Id, now: Time, until: Time)
    ensures forall id | id in LiveIds(rows, e, now) && !Extended(rows[id], now, until) :: rows[id].expiresAt.Some?
  {
  }

  /** One prior row after the two updates of a rotation: the clock first, the sweep on top of it. */
  function AfterStatements(s: Secret, e: Id, now: Time, until: Time): (r: Secret) {
    var clocked := if s.endpoint == e && Extended(s, now, until)
                   then s.(expiresAt := Some(until), rotatedAt := Some(now)) else s;
    if s.endpoint == e && Stale(s, now) then clocked.(active := false) else clocked
  }

  /** Insert, put a clock on the live ones, sweep the expired ones: together, one rotation. */
  lemma StatementsRotate(rows: Table, e: Id, newId: Id, now: Time, overlap: nat, after: Table)
    requires newId !in rows
    requires after.Keys == rows.Keys + {newId}
    requires after[newId] == Secret(e, NextVersion(rows, e), true, None, None)
    requires forall id | id in rows :: after[id] == AfterStatements(rows[id], e, now, now + overlap * 1000)
    ensures after == RotateTable(rows, e, newId, now, overlap)
  {
    RotateShape(rows, e, newId, now, overlap);
    var r := RotateTable(rows, e, newId, now, overlap);
    forall id | id in after ensures after[id] == r[id] {
    }
  }

  /** When each secret of the endpoint stops, in the table a rotation leaves behind. */
  lemma StopsInAfter(rows: Table, e: Id, newId: Id, now: Time, overlap: nat, extended: set<Id>, id: Id, t: Time)
    requires newId !in rows && id in rows && t >= now
    requires extended == ExtendedIds(rows, LiveIds(rows, e, now), now, now + overlap * 1000)
    ensures var s := RotateTable(rows, e, newId, now, overlap)[id];
            s.endpoint == e && Signs(s, t)
            <==> id in LiveIds(rows, e, now) && t < StopsAt(rows, extended, now + overlap * 1000, id)
  {
    RotateShape(rows, e, newId, now, overlap);
  }

  /** The versions a rotation reports are those that sign beside the new one at its `now`. */
  lemma VersionsAreExact(rows: Table, e: Id, newId: Id, now: Time, overlap: nat, still: Overlap)
    requires newId !in rows
    requires var live := LiveIds(rows, e, now);
             var until := now + overlap * 1000;
             IsOverlap(rows, live, ExtendedIds(rows, live, now, until), until, now, still)
    ensures var after := RotateTable(rows, e, newId, now, overlap);
            still.versions == set id | id in LiveIds(after, e, now) && id != newId :: after[id].version
  {
    var after := RotateTable(rows, e, newId, now, overlap);
    var live := LiveIds(rows, e, now);
    var until := now + overlap * 1000;
    var extended := ExtendedIds(rows, live, now, until);
    RotateShape(rows, e, newId, now, overlap);
    hide RotateTable, Superseded, Extended;
    forall id | id in rows
      ensures after[id].endpoint == e && Signs(after[id], now)
              <==> id in live && now < StopsAt(rows, extended, until, id)
    {
      StopsInAfter(rows, e, newId, now, overlap, extended, id, now);
    }
  }

  /** What a rotation reports, read off the table it leaves behind. */
  lemma OverlapIsExact(rows: Table, e: Id, newId: Id, now: Time, overlap: nat, still: Overlap)
    requires newId !in rows
    requires var live := LiveIds(rows, e, now);
             var until := now + overlap * 1000;
             IsOverlap(rows, live, ExtendedIds(rows, live, now, until), until, now, still)
    ensures var after := RotateTable(rows, e, newId, now, overlap);
            && still.versions == (set id | id in LiveIds(after, e, now) && id != newId :: after[id].version)
            && forall t | t >= now :: PriorSigns(rows, after, e, t) <==> still.until.Some? && t < still.until.value
  {
    VersionsAreExact(rows, e, newId, now, overlap, still);
    var after := RotateTable(rows, e, newId, now, overlap);
    var live := LiveIds(rows, e, now);
    var until := now + overlap * 1000;
    var extended := ExtendedIds(rows, live, now, until);
    RotateShape(rows, e, newId, now, overlap);
    hide RotateTable, Superseded, Extended, ExtendedIds;
    forall t | t >= now
      ensures PriorSigns(rows, after, e, t) <==> still.until.Some? && t < still.until.value
    {
      if PriorSigns(rows, after, e, t) {
        var id :| id in rows && after[id].endpoint == e && Signs(after[id], t);
        StopsInAfter(rows, e, newId, now, overlap, extended, id, t);
      } else if still.until.Some? {
        var id :| id in live && StopsAt(rows, extended, until, id) == still.until.value;
        StopsInAfter(rows, e, newId, now, overlap, extended, id, t);
      }
    }
  }
}
