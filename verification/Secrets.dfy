/** Signing secrets of an endpoint: what one rotation and one revocation do to the table
    (apps/control-api/src/endpoint-secrets/endpoint-secrets.service.ts). */
module Secrets {
  import opened Domain

  type Id = nat
  type Time = int

  datatype Secret = Secret(
    endpoint: Id, version: nat, active: bool, expiresAt: Option<Time>, rotatedAt: Option<Time>)

  type Table = map<Id, Secret>

  /** `isEffectivelyActive`: a secret expiring at `t` no longer signs at `t`. */
  predicate Signs(s: Secret, t: Time) {
    s.active && (s.expiresAt.None? || s.expiresAt.value > t)
  }

  predicate CanSign(rows: Table, e: Id, t: Time) {
    exists id | id in rows :: rows[id].endpoint == e && Signs(rows[id], t)
  }

  function RowsOf(rows: Table, e: Id): (r: Table) {
    map id | id in rows && rows[id].endpoint == e :: rows[id]
  }

  function VersionsOf(rows: Table, e: Id): (vs: set<nat>) {
    set id | id in rows && rows[id].endpoint == e :: rows[id].version
  }

  ghost function Highest(vs: set<nat>): (m: nat)
    ensures forall v | v in vs :: v <= m
    ensures m in vs || (vs == {} && m == 0)
  {
    if vs == {} then 0
    else
      var v :| v in vs;
      var h := Highest(vs - {v});
      assert forall w | w in vs :: w == v || w in vs - {v};
      if v > h then v else h
  }

  ghost function NextVersion(rows: Table, e: Id): (v: nat)
    ensures v >= 1
    ensures forall id | id in rows && rows[id].endpoint == e :: rows[id].version < v
  {
    assert forall id | id in rows && rows[id].endpoint == e :: rows[id].version in VersionsOf(rows, e);
    Highest(VersionsOf(rows, e)) + 1
  }

  // ---- One rotation and one revocation, as functions of the table ----

  /** A clock goes on a live secret that would outlast the overlap. */
  predicate Extended(s: Secret, now: Time, until: Time) {
    Signs(s, now) && (s.expiresAt.None? || s.expiresAt.value > until)
  }

  /** The window already closed: housekeeping flips the column. */
  predicate Stale(s: Secret, now: Time) {
    s.active && s.expiresAt.Some? && s.expiresAt.value <= now
  }

  function Superseded(s: Secret, now: Time, until: Time): (r: Secret) {
    if Extended(s, now, until) then s.(expiresAt := Some(until), rotatedAt := Some(now))
    else if Stale(s, now) then s.(active := false)
    else s
  }

  ghost function RotateTable(rows: Table, e: Id, newId: Id, now: Time, overlap: nat): (r: Table) {
    (map id | id in rows ::
       if rows[id].endpoint == e then Superseded(rows[id], now, now + overlap * 1000) else rows[id])
    [newId := Secret(e, NextVersion(rows, e), true, None, None)]
  }

  function RevokeTable(rows: Table, e: Id, target: Id, now: Time): (r: Table) {
    map id | id in rows ::
      if id == target && rows[id].endpoint == e
      then rows[id].(active := false, expiresAt := Some(now), rotatedAt := Some(now))
      else rows[id]
  }

  // ---- The invariant of the table ----

  ghost predicate DistinctVersions(rows: Table) {
    forall i, j | i in rows && j in rows && rows[i].endpoint == rows[j].endpoint
      && rows[i].version == rows[j].version :: i == j
  }

  ghost predicate HasFirst(rows: Table, e: Id) {
    exists j | j in rows :: rows[j].endpoint == e && rows[j].version == 1
  }

  ghost predicate StartAtOne(rows: Table) {
    forall i | i in rows :: rows[i].version >= 1 && HasFirst(rows, rows[i].endpoint)
  }

  /** Only an endpoint's newest row may lack an expiry, and then it is active. */
  ghost predicate NewestOpen(rows: Table) {
    forall i | i in rows && rows[i].expiresAt.None? ::
      rows[i].active && forall j | j in rows && rows[j].endpoint == rows[i].endpoint ::
        rows[j].version <= rows[i].version
  }

  ghost predicate Tidy(rows: Table) {
    DistinctVersions(rows) && StartAtOne(rows) && NewestOpen(rows)
  }

  /** The newest row is live with no expiry: the endpoint signs for ever. */
  ghost predicate SignsForever(rows: Table, e: Id) {
    exists i | i in rows :: rows[i].endpoint == e && rows[i].active && rows[i].expiresAt.None?
  }

  lemma RotateShape(rows: Table, e: Id, newId: Id, now: Time, overlap: nat)
    requires newId !in rows
    ensures var after := RotateTable(rows, e, newId, now, overlap);
            && after.Keys == rows.Keys + {newId}
            && after[newId] == Secret(e, NextVersion(rows, e), true, None, None)
            && (forall i | i in rows :: after[i].endpoint == rows[i].endpoint && after[i].version == rows[i].version)
            && (forall i | i in rows && rows[i].endpoint != e :: after[i] == rows[i])
            && (forall i | i in rows && rows[i].endpoint == e ::
              after[i] == Superseded(rows[i], now, now + overlap * 1000))
  {
  }

  lemma RotateKeepsFirst(rows: Table, e: Id, newId: Id, now: Time, overlap: nat)
    requires StartAtOne(rows) && newId !in rows
    ensures StartAtOne(RotateTable(rows, e, newId, now, overlap))
  {
    hide RotateTable, Superseded;
    RotateShape(rows, e, newId, now, overlap);
    var after := RotateTable(rows, e, newId, now, overlap);
    forall f | HasFirst(rows, f) ensures HasFirst(after, f) {
      var j :| j in rows && rows[j].endpoint == f && rows[j].version == 1;
      assert j in after;
    }
    if VersionsOf(rows, e) == {} {
      assert newId in after && after[newId].version == 1;
    } else {
      var k :| k in rows && rows[k].endpoint == e;
      assert HasFirst(rows, e);
    }
  }

  lemma RotateStaysDistinct(rows: Table, e: Id, newId: Id, now: Time, overlap: nat)
    requires DistinctVersions(rows) && newId !in rows
    ensures DistinctVersions(RotateTable(rows, e, newId, now, overlap))
  {
    hide RotateTable, Superseded;
    RotateShape(rows, e, newId, now, overlap);
  }

  lemma RotateStaysNewestOpen(rows: Table, e: Id, newId: Id, now: Time, overlap: nat)
    requires NewestOpen(rows) && newId !in rows
    ensures NewestOpen(RotateTable(rows, e, newId, now, overlap))
  {
    hide RotateTable;
    RotateShape(rows, e, newId, now, overlap);
    var after := RotateTable(rows, e, newId, now, overlap);
    assert forall i | i in rows && rows[i].endpoint == e :: after[i].expiresAt.Some?;
  }

  /** Rotation keeps the versions distinct and leaves only the new row without an expiry. */
  lemma RotateStaysTidy(rows: Table, e: Id, newId: Id, now: Time, overlap: nat)
    requires Tidy(rows) && newId !in rows
    ensures Tidy(RotateTable(rows, e, newId, now, overlap))
  {
    hide RotateTable, DistinctVersions, StartAtOne, NewestOpen;
    RotateKeepsFirst(rows, e, newId, now, overlap);
    RotateStaysDistinct(rows, e, newId, now, overlap);
    RotateStaysNewestOpen(rows, e, newId, now, overlap);
  }

  lemma RevokeShape(rows: Table, e: Id, target: Id, now: Time)
    ensures var after := RevokeTable(rows, e, target, now);
            && after.Keys == rows.Keys
            && (forall i | i in rows :: after[i].endpoint == rows[i].endpoint && after[i].version == rows[i].version)
            && (forall i | i in rows && after[i].expiresAt.None? :: after[i] == rows[i])
            && (forall i | i in rows && i != target :: after[i] == rows[i])
  {
  }

  lemma RevokeStaysTidy(rows: Table, e: Id, target: Id, now: Time)
    requires Tidy(rows)
    ensures Tidy(RevokeTable(rows, e, target, now))
  {
    hide RevokeTable;
    RevokeShape(rows, e, target, now);
    var after := RevokeTable(rows, e, target, now);
    forall f | HasFirst(rows, f) ensures HasFirst(after, f) {
      var j :| j in rows && rows[j].endpoint == f && rows[j].version == 1;
      assert j in after;
    }
  }

  /** Rotation makes the endpoint sign at every instant, and lengthens no secret's life. */
  lemma RotateSignsForever(rows: Table, e: Id, newId: Id, now: Time, overlap: nat)
    requires newId !in rows
    ensures var after := RotateTable(rows, e, newId, now, overlap);
            && SignsForever(after, e)
            && (forall t :: CanSign(after, e, t))
            && (forall id, t | id in rows && Signs(after[id], t) :: Signs(rows[id], t))
            && (forall id | id in rows && rows[id].endpoint != e :: after[id] == rows[id])
  {
    var after := RotateTable(rows, e, newId, now, overlap);
    assert newId in after;
    forall t ensures CanSign(after, e, t) { assert Signs(after[newId], t); }
  }

  ghost predicate IsNewest(rows: Table, e: Id, i: Id) {
    i in rows && rows[i].endpoint == e
    && forall j | j in rows && rows[j].endpoint == e :: rows[j].version <= rows[i].version
  }

  lemma NewestExists(rows: Table, e: Id) returns (i: Id)
    requires RowsOf(rows, e) != map[]
    ensures IsNewest(rows, e, i)
  {
    var vs := VersionsOf(rows, e);
    var top := Highest(vs);
    var some :| some in RowsOf(rows, e);
    assert rows[some].version in vs;
    i :| i in rows && rows[i].endpoint == e && rows[i].version == top;
    forall j | j in rows && rows[j].endpoint == e ensures rows[j].version <= top {
      assert rows[j].version in vs;
    }
  }

  /** Some secret of `e` with an expiry is still active past `t`. */
  ghost predicate Outlasts(rows: Table, e: Id, t: Time) {
    exists i | i in rows :: rows[i].endpoint == e && rows[i].active
                            && rows[i].expiresAt.Some? && t < rows[i].expiresAt.value
  }

  /** In a tidy table an endpoint signs at `t` exactly when its newest row has no expiry, or some
      row is active with an expiry past `t`. */
  lemma SigningHorizon(rows: Table, e: Id, newest: Id, t: Time)
    requires Tidy(rows) && IsNewest(rows, e, newest)
    ensures CanSign(rows, e, t) <==> rows[newest].expiresAt.None? || Outlasts(rows, e, t)
  {
    if i :| i in rows && rows[i].endpoint == e && Signs(rows[i], t) {
      assert rows[i].expiresAt.None? ==> rows[i].version == rows[newest].version;
    }
    if rows[newest].expiresAt.None? { assert Signs(rows[newest], t); }
  }

  // ---- When the survivors of a revocation have all expired ----

  /** The expiries of the active secrets of `e` other than `id`. */
  function Ends(rows: Table, e: Id, id: Id): (ends: set<Time>) {
    set i | i in rows && i != id && rows[i].endpoint == e && rows[i].active && rows[i].expiresAt.Some? ::
      rows[i].expiresAt.value
  }

  ghost function Latest(times: set<Time>): (t: Option<Time>)
    ensures t.None? <==> times == {}
    ensures t.Some? ==> t.value in times && forall x | x in times :: x <= t.value
  {
    if times == {} then None
    else
      assert (forall m: int :: m !in times) ==> times == {};
      var x :| x in times;
      var rest := Latest(times - {x});
      assert forall y | y in times :: y == x || y in times - {x};
      if rest.Some? && rest.value > x then rest else Some(x)
  }

  predicate Before(t: Time, end: Option<Time>) { end.Some? && t < end.value }

  /** Revoking `id` would leave `e` no secret without an expiry: it is the newest, or the newest is
      already inactive. */
  ghost predicate ClosesWindow(rows: Table, e: Id, id: Id) {
    exists newest | newest in rows :: IsNewest(rows, e, newest) && (newest == id || !rows[newest].active)
  }

  /** With the newest secret inactive, the others sign until the last of them expires. */
  lemma ClosedWindow(rows: Table, e: Id, newest: Id, t: Time)
    requires Tidy(rows) && IsNewest(rows, e, newest) && !rows[newest].active
    ensures CanSign(rows, e, t) <==> Before(t, Latest(Ends(rows, e, newest)))
  {
    SigningHorizon(rows, e, newest, t);
    var ends := Ends(rows, e, newest);
    if Outlasts(rows, e, t) {
      var i :| i in rows && rows[i].endpoint == e && rows[i].active
               && rows[i].expiresAt.Some? && t < rows[i].expiresAt.value;
      assert rows[i].expiresAt.value in ends;
    }
    if Before(t, Latest(ends)) {
      assert Latest(ends).value in ends;
    }
  }

  lemma SameEnds(rows: Table, e: Id, id: Id, now: Time, newest: Id)
    requires newest == id || (newest in rows && !rows[newest].active)
    ensures Ends(RevokeTable(rows, e, id, now), e, newest) == Ends(rows, e, id)
  {
    var after := RevokeTable(rows, e, id, now);
    forall t ensures t in Ends(after, e, newest) <==> t in Ends(rows, e, id) {
      if t in Ends(after, e, newest) {
        var i :| i in after && i != newest && after[i].endpoint == e && after[i].active
                 && after[i].expiresAt == Some(t);
        assert i != id && after[i] == rows[i];
      }
      if t in Ends(rows, e, id) {
        var i :| i in rows && i != id && rows[i].endpoint == e && rows[i].active && rows[i].expiresAt == Some(t);
        assert after[i] == rows[i];
      }
    }
  }

  /** What a revocation leaves, read off the table before it. */
  lemma RevokeWindow(rows: Table, e: Id, id: Id, now: Time, newest: Id, t: Time)
    requires Tidy(rows) && IsNewest(rows, e, newest) && id in rows && rows[id].endpoint == e
    requires rows[newest].active ==> rows[newest].expiresAt.None?
    ensures var after := RevokeTable(rows, e, id, now);
            if newest == id || !rows[newest].active then CanSign(after, e, t) <==> Before(t, Latest(Ends(rows, e, id)))
            else CanSign(after, e, t)
  {
    var after := RevokeTable(rows, e, id, now);
    RevokeShape(rows, e, id, now);
    if newest == id || !rows[newest].active {
      RevokeStaysTidy(rows, e, id, now);
      SameEnds(rows, e, id, now, newest);
      assert !after[newest].active;
      hide RevokeTable, Tidy, Ends, CanSign;
      assert IsNewest(after, e, newest);
      ClosedWindow(after, e, newest, t);
    } else {
      hide RevokeTable, Tidy, Ends;
      assert newest in after && Signs(after[newest], t);
    }
  }

  /** Revoking is refused exactly when it would leave nothing signing. */
  predicate HasSurvivor(rows: Table, e: Id, target: Id, now: Time) {
    exists id | id in rows :: id != target && rows[id].endpoint == e && Signs(rows[id], now)
  }

  lemma SurvivorIffStillSigns(rows: Table, e: Id, target: Id, now: Time)
    ensures CanSign(RevokeTable(rows, e, target, now), e, now) <==> HasSurvivor(rows, e, target, now)
  {
    var after := RevokeTable(rows, e, target, now);
    if id :| id in rows && id != target && rows[id].endpoint == e && Signs(rows[id], now) {
      assert after[id] == rows[id];
    }
  }
}
