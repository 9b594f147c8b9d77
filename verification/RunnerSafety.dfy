/** What every schedule of the runner keeps: signing secrets and owners. */
module RunnerSafety {
  import opened Domain
  import opened Secrets
  import opened Roles
  import opened Runner

  // ---- Table-wide effect of a transaction that only saw one endpoint's rows ----

  lemma VersionsOfRows(rows: Table, e: Id)
    ensures VersionsOf(RowsOf(rows, e), e) == VersionsOf(rows, e)
    ensures NextVersion(RowsOf(rows, e), e) == NextVersion(rows, e)
  {
    var own := RowsOf(rows, e);
    forall v | v in VersionsOf(rows, e) ensures v in VersionsOf(own, e) {
      var id :| id in rows && rows[id].endpoint == e && rows[id].version == v;
      assert id in own;
    }
  }

  lemma RotateIsLocal(rows: Table, e: Id, newId: Id, now: Time, overlap: nat)
    requires newId !in rows
    ensures rows + RotateTable(RowsOf(rows, e), e, newId, now, overlap) == RotateTable(rows, e, newId, now, overlap)
  {
    VersionsOfRows(rows, e);
    RotateShape(rows, e, newId, now, overlap);
    RotateShape(RowsOf(rows, e), e, newId, now, overlap);
    hide RotateTable, Superseded;
  }

  lemma RevokeIsLocal(rows: Table, e: Id, id: Id, now: Time)
    ensures rows + RevokeTable(RowsOf(rows, e), e, id, now) == RevokeTable(rows, e, id, now)
    ensures HasSurvivor(RowsOf(rows, e), e, id, now) <==> HasSurvivor(rows, e, id, now)
  {
    var own := RowsOf(rows, e);
    if k :| k in rows && k != id && rows[k].endpoint == e && Signs(rows[k], now) {
      assert k in own;
    }
  }

  // ---- The invariant ----

  /** What an open transaction read, against what it would read now. Writers outside the runner may
      have deleted the endpoint, minted its first secret or added members, and nothing else. */
  ghost predicate StillValid(v: View, cur: View) {
    match (v, cur)
    case (SecretsView(st, rows), SecretsView(st', rows')) =>
      && (st.Some? ==> st'.Some?)
      && (st == Some(Deleted) ==> st' == Some(Deleted))
      && (rows == rows' || rows == map[])
    case (MembersView(t, owners), MembersView(t', owners')) =>
      (t.Some? ==> t' == t) && owners <= owners'
    case _ => false
  }

  ghost predicate TxnOk(t: Txn, db: Database) {
    && WellTyped(t)
    && 1 <= t.attempt <= MAX_ATTEMPTS
    && (t.phase.Open? && !t.phase.doomed ==> StillValid(t.phase.view, Read(t.req, db)))
  }

  ghost predicate OrgsOwned(db: Database) {
    forall org | org in db.orgs :: Owners(db.members, org) != {}
  }

  /** The endpoint a secrets request is about can sign at that commit's own `now`, unless it is deleted. */
  ghost predicate LeavesSigner(c: Commit) {
    c.req.Rotate? || c.req.Revoke? ==>
      && c.req.endpoint in c.after.endpoints
      && (c.after.endpoints[c.req.endpoint] != Deleted ==> CanSign(c.after.secrets, c.req.endpoint, c.now))
  }

  ghost predicate CommitOk(c: Commit) {
    LeavesSigner(c) && Tidy(c.after.secrets) && OrgsOwned(c.after)
  }

  ghost predicate Inv(s: System) {
    && Tidy(s.db.secrets)
    && OrgsOwned(s.db)
    && (forall i | 0 <= i < |s.txns| :: TxnOk(s.txns[i], s.db))
    && (forall k | 0 <= k < |s.log| :: CommitOk(s.log[k]))
  }

  // ---- One commit ----

  /** The writes of a transaction that may commit, applied where it commits. */
  ghost predicate MayCommit(req: Request, now: Time, newId: Id, v: View, db: Database, w: Writes) {
    && (v.SecretsView? <==> req.Rotate? || req.Revoke?)
    && StillValid(v, Read(req, db))
    && Execute(req, now, newId, v) == Write(w)
    && !Collides(req, newId, v, db)
  }

  /** Had the first secret been minted behind a rotation's back, its version would collide. */
  lemma RotateSeesAll(e: Id, v: View, db: Database)
    requires v.SecretsView? && StartAtOne(db.secrets)
    requires v.rows == RowsOf(db.secrets, e) || v.rows == map[]
    requires NextVersion(v.rows, e) !in VersionsOf(db.secrets, e)
    ensures v.rows == RowsOf(db.secrets, e)
  {
    var none: Table := map[];
    assert VersionsOf(none, e) == {};
    if id :| id in RowsOf(db.secrets, e) {
      assert HasFirst(db.secrets, e);
      assert 1 in VersionsOf(db.secrets, e);
    }
  }

  lemma RotateWrites(req: Request, now: Time, newId: Id, v: View, db: Database, w: Writes)
    requires req.Rotate? && StartAtOne(db.secrets) && MayCommit(req, now, newId, v, db, w)
    ensures newId !in db.secrets && req.endpoint in db.endpoints
    ensures w == Writes(RotateTable(RowsOf(db.secrets, req.endpoint), req.endpoint, newId, now, req.overlap), map[], {})
  {
    hide RotateTable, RowsOf, StartAtOne, NextVersion, VersionsOf;
    RotateSeesAll(req.endpoint, v, db);
  }

  lemma ApplySecrets(db: Database, rows: Table)
    ensures Apply(db, Writes(rows, map[], {})) == db.(secrets := db.secrets + rows)
  {
    assert (db.members + map[]) - {} == db.members;
  }

  lemma RotateCommit(req: Request, now: Time, newId: Id, v: View, db: Database, w: Writes)
    requires req.Rotate? && Tidy(db.secrets) && MayCommit(req, now, newId, v, db, w)
    ensures newId !in db.secrets
    ensures Apply(db, w) == db.(secrets := RotateTable(db.secrets, req.endpoint, newId, now, req.overlap))
    ensures Tidy(Apply(db, w).secrets)
    ensures LeavesSigner(Commit(req, now, newId, Apply(db, w)))
  {
    RotateWrites(req, now, newId, v, db, w);
    hide RotateTable, Tidy, MayCommit, RowsOf, Apply, CanSign, SignsForever;
    var e := req.endpoint;
    ApplySecrets(db, RotateTable(RowsOf(db.secrets, e), e, newId, now, req.overlap));
    RotateIsLocal(db.secrets, e, newId, now, req.overlap);
    RotateStaysTidy(db.secrets, e, newId, now, req.overlap);
    RotateSignsForever(db.secrets, e, newId, now, req.overlap);
  }

  lemma RevokeWrites(req: Request, now: Time, newId: Id, v: View, db: Database, w: Writes)
    requires req.Revoke? && MayCommit(req, now, newId, v, db, w)
    ensures req.endpoint in db.endpoints
    ensures w == Writes(RevokeTable(RowsOf(db.secrets, req.endpoint), req.endpoint, req.secret, now), map[], {})
    ensures db.endpoints[req.endpoint] == Deleted
            || HasSurvivor(RowsOf(db.secrets, req.endpoint), req.endpoint, req.secret, now)
  {
    hide RevokeTable, RowsOf, HasSurvivor;
  }

  lemma RevokeCommit(req: Request, now: Time, newId: Id, v: View, db: Database, w: Writes)
    requires req.Revoke? && Tidy(db.secrets) && MayCommit(req, now, newId, v, db, w)
    ensures Apply(db, w) == db.(secrets := RevokeTable(db.secrets, req.endpoint, req.secret, now))
    ensures Tidy(Apply(db, w).secrets)
    ensures LeavesSigner(Commit(req, now, newId, Apply(db, w)))
  {
    RevokeWrites(req, now, newId, v, db, w);
    hide RevokeTable, Tidy, MayCommit, HasSurvivor, RowsOf, Apply, CanSign;
    var e := req.endpoint;
    ApplySecrets(db, RevokeTable(RowsOf(db.secrets, e), e, req.secret, now));
    RevokeIsLocal(db.secrets, e, req.secret, now);
    RevokeStaysTidy(db.secrets, e, req.secret, now);
    SurvivorIffStillSigns(db.secrets, e, req.secret, now);
  }

  /** With two owners in view, somebody other than the target still owns the organization. */
  lemma AnotherOwner(owners: set<Id>, target: Id) returns (o: Id)
    requires |owners| >= 2
    ensures o in owners && o != target
  {
    if owners <= {target} {
      assert |owners| <= |{target}| by { SubsetSize(owners, {target}); }
    }
    o :| o in owners && o != target;
  }

  lemma SubsetSize(a: set<Id>, b: set<Id>)
    requires a <= b
    ensures |a| <= |b|
  {
    assert b == a + (b - a);
  }

  /** What a role change or a removal writes, on the tables it commits to. */
  lemma MembersWrite(req: Request, now: Time, newId: Id, v: View, db: Database, w: Writes)
    requires (req.ChangeRole? || req.RemoveMember?) && MayCommit(req, now, newId, v, db, w)
    ensures req.target in db.members && db.members[req.target].org == req.org
    ensures Apply(db, w).members
            == if req.RemoveMember? then db.members - {req.target}
               else db.members[req.target := db.members[req.target].(role := req.role)]
  {
    hide Owners, CheckRoleChange, CheckRemoval;
  }

  lemma MembersCommit(req: Request, now: Time, newId: Id, v: View, db: Database, w: Writes)
    requires (req.ChangeRole? || req.RemoveMember?) && OrgsOwned(db) && MayCommit(req, now, newId, v, db, w)
    ensures Apply(db, w).secrets == db.secrets && Apply(db, w).endpoints == db.endpoints
    ensures OrgsOwned(Apply(db, w))
    ensures req.target in db.members && db.members[req.target].org == req.org
    ensures Apply(db, w).members
            == if req.RemoveMember? then db.members - {req.target}
               else db.members[req.target := db.members[req.target].(role := req.role)]
  {
    MembersWrite(req, now, newId, v, db, w);
    var after := Apply(db, w);
    assert db.secrets + map[] == db.secrets;
    var target := req.target;
    forall org | org in db.orgs ensures Owners(after.members, org) != {} {
      var o :| o in Owners(db.members, org);
      if o == target && org == req.org {
        if |v.owners| >= 2 {
          o := AnotherOwner(v.owners, target);
        }
      }
      assert o in after.members ==> o in Owners(after.members, org) || (o == target && req.ChangeRole?);
      assert Owners(after.members, org) != {} by {
        if o != target {
          assert o in Owners(after.members, org);
        } else {
          assert target in Owners(after.members, org);
        }
      }
    }
  }

  /** Any commit of the runner keeps the tables' invariants. */
  lemma CommitKeeps(req: Request, now: Time, newId: Id, v: View, db: Database, w: Writes)
    requires Tidy(db.secrets) && OrgsOwned(db) && MayCommit(req, now, newId, v, db, w)
    ensures Tidy(Apply(db, w).secrets) && OrgsOwned(Apply(db, w))
    ensures CommitOk(Commit(req, now, newId, Apply(db, w)))
  {
    if req.Rotate? {
      RotateCommit(req, now, newId, v, db, w);
    } else if req.Revoke? {
      RevokeCommit(req, now, newId, v, db, w);
    } else {
      MembersCommit(req, now, newId, v, db, w);
    }
  }

  // ---- One step ----

  lemma FinishKeeps(s: System, i: nat)
    requires Inv(s) && i < |s.txns| && s.txns[i].phase.Open?
    ensures Inv(DoFinish(Serializable, s, i))
  {
    hide Tidy, OrgsOwned, Execute, Collides, StillValid, Read, Apply, LeavesSigner;
    var t := s.txns[i];
    var p := t.phase;
    assert TxnOk(t, s.db);
    var out := Execute(t.req, p.now, p.newId, p.view);
    if out.Write? && !p.doomed && !Collides(t.req, p.newId, p.view, s.db) {
      CommitKeeps(t.req, p.now, p.newId, p.view, s.db, out.writes);
      var r := DoFinish(Serializable, s, i);
      forall j | 0 <= j < |r.txns| ensures TxnOk(r.txns[j], r.db) {
        assert TxnOk(s.txns[j], s.db);
      }
    }
  }

  lemma ValidTransitive(u: View, v: View, w: View)
    requires StillValid(u, v) && StillValid(v, w)
    ensures StillValid(u, w)
  {
  }

  /** What a write outside the runner may do to any transaction's reads. */
  ghost predicate Harmless(db: Database, after: Database) {
    forall req: Request :: StillValid(Read(req, db), Read(req, after))
  }

  /** A harmless write leaves every open transaction as valid as it was. */
  lemma OutsideKeeps(s: System, r: System)
    requires Inv(s) && Tidy(r.db.secrets) && OrgsOwned(r.db) && Harmless(s.db, r.db)
    requires r.txns == s.txns && r.log == s.log
    ensures Inv(r)
  {
    hide Tidy, StillValid, LeavesSigner, OrgsOwned, Read;
    forall i | 0 <= i < |r.txns| ensures TxnOk(r.txns[i], r.db) {
      var t := s.txns[i];
      assert TxnOk(t, s.db);
      if t.phase.Open? && !t.phase.doomed {
        ValidTransitive(t.phase.view, Read(t.req, s.db), Read(t.req, r.db));
      }
    }
  }

  lemma BeginKeeps(s: System, i: nat, newId: Id)
    requires Inv(s) && i < |s.txns|
    ensures Inv(s.(txns := SetPhase(s.txns, i, Open(Read(s.txns[i].req, s.db), s.clock, newId, false))))
  {
    hide Tidy, LeavesSigner, OrgsOwned, Owners;
    assert TxnOk(s.txns[i], s.db);
  }

  lemma MintIntoEmpty(db: Database, e: Id, newId: Id, handOver: bool)
    requires StartAtOne(db.secrets)
    ensures var after := DoMint(db, e, newId, handOver);
            after.secrets == db.secrets
            || (newId !in db.secrets && after.secrets == db.secrets[newId := Secret(e, 1, true, None, None)]
                && forall i | i in db.secrets :: db.secrets[i].endpoint != e)
  {
    forall i | i in db.secrets && db.secrets[i].endpoint == e ensures 1 in VersionsOf(db.secrets, e) {
      assert HasFirst(db.secrets, e);
    }
  }

  lemma MintStartsAtOne(rows: Table, e: Id, newId: Id)
    requires StartAtOne(rows) && newId !in rows
    ensures StartAtOne(rows[newId := Secret(e, 1, true, None, None)])
  {
    var after := rows[newId := Secret(e, 1, true, None, None)];
    assert after[newId].version == 1;
    assert HasFirst(after, e);
    forall f | HasFirst(rows, f) ensures HasFirst(after, f) {
      var j :| j in rows && rows[j].endpoint == f && rows[j].version == 1;
      assert j in after;
    }
  }

  lemma MintTidy(rows: Table, e: Id, newId: Id)
    requires Tidy(rows) && newId !in rows && forall i | i in rows :: rows[i].endpoint != e
    ensures Tidy(rows[newId := Secret(e, 1, true, None, None)])
  {
    MintStartsAtOne(rows, e, newId);
    hide StartAtOne;
  }

  lemma MintHarmless(db: Database, e: Id, newId: Id, handOver: bool)
    requires StartAtOne(db.secrets)
    ensures Harmless(db, DoMint(db, e, newId, handOver))
  {
    MintIntoEmpty(db, e, newId, handOver);
    var after := DoMint(db, e, newId, handOver);
    assert after.members == db.members && after.endpoints.Keys == db.endpoints.Keys;
    assert forall f | f in db.endpoints && db.endpoints[f] == Deleted :: after.endpoints[f] == Deleted;
    hide DoMint, VersionsOf, StartAtOne;
    forall f ensures RowsOf(db.secrets, f) == RowsOf(after.secrets, f) || RowsOf(db.secrets, f) == map[] {}
    hide RowsOf, Owners;
  }

  lemma MintKeeps(db: Database, e: Id, newId: Id, handOver: bool)
    requires Tidy(db.secrets) && OrgsOwned(db)
    ensures Tidy(DoMint(db, e, newId, handOver).secrets) && OrgsOwned(DoMint(db, e, newId, handOver))
    ensures Harmless(db, DoMint(db, e, newId, handOver))
  {
    MintIntoEmpty(db, e, newId, handOver);
    MintHarmless(db, e, newId, handOver);
    hide Tidy, Harmless, VersionsOf;
    if DoMint(db, e, newId, handOver).secrets != db.secrets {
      MintTidy(db.secrets, e, newId);
    }
  }

  lemma AddMemberKeeps(db: Database, after: Database, id: Id, m: Member)
    requires OrgsOwned(db) && id !in db.members
    requires after == db.(members := db.members[id := m], orgs := after.orgs)
    requires db.orgs <= after.orgs
    requires forall org | org in after.orgs && org !in db.orgs :: m.org == org && m.role == Owner
    ensures OrgsOwned(after)
    ensures Harmless(db, after)
  {
    forall org ensures Owners(db.members, org) <= Owners(after.members, org) {}
    forall org | org in after.orgs ensures Owners(after.members, org) != {} {
      if org in db.orgs {
        assert Owners(db.members, org) <= Owners(after.members, org);
      } else {
        assert id in Owners(after.members, org);
      }
    }
  }

  lemma StatusKeeps(db: Database, after: Database, e: Id, status: EndpointStatus)
    requires after == db.(endpoints := db.endpoints[e := status])
    requires e in db.endpoints && db.endpoints[e] == Deleted ==> status == Deleted
    ensures Harmless(db, after)
    ensures OrgsOwned(db) ==> OrgsOwned(after)
  {
  }

  lemma StepKeeps(s: System, step: Step)
    requires Inv(s)
    ensures Inv(Do(Serializable, s, step))
  {
    hide Tidy, StillValid, LeavesSigner, OrgsOwned, Read, Harmless;
    var r := Do(Serializable, s, step);
    match step
    case Finish(i) =>
      if i < |s.txns| && s.txns[i].phase.Open? { assert TxnOk(s.txns[i], s.db); FinishKeeps(s, i); }
    case Begin(i, newId) =>
      if r != s { BeginKeeps(s, i, newId); }
    case Abort(i) =>
      if r != s { assert TxnOk(s.txns[i], s.db); }
    case Submit(req) =>
    case Tick(_) =>
    case VerifyRedemption(_, _, _, _, _) =>
    case CreateEndpoint(e) =>
      if r != s { StatusKeeps(s.db, r.db, e, Paused); OutsideKeeps(s, r); }
    case Enable(e) =>
      if r != s { StatusKeeps(s.db, r.db, e, Active); OutsideKeeps(s, r); }
    case Stop(e, status) =>
      if r != s { StatusKeeps(s.db, r.db, e, status); OutsideKeeps(s, r); }
    case MintInitial(e, newId, handOver) =>
      MintKeeps(s.db, e, newId, handOver);
      OutsideKeeps(s, r);
    case CreateOrganization(org, user, membership) =>
      if r != s { AddMemberKeeps(s.db, r.db, membership, Member(org, user, Owner)); OutsideKeeps(s, r); }
    case InsertRedemption(k) =>
      if r.db != s.db {
        var m := s.redemptions[k];
        AddMemberKeeps(s.db, r.db, m.membership, Member(m.org, m.user, m.role));
        OutsideKeeps(s, r);
      }
  }
}
