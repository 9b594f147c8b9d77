/** What each request and each outside write answers and leaves behind when nothing runs beside it. */
module RunnerAnswers {
  import opened Domain
  import opened Secrets
  import opened Roles
  import opened Runner
  import opened RunnerSafety
  import opened RunnerTheorems
  import opened RunnerSigning

  // ---- A request run alone ----

  /** How a request submitted now, and run with nothing beside it, ends. */
  ghost predicate EndsIn(s: System, req: Request, newId: Id, phase: Phase, after: Database) {
    var r := Run(Serializable, s, Alone(|s.txns|, req, newId));
    |r.txns| == |s.txns| + 1 && r.txns[|s.txns|].phase == phase && r.db == after && r.clock == s.clock
  }

  lemma FinishRefused(s: System, req: Request, view: View, newId: Id, e: Error)
    requires view.SecretsView? <==> req.Rotate? || req.Revoke?
    requires Execute(req, s.clock, newId, view) == Refused(e)
    ensures var begun := s.(txns := s.txns + [Txn(req, 1, Open(view, s.clock, newId, false))]);
            var r := Do(Serializable, begun, Finish(|s.txns|));
            && r.db == s.db && r.clock == s.clock && |r.txns| == |s.txns| + 1
            && r.txns[|s.txns|].phase == Phase.Failed(e)
  {
    hide Execute, Collides, Apply, Read, DoMint, DoInsert;
  }

  lemma RunRefused(s: System, req: Request, newId: Id, e: Error)
    requires newId !in s.db.secrets && Execute(req, s.clock, newId, Read(req, s.db)) == Refused(e)
    ensures EndsIn(s, req, newId, Phase.Failed(e), s.db)
  {
    assert Read(req, s.db).SecretsView? <==> req.Rotate? || req.Revoke?;
    hide Execute, Collides, Apply, Read, Run, Do;
    RunBegun(s, req, newId);
    RunSnoc(Serializable, s, [Submit(req), Begin(|s.txns|, newId)], Finish(|s.txns|));
    FinishRefused(s, req, Read(req, s.db), newId, e);
  }

  lemma RunCommitted(s: System, req: Request, newId: Id, w: Writes)
    requires newId !in s.db.secrets && Execute(req, s.clock, newId, Read(req, s.db)) == Write(w)
    requires !Collides(req, newId, Read(req, s.db), s.db)
    ensures EndsIn(s, req, newId, Committed, Apply(s.db, w))
  {
    hide Execute, Collides, Apply, Read, Run, Alone;
    RunAlone(s, req, newId, w);
  }

  /** A rotation is refused for an endpoint that is absent or deleted and for no other; otherwise the
      secrets become the rotated table. */
  lemma RotateAnswers(s: System, e: Id, overlap: nat, newId: Id)
    requires newId !in s.db.secrets
    ensures var req := Rotate(e, overlap);
            if e !in s.db.endpoints then EndsIn(s, req, newId, Phase.Failed(NotFound), s.db)
            else if s.db.endpoints[e] == Deleted then EndsIn(s, req, newId, Phase.Failed(Conflict), s.db)
            else EndsIn(s, req, newId, Committed,
                      s.db.(secrets := RotateTable(s.db.secrets, e, newId, s.clock, overlap)))
  {
    var req, rows := Rotate(e, overlap), RowsOf(s.db.secrets, e);
    hide EndsIn, RotateTable;
    if e !in s.db.endpoints {
      RunRefused(s, req, newId, NotFound);
    } else if s.db.endpoints[e] == Deleted {
      RunRefused(s, req, newId, Conflict);
    } else {
      VersionsOfRows(s.db.secrets, e);
      FreshVersion(s.db.secrets, e);
      hide RowsOf, NextVersion, VersionsOf;
      RunCommitted(s, req, newId, Writes(RotateTable(rows, e, newId, s.clock, overlap), map[], {}));
      ApplySecrets(s.db, RotateTable(rows, e, newId, s.clock, overlap));
      RotateIsLocal(s.db.secrets, e, newId, s.clock, overlap);
    }
  }

  lemma FreshVersion(rows: Table, e: Id)
    ensures NextVersion(rows, e) !in VersionsOf(rows, e)
  {
  }

  /** A revocation is refused for an absent endpoint, for a secret that is not its own, and exactly when
      a live endpoint would be left with nothing that signs; otherwise that one secret is revoked. */
  lemma RevokeAnswers(s: System, e: Id, id: Id, newId: Id)
    requires newId !in s.db.secrets
    ensures var req, rows := Revoke(e, id), s.db.secrets;
            if e !in s.db.endpoints || id !in rows || rows[id].endpoint != e
            then EndsIn(s, req, newId, Phase.Failed(NotFound), s.db)
            else if s.db.endpoints[e] != Deleted && !CanSign(RevokeTable(rows, e, id, s.clock), e, s.clock)
            then EndsIn(s, req, newId, Phase.Failed(Conflict), s.db)
            else EndsIn(s, req, newId, Committed, s.db.(secrets := RevokeTable(rows, e, id, s.clock)))
  {
    var req, own := Revoke(e, id), RowsOf(s.db.secrets, e);
    RevokeIsLocal(s.db.secrets, e, id, s.clock);
    SurvivorIffStillSigns(s.db.secrets, e, id, s.clock);
    hide EndsIn, RevokeTable, HasSurvivor, CanSign;
    if e !in s.db.endpoints || id !in s.db.secrets || s.db.secrets[id].endpoint != e {
      RunRefused(s, req, newId, NotFound);
    } else if s.db.endpoints[e] != Deleted && !HasSurvivor(s.db.secrets, e, id, s.clock) {
      RunRefused(s, req, newId, Conflict);
    } else {
      RunCommitted(s, req, newId, Writes(RevokeTable(own, e, id, s.clock), map[], {}));
      ApplySecrets(s.db, RevokeTable(own, e, id, s.clock));
    }
  }

  /** Who may act on a membership: an owner on any but their own, an admin below ownership. */
  predicate MayAct(actor: Actor, target: Id, current: Role, next: Role) {
    && actor.membership != target
    && (actor.role == Owner || (actor.role == Admin && next != Owner && current != Owner))
  }

  ghost predicate IsMember(db: Database, org: Id, id: Id) { id in db.members && db.members[id].org == org }

  /** A role change leaves exactly the target with the new role, and is a 404 outside the organization,
      forbidden by rank, or a conflict when no owner would remain. */
  lemma ChangeRoleAnswers(s: System, org: Id, actor: Actor, target: Id, role: Role, newId: Id)
    requires newId !in s.db.secrets
    ensures var req := ChangeRole(org, actor, target, role);
            if !IsMember(s.db, org, target) then EndsIn(s, req, newId, Phase.Failed(NotFound), s.db)
            else
              var m := s.db.members[target];
              if !MayAct(actor, target, m.role, role) then EndsIn(s, req, newId, Phase.Failed(Forbidden), s.db)
              else if m.role == Owner && role != Owner && |Owners(s.db.members, org)| < 2
              then EndsIn(s, req, newId, Phase.Failed(Conflict), s.db)
              else EndsIn(s, req, newId, Committed, s.db.(members := s.db.members[target := m.(role := role)]))
  {
    var req := ChangeRole(org, actor, target, role);
    hide EndsIn, Owners;
    if !IsMember(s.db, org, target) {
      RunRefused(s, req, newId, NotFound);
    } else {
      var m := s.db.members[target];
      var c := RoleChange(actor.role, actor.membership, target, m.role, |Owners(s.db.members, org)|);
      LatticeIsExact(c, role);
      RefusalIsExact(c, role);
      hide CheckRoleChange;
      var check := CheckRoleChange(c, role);
      if check.Some? {
        RunRefused(s, req, newId, check.value);
      } else {
        var written: map<Id, Member> := if m.role == role then map[] else map[target := m.(role := role)];
        RunCommitted(s, req, newId, Writes(map[], written, {}));
        ApplyMembers(s.db, written, {});
        assert s.db.members + written - {} == s.db.members[target := m.(role := role)];
      }
    }
  }

  lemma ApplyMembers(db: Database, written: map<Id, Member>, removed: set<Id>)
    ensures Apply(db, Writes(map[], written, removed)) == db.(members := db.members + written - removed)
  {
    assert db.secrets + map[] == db.secrets;
  }

  /** A removal leaves everybody but the target, under the same conditions. */
  lemma RemoveMemberAnswers(s: System, org: Id, actor: Actor, target: Id, newId: Id)
    requires newId !in s.db.secrets
    ensures var req := RemoveMember(org, actor, target);
            if !IsMember(s.db, org, target) then EndsIn(s, req, newId, Phase.Failed(NotFound), s.db)
            else
              var m := s.db.members[target];
              if !MayAct(actor, target, m.role, Viewer) then EndsIn(s, req, newId, Phase.Failed(Forbidden), s.db)
              else if m.role == Owner && |Owners(s.db.members, org)| < 2
              then EndsIn(s, req, newId, Phase.Failed(Conflict), s.db)
              else EndsIn(s, req, newId, Committed, s.db.(members := s.db.members - {target}))
  {
    var req := RemoveMember(org, actor, target);
    hide EndsIn, Owners;
    if !IsMember(s.db, org, target) {
      RunRefused(s, req, newId, NotFound);
    } else {
      var m := s.db.members[target];
      var c := RoleChange(actor.role, actor.membership, target, m.role, |Owners(s.db.members, org)|);
      LatticeIsExact(c, Viewer);
      RefusalIsExact(c, Viewer);
      hide CheckRemoval;
      var check := CheckRemoval(c);
      if check.Some? {
        RunRefused(s, req, newId, check.value);
      } else {
        RunCommitted(s, req, newId, Writes(map[], map[], {target}));
        ApplyMembers(s.db, map[], {target});
        assert s.db.members + map[] == s.db.members;
      }
    }
  }

  // ---- Writes outside the runner ----

  /** The inviter is still a member of the organization, of a rank that may grant the role. */
  ghost predicate MayInvite(db: Database, org: Id, inviter: Id, role: Role) {
    && org in db.orgs && IsMember(db, org, inviter)
    && (db.members[inviter].role == Owner || (db.members[inviter].role == Admin && role != Owner))
  }

  ghost predicate Joined(db: Database, org: Id, user: Id) {
    exists id | id in db.members :: db.members[id].org == org && db.members[id].user == user
  }

  /** Redeeming an invitation adds exactly the membership it grants, once, and only while its inviter
      may grant it. */
  lemma RedemptionAnswers(s: System, org: Id, user: Id, role: Role, membership: Id, inviter: Id)
    ensures var r := Run(Serializable, s, [VerifyRedemption(org, user, role, membership, inviter),
                                           InsertRedemption(|s.redemptions|)]);
            r.db == if MayInvite(s.db, org, inviter, role) && membership !in s.db.members && !Joined(s.db, org, user)
                    then s.db.(members := s.db.members[membership := Member(org, user, role)]) else s.db
  {
    var verify := VerifyRedemption(org, user, role, membership, inviter);
    RunOfTwo(Serializable, s, verify, InsertRedemption(|s.redemptions|));
    hide Run;
    VerifyAnswers(s, org, user, role, membership, inviter);
    var row := Redemption(org, user, role, membership, inviter, MayInvite(s.db, org, inviter, role));
    var mid := s.(redemptions := s.redemptions + [row]);
    InsertAnswers(mid, row);
    hide Do;
  }

  lemma VerifyAnswers(s: System, org: Id, user: Id, role: Role, membership: Id, inviter: Id)
    ensures var row := Redemption(org, user, role, membership, inviter, MayInvite(s.db, org, inviter, role));
            Do(Serializable, s, VerifyRedemption(org, user, role, membership, inviter))
            == s.(redemptions := s.redemptions + [row])
  {
    hide DoFinish, DoMint, DoInsert;
  }

  lemma InsertAnswers(s: System, row: Redemption)
    requires s.redemptions != [] && s.redemptions[|s.redemptions| - 1] == row
    ensures Do(Serializable, s, InsertRedemption(|s.redemptions| - 1)).db
            == if row.verified && row.membership !in s.db.members && !Joined(s.db, row.org, row.user)
               then s.db.(members := s.db.members[row.membership := Member(row.org, row.user, row.role)]) else s.db
  {
    hide DoFinish, DoMint;
  }

  /** A new organization starts with its creator as its only member, an owner; a taken id changes nothing. */
  lemma OrganizationAnswers(s: System, org: Id, user: Id, membership: Id)
    ensures Do(Serializable, s, CreateOrganization(org, user, membership)).db
            == if org in s.db.orgs || membership in s.db.members then s.db
               else s.db.(orgs := s.db.orgs + {org}, members := s.db.members[membership := Member(org, user, Owner)])
  {
    hide DoFinish, DoMint, DoInsert;
  }

  /** The endpoint's status after a step that an operator, a creation or the sweep takes. */
  lemma StatusAnswers(s: System, e: Id, newId: Id, status: EndpointStatus)
    ensures Do(Serializable, s, CreateEndpoint(e)).db
            == if e in s.db.endpoints then s.db else s.db.(endpoints := s.db.endpoints[e := Paused])
    ensures Do(Serializable, s, Enable(e)).db
            == if e in s.db.endpoints && s.db.endpoints[e] != Deleted && CanSign(s.db.secrets, e, s.clock)
               then s.db.(endpoints := s.db.endpoints[e := Active]) else s.db
    ensures status != Active ==>
              Do(Serializable, s, Stop(e, status)).db
              == if e in s.db.endpoints && s.db.endpoints[e] != Deleted
                 then s.db.(endpoints := s.db.endpoints[e := status]) else s.db
  {
    hide CanSign;
  }

  /** A first secret is minted for an endpoint that has none, which then goes live if it may be handed
      over; with a secret already there, or the id taken, the endpoint is marked deleted instead. */
  lemma MintAnswers(s: System, e: Id, newId: Id, handOver: bool)
    requires Inv(s) && e in s.db.endpoints && s.db.endpoints[e] != Deleted
    ensures Do(Serializable, s, MintInitial(e, newId, handOver)).db
            == if newId in s.db.secrets || RowsOf(s.db.secrets, e) != map[]
               then s.db.(endpoints := s.db.endpoints[e := Deleted])
               else s.db.(secrets := s.db.secrets[newId := Secret(e, 1, true, None, None)],
                          endpoints := s.db.endpoints[e := if handOver then Active else s.db.endpoints[e]])
  {
    assert s.db.endpoints[e := s.db.endpoints[e]] == s.db.endpoints;
    FirstVersion(s.db.secrets, e);
    hide Inv, VersionsOf, RowsOf, DoFinish, DoInsert;
  }

  lemma FirstVersion(rows: Table, e: Id)
    requires StartAtOne(rows)
    ensures 1 in VersionsOf(rows, e) <==> RowsOf(rows, e) != map[]
  {
    if RowsOf(rows, e) != map[] {
      var id :| id in RowsOf(rows, e);
      assert HasFirst(rows, rows[id].endpoint);
    }
    if 1 in VersionsOf(rows, e) {
      var id :| id in rows && rows[id].endpoint == e;
      assert id in RowsOf(rows, e);
    }
  }
}
