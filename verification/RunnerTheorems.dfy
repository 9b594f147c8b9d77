/** The runner's promises, over every schedule. */
module RunnerTheorems {
  import opened Domain
  import opened Secrets
  import opened Roles
  import opened Runner
  import opened RunnerSafety

  ghost predicate Start(s: System) {
    Initial(s) && Tidy(s.db.secrets) && OrgsOwned(s.db)
  }

  lemma {:induction false} EveryRunKeepsInv(s: System, steps: seq<Step>)
    requires Start(s)
    ensures Inv(Run(Serializable, s, steps))
    decreases |steps|
  {
    if steps != [] {
      EveryRunKeepsInv(s, steps[..|steps| - 1]);
      StepKeeps(Run(Serializable, s, steps[..|steps| - 1]), steps[|steps| - 1]);
    }
  }

  /** Each commit of a rotation or revocation, in any interleaving, leaves a non-deleted endpoint a
      secret that signs at that commit's `now`; versions stay distinct and only the newest secret of
      an endpoint lacks an expiry. */
  lemma EveryCommitLeavesASigner(s: System, steps: seq<Step>)
    requires Start(s)
    ensures var r := Run(Serializable, s, steps);
            && (forall k | 0 <= k < |r.log| :: LeavesSigner(r.log[k]) && Tidy(r.log[k].after.secrets))
            && DistinctVersions(r.db.secrets) && NewestOpen(r.db.secrets)
  {
    EveryRunKeepsInv(s, steps);
    var r := Run(Serializable, s, steps);
    forall k | 0 <= k < |r.log| ensures LeavesSigner(r.log[k]) && Tidy(r.log[k].after.secrets) {
      assert CommitOk(r.log[k]);
    }
  }

  lemma StepKeepsOrgs(iso: Isolation, s: System, step: Step)
    ensures s.db.orgs <= Do(iso, s, step).db.orgs
  {
    hide Execute, Collides, Read, Doom;
  }

  lemma {:induction false} OrgsOnlyGrow(iso: Isolation, s: System, steps: seq<Step>)
    ensures s.db.orgs <= Run(iso, s, steps).db.orgs
    decreases |steps|
  {
    if steps != [] {
      OrgsOnlyGrow(iso, s, steps[..|steps| - 1]);
      StepKeepsOrgs(iso, Run(iso, s, steps[..|steps| - 1]), steps[|steps| - 1]);
    }
  }

  /** An organization that has an owner keeps one, whatever stale role the callers carry. */
  lemma OwnersNeverRunOut(s: System, steps: seq<Step>, org: Id)
    requires Start(s)
    ensures var r := Run(Serializable, s, steps);
            (org in s.db.orgs ==> org in r.db.orgs) && (org in r.db.orgs ==> Owners(r.db.members, org) != {})
  {
    EveryRunKeepsInv(s, steps);
    OrgsOnlyGrow(Serializable, s, steps);
  }

  // ---- Refusals, aborts and giving up ----

  predicate WritesOutside(step: Step) {
    || step.CreateEndpoint? || step.MintInitial? || step.Enable? || step.Stop?
    || step.CreateOrganization? || step.InsertRedemption?
  }

  /** The tables change only by a logged commit or a writer outside the runner: an attempt that is
      refused, aborted or given up leaves them as they were. */
  lemma OnlyCommitsWrite(iso: Isolation, s: System, step: Step)
    requires !WritesOutside(step)
    ensures var r := Do(iso, s, step);
            if |r.log| == |s.log| then r.db == s.db && r.log == s.log
            else step.Finish? && |r.log| == |s.log| + 1 && r.log[..|s.log|] == s.log && r.log[|s.log|].after == r.db
  {
  }

  /** Attempts are numbered 1 to 4, and the error a caller sees after the fourth abort is a conflict. */
  lemma FourAttemptsAtMost(s: System, steps: seq<Step>, i: nat)
    requires Start(s)
    requires i < |Run(Serializable, s, steps).txns|
    ensures var r := Run(Serializable, s, steps);
            && 1 <= r.txns[i].attempt <= 4
            && (r.txns[i].phase.Open? ==>
                  Do(Serializable, r, Abort(i)).txns[i]
                  == if r.txns[i].attempt == 4 then r.txns[i].(phase := Phase.Failed(Conflict))
                     else Txn(r.txns[i].req, r.txns[i].attempt + 1, Waiting))
  {
    EveryRunKeepsInv(s, steps);
    assert TxnOk(Run(Serializable, s, steps).txns[i], Run(Serializable, s, steps).db);
  }

  // ---- Serial equivalence ----

  /** The committed callbacks, each run alone on the tables its predecessors left. */
  ghost function Serial(db: Database, log: seq<Commit>): (r: Database)
    decreases |log|
  {
    if log == [] then db
    else
      var d, c := Serial(db, log[..|log| - 1]), log[|log| - 1];
      match Execute(c.req, c.now, c.newId, Read(c.req, d))
      case Write(w) => Apply(d, w)
      case Refused(_) => d
  }

  /** Every transaction that may still commit would read now what it read when it began. */
  ghost predicate Current(s: System) {
    forall i | 0 <= i < |s.txns| && s.txns[i].phase.Open? && !s.txns[i].phase.doomed ::
      s.txns[i].phase.view == Read(s.txns[i].req, s.db)
  }

  lemma CurrentStep(s: System, step: Step)
    requires Current(s) && !WritesOutside(step)
    ensures Current(Do(Serializable, s, step))
  {
    hide Execute, Collides, Read, Apply;
  }

  lemma SerialStep(db: Database, s: System, step: Step)
    requires Current(s) && !WritesOutside(step) && s.db == Serial(db, s.log)
    ensures var r := Do(Serializable, s, step); r.db == Serial(db, r.log)
  {
    OnlyCommitsWrite(Serializable, s, step);
    var r := Do(Serializable, s, step);
    if |r.log| != |s.log| {
      CommitShape(s, step.i);
      assert r.log[..|r.log| - 1] == s.log;
    }
    hide Do, DoFinish, Current, Execute, Read, Apply;
  }

  /** A commit writes what its callback makes of the tables as they are. */
  lemma CommitShape(s: System, i: nat)
    requires Current(s) && |Do(Serializable, s, Finish(i)).log| != |s.log|
    ensures var r := Do(Serializable, s, Finish(i));
            && |r.log| == |s.log| + 1
            && var c := r.log[|s.log|];
               var out := Execute(c.req, c.now, c.newId, Read(c.req, s.db));
               out.Write? && r.db == Apply(s.db, out.writes)
  {
    hide Execute, Collides, Read, Apply, Doom, DoMint, DoInsert;
  }

  /** With only the runner writing, any interleaving ends in the tables that the committed requests
      produce one after another, in commit order. */
  lemma {:induction false} RunsAreSerial(s: System, steps: seq<Step>)
    requires Initial(s)
    requires forall k | 0 <= k < |steps| :: !WritesOutside(steps[k])
    ensures var r := Run(Serializable, s, steps); Current(r) && r.db == Serial(s.db, r.log)
    decreases |steps|
  {
    if steps != [] {
      var last := |steps| - 1;
      RunsAreSerial(s, steps[..last]);
      CurrentStep(Run(Serializable, s, steps[..last]), steps[last]);
      SerialStep(s.db, Run(Serializable, s, steps[..last]), steps[last]);
    }
  }

  // ---- Owners without an owner acting ----

  /** Nobody in this schedule acts on `org` as an owner, and no owner's invitation is redeemed. */
  predicate BelowOwner(step: Step, org: Id, owners: set<Id>) {
    match step
    case Submit(req) => (req.ChangeRole? || req.RemoveMember?) && req.org == org ==> req.actor.role != Owner
    case VerifyRedemption(o, _, _, _, inviter) => o == org ==> inviter !in owners
    case _ => true
  }

  ghost predicate OwnersAre(s: System, org: Id, owners: set<Id>) {
    && org in s.db.orgs
    && Owners(s.db.members, org) == owners
    && (forall i | 0 <= i < |s.txns| && (s.txns[i].req.ChangeRole? || s.txns[i].req.RemoveMember?)
                   && s.txns[i].req.org == org ::
          s.txns[i].req.actor.role != Owner)
    && (forall k | 0 <= k < |s.redemptions| && s.redemptions[k].org == org && s.redemptions[k].verified ::
          s.redemptions[k].role != Owner)
  }

  lemma CommitBelowOwner(req: Request, now: Time, newId: Id, v: View, db: Database, w: Writes, org: Id)
    requires MayCommit(req, now, newId, v, db, w)
    requires (req.ChangeRole? || req.RemoveMember?) && req.org == org ==> req.actor.role != Owner
    ensures Owners(Apply(db, w).members, org) == Owners(db.members, org)
  {
    if req.Rotate? || req.Revoke? {
      assert (db.members + map[]) - {} == db.members;
    } else {
      var m := v.target.value;
      LatticeIsExact(RoleChange(req.actor.role, req.actor.membership, req.target, m.role, |v.owners|),
                     if req.ChangeRole? then req.role else Viewer);
    }
  }

  lemma OwnersAreStep(s: System, step: Step, org: Id, owners: set<Id>)
    requires Inv(s) && OwnersAre(s, org, owners) && BelowOwner(step, org, owners)
    ensures OwnersAre(Do(Serializable, s, step), org, owners)
  {
    hide Tidy, Execute, Collides, Read, StillValid, OrgsOwned, LeavesSigner, Apply;
    var r := Do(Serializable, s, step);
    match step
    case Finish(i) =>
      if i < |s.txns| && s.txns[i].phase.Open? && r.db != s.db {
        var t := s.txns[i];
        var p := t.phase;
        assert TxnOk(t, s.db);
        CommitBelowOwner(t.req, p.now, p.newId, p.view, s.db, Execute(t.req, p.now, p.newId, p.view).writes, org);
        ApplyKeepsOrgs(s.db, Execute(t.req, p.now, p.newId, p.view).writes);
      }
    case InsertRedemption(k) =>
    case VerifyRedemption(o, user, role, membership, inviter) =>
    case _ =>
  }

  lemma ApplyKeepsOrgs(db: Database, w: Writes)
    ensures Apply(db, w).orgs == db.orgs
  {
  }

  lemma {:induction false} OwnersAreRun(s: System, steps: seq<Step>, org: Id)
    requires Start(s) && org in s.db.orgs
    requires forall k | 0 <= k < |steps| :: BelowOwner(steps[k], org, Owners(s.db.members, org))
    ensures OwnersAre(Run(Serializable, s, steps), org, Owners(s.db.members, org))
    decreases |steps|
  {
    if steps != [] {
      var last := |steps| - 1;
      OwnersAreRun(s, steps[..last], org);
      EveryRunKeepsInv(s, steps[..last]);
      OwnersAreStep(Run(Serializable, s, steps[..last]), steps[last], org, Owners(s.db.members, org));
    }
  }

  /** Below owner rank nobody makes or unmakes an owner: the set never changes. */
  lemma OwnershipIsClosed(s: System, steps: seq<Step>, org: Id)
    requires Start(s) && org in s.db.orgs
    requires forall k | 0 <= k < |steps| :: BelowOwner(steps[k], org, Owners(s.db.members, org))
    ensures Owners(Run(Serializable, s, steps).db.members, org) == Owners(s.db.members, org)
  {
    OwnersAreRun(s, steps, org);
  }

  // ---- What SERIALIZABLE is for ----

  lemma RunSnoc(iso: Isolation, s: System, steps: seq<Step>, step: Step)
    ensures Run(iso, s, steps + [step]) == Do(iso, Run(iso, s, steps), step)
  {
    assert (steps + [step])[..|steps|] == steps;
  }

  lemma RunOfTwo(iso: Isolation, s: System, a: Step, b: Step)
    ensures Run(iso, s, [a, b]) == Do(iso, Do(iso, s, a), b)
  {
    hide Do;
    assert [a, b][..1] == [a] && [a][..0] == [];
    assert Run(iso, s, [a]) == Do(iso, Run(iso, s, []), a);
  }

  lemma RunOfFour(iso: Isolation, s: System, a: Step, b: Step, c: Step, d: Step)
    ensures Run(iso, s, [a, b, c, d]) == Do(iso, Do(iso, Do(iso, Do(iso, s, a), b), c), d)
  {
    hide Do;
    RunOfTwo(iso, s, a, b);
    assert [a, b, c, d][..3] == [a, b, c] && [a, b, c][..2] == [a, b];
  }

  lemma SubmitStep(iso: Isolation, s: System, req: Request)
    ensures Do(iso, s, Submit(req)) == s.(txns := s.txns + [Txn(req, 1, Waiting)])
  {
  }

  /** Beginning one of the submitted requests, between `before` and `after`. */
  lemma BeginStep(iso: Isolation, s: System, before: seq<Txn>, req: Request, after: seq<Txn>, newId: Id)
    requires s.txns == before + [Txn(req, 1, Waiting)] + after && newId !in s.db.secrets
    ensures Do(iso, s, Begin(|before|, newId))
            == s.(txns := before + [Txn(req, 1, Open(Read(req, s.db), s.clock, newId, false))] + after)
  {
    hide Read;
    var open := Open(Read(req, s.db), s.clock, newId, false);
    assert SetPhase(s.txns, |before|, open) == before + [Txn(req, 1, open)] + after;
  }

  lemma RunTwoOpen(iso: Isolation, s: System, x: Request, y: Request, newId: Id)
    requires Initial(s) && newId !in s.db.secrets
    ensures Run(iso, s, [Submit(x), Submit(y), Begin(0, newId), Begin(1, newId)]) == TwoOpen(s, x, y, newId)
  {
    hide Do, Read;
    RunOfFour(iso, s, Submit(x), Submit(y), Begin(0, newId), Begin(1, newId));
    hide Run;
    var s1 := s.(txns := [Txn(x, 1, Waiting)]);
    var s2 := s.(txns := [Txn(x, 1, Waiting), Txn(y, 1, Waiting)]);
    var xOpen := Txn(x, 1, Open(Read(x, s.db), s.clock, newId, false));
    var yOpen := Txn(y, 1, Open(Read(y, s.db), s.clock, newId, false));
    assert [] + [Txn(x, 1, Waiting)] == s1.txns && s1.txns + [Txn(y, 1, Waiting)] == s2.txns;
    assert [] + [Txn(x, 1, Waiting)] + [Txn(y, 1, Waiting)] == s2.txns;
    assert [] + [xOpen] + [Txn(y, 1, Waiting)] == [xOpen] + [Txn(y, 1, Waiting)] + [] == [xOpen, Txn(y, 1, Waiting)];
    assert [xOpen] + [yOpen] + [] == [xOpen, yOpen];
    SubmitStep(iso, s, x);
    SubmitStep(iso, s1, y);
    BeginStep(iso, s2, [], x, [Txn(y, 1, Waiting)], newId);
    BeginStep(iso, s.(txns := [xOpen, Txn(y, 1, Waiting)]), [xOpen], y, [], newId);
  }

  /** One owner makes another an admin. */
  function Demotion(org: Id, actor: Id, target: Id): Request { ChangeRole(org, Actor(actor, Owner), target, Admin) }

  function TwoOpen(s: System, x: Request, y: Request, newId: Id): System {
    s.(txns := [Txn(x, 1, Open(Read(x, s.db), s.clock, newId, false)),
                Txn(y, 1, Open(Read(y, s.db), s.clock, newId, false))])
  }

  function Crossing(x: Request, y: Request, newId: Id): seq<Step> {
    [Submit(x), Submit(y), Begin(0, newId), Begin(1, newId)] + [Finish(0)] + [Finish(1)]
  }

  /** Two owners demoting each other at READ COMMITTED: each counts two, both commit, nobody owns the
      organization. The same schedule at SERIALIZABLE leaves the second demotion unable to commit. */
  lemma ReadCommittedLosesTheOwners(s: System, org: Id, a: Id, b: Id, newId: Id)
    requires Initial(s) && newId !in s.db.secrets && a != b && org in s.db.orgs
    requires Owners(s.db.members, org) == {a, b}
    ensures var x, y := Demotion(org, b, a), Demotion(org, a, b);
            && Owners(Run(ReadCommitted, s, Crossing(x, y, newId)).db.members, org) == {}
            && Owners(Run(Serializable, s, Crossing(x, y, newId)).db.members, org) == {b}
  {
    forall iso: Isolation
      ensures Owners(Run(iso, s, Crossing(Demotion(org, b, a), Demotion(org, a, b), newId)).db.members, org)
              == if iso == ReadCommitted then {} else {b}
    {
      CrossingDemotions(iso, s, org, a, b, newId);
    }
  }

  lemma CrossingDemotions(iso: Isolation, s: System, org: Id, a: Id, b: Id, newId: Id)
    requires Initial(s) && newId !in s.db.secrets && a != b && org in s.db.orgs
    requires Owners(s.db.members, org) == {a, b}
    ensures Owners(Run(iso, s, Crossing(Demotion(org, b, a), Demotion(org, a, b), newId)).db.members, org)
            == if iso == ReadCommitted then {} else {b}
  {
    var x, y := Demotion(org, b, a), Demotion(org, a, b);
    assert |{a, b}| == 2;
    assert a in Owners(s.db.members, org) && b in Owners(s.db.members, org);
    var both := [Submit(x), Submit(y), Begin(0, newId), Begin(1, newId)];
    RunTwoOpen(iso, s, x, y, newId);
    RunSnoc(iso, s, both, Finish(0));
    RunSnoc(iso, s, both + [Finish(0)], Finish(1));
    FirstDemotion(iso, s, org, a, b, newId);
    assert WellTyped(TwoOpen(s, x, y, newId).txns[0]);
    hide Run, DoFinish, Owners, Execute, Read;
    SecondDemotion(iso, s, DoFinish(iso, TwoOpen(s, x, y, newId), 0), org, a, b, newId);
  }

  lemma DemotedOwner(members: map<Id, Member>, org: Id, id: Id)
    requires id in members
    ensures Owners(members[id := members[id].(role := Admin)], org) == Owners(members, org) - {id}
  {
  }

  /** One of two open demotions commits: the other can commit only where nothing it read is watched. */
  lemma FirstDemotion(iso: Isolation, s: System, org: Id, a: Id, b: Id, newId: Id)
    requires a != b && Owners(s.db.members, org) == {a, b} && |{a, b}| == 2
    requires a in Owners(s.db.members, org) && b in Owners(s.db.members, org)
    ensures var x, y := Demotion(org, b, a), Demotion(org, a, b);
            var mid := DoFinish(iso, TwoOpen(s, x, y, newId), 0);
            && mid.db == s.db.(members := s.db.members[a := s.db.members[a].(role := Admin)])
            && mid.txns == [Txn(x, 1, Committed), Txn(y, 1, Open(Read(y, s.db), s.clock, newId, iso == Serializable))]
            && Owners(mid.db.members, org) == {b}
  {
    var x, y := Demotion(org, b, a), Demotion(org, a, b);
    var mid := DoFinish(iso, TwoOpen(s, x, y, newId), 0);
    assert mid.db == s.db.(members := s.db.members[a := s.db.members[a].(role := Admin)]) by {
      assert s.db.secrets + map[] == s.db.secrets;
      assert s.db.members + map[a := s.db.members[a].(role := Admin)] - {}
          == s.db.members[a := s.db.members[a].(role := Admin)];
    }
    DemotedOwner(s.db.members, org, a);
    assert Owners(mid.db.members, org) == {a, b} - {a} == {b};
    assert a in Owners(s.db.members, org) && a !in Owners(mid.db.members, org);
    assert Read(y, mid.db) != Read(y, s.db);
  }

  /** The second, on the tables the first left. */
  lemma SecondDemotion(iso: Isolation, s: System, mid: System, org: Id, a: Id, b: Id, newId: Id)
    requires a != b && Owners(s.db.members, org) == {a, b} && |{a, b}| == 2
    requires a in Owners(s.db.members, org) && b in Owners(s.db.members, org)
    requires var x, y := Demotion(org, b, a), Demotion(org, a, b);
             && mid.db == s.db.(members := s.db.members[a := s.db.members[a].(role := Admin)])
             && mid.txns == [Txn(x, 1, Committed), Txn(y, 1, Open(Read(y, s.db), s.clock, newId, iso == Serializable))]
             && Owners(mid.db.members, org) == {b}
    ensures Owners(Do(iso, mid, Finish(1)).db.members, org) == if iso == ReadCommitted then {} else {b}
  {
    hide Owners, DoMint, DoInsert;
    var end := Do(iso, mid, Finish(1));
    var y := Demotion(org, a, b);
    assert !Collides(y, newId, Read(y, s.db), mid.db);
    if iso == ReadCommitted {
      assert b in s.db.members && s.db.members[b].org == org && s.db.members[b].role == Owner by {
        InOwners(s.db.members, org, b);
      }
      assert end.db.members == mid.db.members[b := mid.db.members[b].(role := Admin)];
      DemotedOwner(mid.db.members, org, b);
      assert Owners(end.db.members, org) == {b} - {b} == {};
    }
  }

  lemma InOwners(members: map<Id, Member>, org: Id, id: Id)
    ensures id in Owners(members, org) <==> id in members && members[id].org == org && members[id].role == Owner
  {
  }
}
