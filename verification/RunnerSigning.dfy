/** Signing over whole runs: when an endpoint can sign, and for how long
    (apps/control-api/src/endpoint-secrets/endpoint-secrets.service.ts:37-57). */
module RunnerSigning {
  import opened Domain
  import opened Secrets
  import opened Runner
  import opened RunnerSafety
  import opened RunnerTheorems

  // ---- What one step does to the secrets ----

  datatype Effect =
    | Untouched
    | Minted(e: Id, newId: Id)
    | Rotated(c: Commit)
    | Revoked(c: Commit)

  ghost predicate Has(s: System, r: System, effect: Effect) {
    match effect
    case Untouched =>
      && r.db.secrets == s.db.secrets
      && (r.log == s.log || (|r.log| == |s.log| + 1 && r.log[..|s.log|] == s.log
                             && !r.log[|s.log|].req.Rotate? && !r.log[|s.log|].req.Revoke?))
    case Minted(e, newId) =>
      && r.log == s.log
      && newId !in s.db.secrets && RowsOf(s.db.secrets, e) == map[]
      && r.db.secrets == s.db.secrets[newId := Secret(e, 1, true, None, None)]
    case Rotated(c) =>
      && r.log == s.log + [c] && c.after == r.db && r.db.endpoints == s.db.endpoints
      && c.req.Rotate? && c.newId !in s.db.secrets
      && r.db.secrets == RotateTable(s.db.secrets, c.req.endpoint, c.newId, c.now, c.req.overlap)
    case Revoked(c) =>
      && r.log == s.log + [c] && c.after == r.db && r.db.endpoints == s.db.endpoints
      && c.req.Revoke? && c.req.secret in s.db.secrets && s.db.secrets[c.req.secret].endpoint == c.req.endpoint
      && r.db.secrets == RevokeTable(s.db.secrets, c.req.endpoint, c.req.secret, c.now)
  }

  lemma RevokeFindsTarget(req: Request, now: Time, newId: Id, v: View, db: Database, w: Writes)
    requires req.Revoke? && MayCommit(req, now, newId, v, db, w)
    ensures req.secret in db.secrets && db.secrets[req.secret].endpoint == req.endpoint
  {
    hide RevokeTable, HasSurvivor;
  }

  lemma FinishHas(s: System, i: nat) returns (effect: Effect)
    requires Inv(s) && i < |s.txns| && s.txns[i].phase.Open?
    ensures WellTyped(s.txns[i]) && Has(s, DoFinish(Serializable, s, i), effect)
  {
    hide Tidy, OrgsOwned, Execute, Collides, StillValid, Read, Apply, LeavesSigner, RotateTable, RevokeTable;
    var t := s.txns[i];
    var p := t.phase;
    assert TxnOk(t, s.db);
    var out := Execute(t.req, p.now, p.newId, p.view);
    effect := Untouched;
    if out.Write? && !p.doomed && !Collides(t.req, p.newId, p.view, s.db) {
      var c := Commit(t.req, p.now, p.newId, Apply(s.db, out.writes));
      if t.req.Rotate? {
        RotateCommit(t.req, p.now, p.newId, p.view, s.db, out.writes);
        effect := Rotated(c);
      } else if t.req.Revoke? {
        RevokeFindsTarget(t.req, p.now, p.newId, p.view, s.db, out.writes);
        RevokeCommit(t.req, p.now, p.newId, p.view, s.db, out.writes);
        effect := Revoked(c);
      } else {
        MembersCommit(t.req, p.now, p.newId, p.view, s.db, out.writes);
      }
    }
  }

  /** Secrets change by a first mint, a committed rotation or a committed revocation, and no other way. */
  lemma StepHas(s: System, step: Step) returns (effect: Effect)
    requires Inv(s)
    ensures Has(s, Do(Serializable, s, step), effect)
  {
    hide Execute, Collides, Read;
    effect := Untouched;
    match step
    case Finish(i) =>
      hide Inv, Has, DoFinish;
      if i < |s.txns| && s.txns[i].phase.Open? && WellTyped(s.txns[i]) { effect := FinishHas(s, i); }
      else { assert Has(s, s, Untouched); }
    case MintInitial(e, newId, handOver) =>
      MintIntoEmpty(s.db, e, newId, handOver);
      hide DoMint;
      if DoMint(s.db, e, newId, handOver).secrets != s.db.secrets { effect := Minted(e, newId); }
    case _ =>
  }

  // ---- A secret's life is never lengthened ----

  /** Every secret of `rows` is still there, and signs at no instant at which it did not sign before. */
  ghost predicate NoLonger(rows: Table, after: Table) {
    forall id | id in rows ::
      && id in after
      && after[id].endpoint == rows[id].endpoint && after[id].version == rows[id].version
      && forall t :: Signs(after[id], t) ==> Signs(rows[id], t)
  }

  lemma StepNoLonger(s: System, step: Step)
    requires Inv(s)
    ensures NoLonger(s.db.secrets, Do(Serializable, s, step).db.secrets)
  {
    var effect := StepHas(s, step);
    hide Inv, Do, RowsOf, NextVersion;
    if effect.Rotated? {
      var c := effect.c;
      RotateSignsForever(s.db.secrets, c.req.endpoint, c.newId, c.now, c.req.overlap);
      RotateShape(s.db.secrets, c.req.endpoint, c.newId, c.now, c.req.overlap);
      hide RotateTable, Superseded, SignsForever, CanSign;
    }
  }

  /** Whatever is rotated, revoked or minted meanwhile, a secret that does not sign at an instant never
      comes to sign at it later in the run. */
  lemma {:induction false} LivesNeverLengthen(s: System, steps: seq<Step>, n: nat)
    requires Start(s) && n <= |steps|
    ensures NoLonger(Run(Serializable, s, steps[..n]).db.secrets, Run(Serializable, s, steps).db.secrets)
    decreases |steps|
  {
    if n == |steps| {
      assert steps[..n] == steps;
    } else {
      var last := |steps| - 1;
      assert steps[..last][..n] == steps[..n];
      LivesNeverLengthen(s, steps[..last], n);
      EveryRunKeepsInv(s, steps[..last]);
      StepNoLonger(Run(Serializable, s, steps[..last]), steps[last]);
    }
  }

  // ---- What is left after the newest secret is revoked ----

  ghost predicate RotatedSince(log: seq<Commit>, n: nat, e: Id) {
    exists k | n <= k < |log| :: log[k].req.Rotate? && log[k].req.endpoint == e
  }

  ghost predicate RevokedSince(log: seq<Commit>, n: nat, e: Id) {
    exists k | n <= k < |log| :: log[k].req.Revoke? && log[k].req.endpoint == e
  }

  /** Unless a rotation of `e` commits, an endpoint that has secrets keeps exactly those rows; unless a
      revocation does either, they stay as they are. */
  ghost predicate SameRows(s: System, r: System, e: Id) {
    && s.log <= r.log
    && (!RotatedSince(r.log, |s.log|, e) ==> RowsOf(r.db.secrets, e).Keys == RowsOf(s.db.secrets, e).Keys)
    && (!RotatedSince(r.log, |s.log|, e) && !RevokedSince(r.log, |s.log|, e) ==>
          RowsOf(r.db.secrets, e) == RowsOf(s.db.secrets, e))
  }

  lemma RotateRows(rows: Table, f: Id, newId: Id, now: Time, overlap: nat, e: Id)
    requires newId !in rows && f != e
    ensures RowsOf(RotateTable(rows, f, newId, now, overlap), e) == RowsOf(rows, e)
  {
    RotateShape(rows, f, newId, now, overlap);
    hide RotateTable, NextVersion, Superseded;
  }

  lemma RevokeRows(rows: Table, f: Id, target: Id, now: Time, e: Id)
    ensures RowsOf(RevokeTable(rows, f, target, now), e).Keys == RowsOf(rows, e).Keys
    ensures f != e ==> RowsOf(RevokeTable(rows, f, target, now), e) == RowsOf(rows, e)
  {
  }

  lemma MintRows(rows: Table, f: Id, newId: Id, e: Id)
    requires newId !in rows && f != e
    ensures RowsOf(rows[newId := Secret(f, 1, true, None, None)], e) == RowsOf(rows, e)
  {
  }

  lemma StepSameRows(s: System, step: Step, e: Id)
    requires Inv(s) && RowsOf(s.db.secrets, e) != map[]
    ensures SameRows(s, Do(Serializable, s, step), e)
  {
    var effect := StepHas(s, step);
    hide Inv, Do;
    EffectSameRows(s, Do(Serializable, s, step), effect, e);
  }

  lemma EffectSameRows(s: System, r: System, effect: Effect, e: Id)
    requires Has(s, r, effect) && RowsOf(s.db.secrets, e) != map[]
    ensures SameRows(s, r, e)
  {
    hide RowsOf, RotateTable, RevokeTable;
    match effect
    case Rotated(c) =>
      assert r.log[|s.log|] == c;
      if c.req.endpoint != e { RotateRows(s.db.secrets, c.req.endpoint, c.newId, c.now, c.req.overlap, e); }
    case Revoked(c) =>
      assert r.log[|s.log|] == c;
      RevokeRows(s.db.secrets, c.req.endpoint, c.req.secret, c.now, e);
    case Minted(f, newId) =>
      MintRows(s.db.secrets, f, newId, e);
    case Untouched =>
  }

  lemma SameRowsTransitive(a: System, s: System, r: System, e: Id)
    requires SameRows(a, s, e) && SameRows(s, r, e)
    ensures SameRows(a, r, e)
  {
    hide RowsOf;
    assert RotatedSince(r.log, |s.log|, e) ==> RotatedSince(r.log, |a.log|, e);
    assert RevokedSince(r.log, |s.log|, e) ==> RevokedSince(r.log, |a.log|, e);
    if k :| |a.log| <= k < |s.log| && s.log[k].req.Rotate? && s.log[k].req.endpoint == e {
      assert r.log[k] == s.log[k];
    }
    if k :| |a.log| <= k < |s.log| && s.log[k].req.Revoke? && s.log[k].req.endpoint == e {
      assert r.log[k] == s.log[k];
    }
  }

  lemma StillHasRows(rows: Table, after: Table, e: Id)
    requires NoLonger(rows, after) && RowsOf(rows, e) != map[]
    ensures RowsOf(after, e) != map[]
  {
    var id :| id in RowsOf(rows, e);
    assert id in RowsOf(after, e);
  }

  lemma {:induction false} RunSameRows(s: System, steps: seq<Step>, n: nat, e: Id)
    requires Start(s) && n <= |steps|
    requires RowsOf(Run(Serializable, s, steps[..n]).db.secrets, e) != map[]
    ensures SameRows(Run(Serializable, s, steps[..n]), Run(Serializable, s, steps), e)
    decreases |steps|
  {
    hide Do, Inv, SameRows, RowsOf, NoLonger, Start;
    if n == |steps| {
      assert steps[..n] == steps;
      SameRowsRefl(Run(Serializable, s, steps), e);
    } else {
      var last := |steps| - 1;
      assert steps[..last][..n] == steps[..n];
      RunSameRows(s, steps[..last], n, e);
      EveryRunKeepsInv(s, steps[..last]);
      LivesNeverLengthen(s, steps[..last], n);
      var a, m := Run(Serializable, s, steps[..n]), Run(Serializable, s, steps[..last]);
      StillHasRows(a.db.secrets, m.db.secrets, e);
      StepSameRows(m, steps[last], e);
      SameRowsTransitive(a, m, Run(Serializable, s, steps), e);
    }
  }

  lemma SameRowsRefl(s: System, e: Id)
    ensures SameRows(s, s, e)
  {
  }

  /** Once the newest secret of an endpoint is revoked, the survivors' own expiries are the last word
      until the next rotation, whatever else runs: nothing lets the endpoint sign longer, and unless
      another of its secrets is revoked it signs exactly until the last survivor expires. */
  lemma SurvivorsHaveTheLastWord(s: System, steps: seq<Step>, n: nat, e: Id, newest: Id, t: Time)
    requires Start(s) && n <= |steps|
    requires IsNewest(Run(Serializable, s, steps[..n]).db.secrets, e, newest)
    requires !Run(Serializable, s, steps[..n]).db.secrets[newest].active
    ensures var a, r := Run(Serializable, s, steps[..n]), Run(Serializable, s, steps);
            !RotatedSince(r.log, |a.log|, e) ==>
              && (CanSign(r.db.secrets, e, t) ==> Outlasts(a.db.secrets, e, t))
              && (!RevokedSince(r.log, |a.log|, e) ==>
                    (CanSign(r.db.secrets, e, t) <==> Outlasts(a.db.secrets, e, t)))
  {
    var a, r := Run(Serializable, s, steps[..n]), Run(Serializable, s, steps);
    EveryRunKeepsInv(s, steps[..n]);
    assert newest in RowsOf(a.db.secrets, e);
    RunSameRows(s, steps, n, e);
    LivesNeverLengthen(s, steps, n);
    SigningHorizon(a.db.secrets, e, newest, t);
    assert a.db.secrets[newest].expiresAt.Some?;
    hide Inv, Run, Outlasts, Tidy, RotatedSince, RevokedSince;
    if !RotatedSince(r.log, |a.log|, e) {
      if id :| id in r.db.secrets && r.db.secrets[id].endpoint == e && Signs(r.db.secrets[id], t) {
        assert id in RowsOf(r.db.secrets, e);
        assert id in RowsOf(a.db.secrets, e);
        assert Signs(a.db.secrets[id], t);
      }
      if !RevokedSince(r.log, |a.log|, e) && CanSign(a.db.secrets, e, t) {
        var id :| id in a.db.secrets && a.db.secrets[id].endpoint == e && Signs(a.db.secrets[id], t);
        assert id in RowsOf(a.db.secrets, e);
        assert id in RowsOf(r.db.secrets, e) && RowsOf(r.db.secrets, e)[id] == RowsOf(a.db.secrets, e)[id];
      }
    }
  }

  // ---- When an endpoint falls silent ----

  ghost predicate RevokedIn(log: seq<Commit>, e: Id, i: Id) {
    exists k | 0 <= k < |log| :: log[k].req == Revoke(e, i)
  }

  /** The newest secret of `e` carries an expiry only by a committed revocation, and a revoked secret
      stays inactive. */
  ghost predicate Traced(s: System, e: Id) {
    && (forall i | IsNewest(s.db.secrets, e, i) && s.db.secrets[i].expiresAt.Some? :: RevokedIn(s.log, e, i))
    && (forall i | RevokedIn(s.log, e, i) ::
          i in s.db.secrets && s.db.secrets[i].endpoint == e && !s.db.secrets[i].active)
  }

  lemma MoreRevoked(log: seq<Commit>, c: Commit, e: Id, i: Id)
    ensures RevokedIn(log + [c], e, i) <==> RevokedIn(log, e, i) || c.req == Revoke(e, i)
  {
    if RevokedIn(log, e, i) {
      var k :| 0 <= k < |log| && log[k].req == Revoke(e, i);
      assert (log + [c])[k].req == Revoke(e, i);
    }
    assert (log + [c])[|log|] == c;
  }

  lemma StepTraced(s: System, step: Step, e: Id)
    requires Inv(s) && Traced(s, e)
    ensures Traced(Do(Serializable, s, step), e)
  {
    var effect := StepHas(s, step);
    EffectTraced(s, Do(Serializable, s, step), effect, e);
  }

  lemma EffectTraced(s: System, r: System, effect: Effect, e: Id)
    requires Traced(s, e) && Has(s, r, effect)
    ensures Traced(r, e)
  {
    hide RowsOf, RotateTable, RevokeTable, IsNewest;
    if |r.log| == |s.log| + 1 {
      assert r.log == s.log + [r.log[|s.log|]];
      forall i ensures RevokedIn(r.log, e, i) <==> RevokedIn(s.log, e, i) || r.log[|s.log|].req == Revoke(e, i) {
        MoreRevoked(s.log, r.log[|s.log|], e, i);
      }
    }
    hide RevokedIn;
    match effect
    case Rotated(c) => RotateTraced(s, r, c, e);
    case Revoked(c) => RevokeTraced(s, r, c, e);
    case Minted(f, newId) => MintTraced(s, r, f, newId, e);
    case Untouched =>
  }

  lemma RotateTraced(s: System, r: System, c: Commit, e: Id)
    requires Traced(s, e) && Has(s, r, Rotated(c))
    requires forall i :: RevokedIn(r.log, e, i) <==> RevokedIn(s.log, e, i)
    ensures Traced(r, e)
  {
    RotateShape(s.db.secrets, c.req.endpoint, c.newId, c.now, c.req.overlap);
    hide RotateTable, RevokedIn;
    forall i | IsNewest(r.db.secrets, e, i) && r.db.secrets[i].expiresAt.Some? ensures RevokedIn(r.log, e, i) {
      assert i in s.db.secrets;
    }
  }

  lemma RevokeTraced(s: System, r: System, c: Commit, e: Id)
    requires Traced(s, e) && Has(s, r, Revoked(c))
    requires forall i :: RevokedIn(r.log, e, i) <==> RevokedIn(s.log, e, i) || c.req == Revoke(e, i)
    ensures Traced(r, e)
  {
    RevokeShape(s.db.secrets, c.req.endpoint, c.req.secret, c.now);
    hide RevokedIn;
    forall i | IsNewest(r.db.secrets, e, i) && r.db.secrets[i].expiresAt.Some? ensures RevokedIn(r.log, e, i) {
      assert IsNewest(s.db.secrets, e, i);
    }
  }

  lemma MintTraced(s: System, r: System, f: Id, newId: Id, e: Id)
    requires Traced(s, e) && Has(s, r, Minted(f, newId))
    ensures Traced(r, e)
  {
    hide RevokedIn, RowsOf;
    assert forall j | j in s.db.secrets :: j in r.db.secrets && r.db.secrets[j] == s.db.secrets[j];
    forall i | IsNewest(r.db.secrets, e, i) && r.db.secrets[i].expiresAt.Some? ensures RevokedIn(r.log, e, i) {
      assert IsNewest(s.db.secrets, e, i);
    }
  }

  lemma {:induction false} RunTraced(s: System, steps: seq<Step>, e: Id)
    requires Start(s) && Traced(s, e)
    ensures Traced(Run(Serializable, s, steps), e)
    decreases |steps|
  {
    if steps != [] {
      var last := |steps| - 1;
      RunTraced(s, steps[..last], e);
      EveryRunKeepsInv(s, steps[..last]);
      StepTraced(Run(Serializable, s, steps[..last]), steps[last], e);
    }
  }

  /** Over every run, an endpoint signs at every instant exactly when its newest secret was never
      revoked. */
  lemma SignsForeverIffUnrevoked(s: System, steps: seq<Step>, e: Id, newest: Id)
    requires Start(s) && Traced(s, e)
    requires IsNewest(Run(Serializable, s, steps).db.secrets, e, newest)
    ensures var r := Run(Serializable, s, steps);
            && ((forall t :: CanSign(r.db.secrets, e, t)) <==> !RevokedIn(r.log, e, newest))
            && (r.db.secrets[newest].active <==> !RevokedIn(r.log, e, newest))
  {
    var r := Run(Serializable, s, steps);
    EveryRunKeepsInv(s, steps);
    RunTraced(s, steps, e);
    hide Run;
    var rows := r.db.secrets;
    if RevokedIn(r.log, e, newest) {
      var end := Latest(Ends(rows, e, newest));
      var t := if end.Some? then end.value else 0;
      ClosedWindow(rows, e, newest, t);
      assert !CanSign(rows, e, t);
    } else {
      assert rows[newest].expiresAt.None?;
      forall t ensures CanSign(rows, e, t) { SigningHorizon(rows, e, newest, t); }
    }
  }

  lemma RowsDecideSigning(rows: Table, after: Table, e: Id, t: Time)
    requires RowsOf(rows, e) == RowsOf(after, e)
    ensures CanSign(rows, e, t) <==> CanSign(after, e, t)
  {
    if id :| id in rows && rows[id].endpoint == e && Signs(rows[id], t) {
      assert id in RowsOf(rows, e) && RowsOf(after, e)[id] == rows[id];
    }
    if id :| id in after && after[id].endpoint == e && Signs(after[id], t) {
      assert id in RowsOf(after, e) && RowsOf(rows, e)[id] == after[id];
    }
  }

  /** Step `n` commits a revocation of `id`, and nothing about `e` commits after it. */
  ghost predicate LastRevokes(s: System, steps: seq<Step>, n: nat, e: Id, id: Id) {
    && n < |steps|
    && var a, b := Run(Serializable, s, steps[..n]), Run(Serializable, s, steps[..n + 1]);
       && |b.log| == |a.log| + 1 && b.log[|a.log|].req == Revoke(e, id)
       && !About(b, Run(Serializable, s, steps), e)
  }

  lemma RevokeStep(s: System, step: Step, e: Id, id: Id)
    requires Inv(s)
    requires var r := Do(Serializable, s, step); |r.log| == |s.log| + 1 && r.log[|s.log|].req == Revoke(e, id)
    ensures var r := Do(Serializable, s, step);
            && id in s.db.secrets && s.db.secrets[id].endpoint == e
            && r.db.secrets == RevokeTable(s.db.secrets, e, id, r.log[|s.log|].now)
  {
    var effect := StepHas(s, step);
    hide Inv, Do, RowsOf, RotateTable, RevokeTable;
  }

  lemma RunOneMore(s: System, steps: seq<Step>, n: nat)
    requires n < |steps|
    ensures Run(Serializable, s, steps[..n + 1]) == Do(Serializable, Run(Serializable, s, steps[..n]), steps[n])
  {
    assert steps[..n + 1][..n] == steps[..n];
  }

  /** Nothing about `e` commits from prefix `n` on, so its rows are those of that prefix. */
  lemma QuietSince(s: System, steps: seq<Step>, n: nat, e: Id, t: Time)
    requires Start(s) && n <= |steps| && RowsOf(Run(Serializable, s, steps[..n]).db.secrets, e) != map[]
    requires !About(Run(Serializable, s, steps[..n]), Run(Serializable, s, steps), e)
    ensures CanSign(Run(Serializable, s, steps).db.secrets, e, t)
            <==> CanSign(Run(Serializable, s, steps[..n]).db.secrets, e, t)
  {
    RunSameRows(s, steps, n, e);
    hide Run, RowsOf, CanSign;
    RowsDecideSigning(Run(Serializable, s, steps[..n]).db.secrets, Run(Serializable, s, steps).db.secrets, e, t);
  }

  /** What a revocation decides, told from the table it finds: unless it closes the window, the endpoint
      signs at every instant until the next commit about it; if it does, exactly until the last expiry
      among the other active secrets. */
  lemma RevocationDecides(s: System, steps: seq<Step>, n: nat, e: Id, id: Id, t: Time)
    requires Start(s) && Traced(s, e) && LastRevokes(s, steps, n, e, id)
    ensures var rows, r := Run(Serializable, s, steps[..n]).db.secrets, Run(Serializable, s, steps);
            if ClosesWindow(rows, e, id) then CanSign(r.db.secrets, e, t) <==> Before(t, Latest(Ends(rows, e, id)))
            else CanSign(r.db.secrets, e, t)
  {
    var a := Run(Serializable, s, steps[..n]);
    EveryRunKeepsInv(s, steps[..n]);
    RunTraced(s, steps[..n], e);
    RunOneMore(s, steps, n);
    hide Run, About;
    RevokeStep(a, steps[n], e, id);
    var b := Do(Serializable, a, steps[n]);
    hide Do, Ends;
    assert id in RowsOf(b.db.secrets, e);
    QuietSince(s, steps, n + 1, e, t);
    assert id in RowsOf(a.db.secrets, e);
    var newest := NewestExists(a.db.secrets, e);
    hide RowsOf, RevokeTable, CanSign;
    assert a.db.secrets[newest].active ==> a.db.secrets[newest].expiresAt.None?;
    OneNewest(a.db.secrets, e, id, newest);
    hide IsNewest, Traced, ClosesWindow;
    RevokeWindow(a.db.secrets, e, id, b.log[|a.log|].now, newest, t);
  }

  lemma OneNewest(rows: Table, e: Id, id: Id, newest: Id)
    requires DistinctVersions(rows) && IsNewest(rows, e, newest)
    ensures ClosesWindow(rows, e, id) <==> newest == id || !rows[newest].active
  {
  }

  /** Both halves for every instant: which revocations leave the endpoint signing for ever. */
  lemma RevocationKeepsSigningIff(s: System, steps: seq<Step>, n: nat, e: Id, id: Id)
    requires Start(s) && Traced(s, e) && LastRevokes(s, steps, n, e, id)
    ensures (forall t :: CanSign(Run(Serializable, s, steps).db.secrets, e, t))
            <==> !ClosesWindow(Run(Serializable, s, steps[..n]).db.secrets, e, id)
  {
    var end := Latest(Ends(Run(Serializable, s, steps[..n]).db.secrets, e, id));
    hide Run, Traced, LastRevokes, CanSign, ClosesWindow, Ends;
    RevocationDecides(s, steps, n, e, id, if end.Some? then end.value else 0);
    forall t ensures !ClosesWindow(Run(Serializable, s, steps[..n]).db.secrets, e, id)
                     ==> CanSign(Run(Serializable, s, steps).db.secrets, e, t) {
      RevocationDecides(s, steps, n, e, id, t);
    }
  }

  lemma {:induction false} LogOnlyGrows(s: System, steps: seq<Step>, n: nat)
    requires n <= |steps|
    ensures Run(Serializable, s, steps[..n]).log <= Run(Serializable, s, steps).log
    decreases |steps|
  {
    if n == |steps| {
      assert steps[..n] == steps;
    } else {
      assert steps[..|steps| - 1][..n] == steps[..n];
      LogOnlyGrows(s, steps[..|steps| - 1], n);
      hide Execute, Collides, Read, DoMint, DoInsert;
    }
  }

  /** Commits about `e` in a log that grew in two stages. */
  lemma AboutSplits(a: System, m: System, r: System, e: Id)
    requires a.log <= m.log <= r.log
    ensures About(a, r, e) <==> About(a, m, e) || About(m, r, e)
  {
    if k :| |a.log| <= k < |r.log| && r.log[k].req.Rotate? && r.log[k].req.endpoint == e {
      assert k < |m.log| ==> m.log[k] == r.log[k];
    }
    if k :| |a.log| <= k < |r.log| && r.log[k].req.Revoke? && r.log[k].req.endpoint == e {
      assert k < |m.log| ==> m.log[k] == r.log[k];
    }
    if k :| |a.log| <= k < |m.log| && m.log[k].req.Rotate? && m.log[k].req.endpoint == e {
      assert r.log[k] == m.log[k];
    }
    if k :| |a.log| <= k < |m.log| && m.log[k].req.Revoke? && m.log[k].req.endpoint == e {
      assert r.log[k] == m.log[k];
    }
  }

  lemma {:induction false} LastCommitAbout(s: System, steps: seq<Step>, e: Id) returns (n: nat)
    requires About(s, Run(Serializable, s, steps), e)
    ensures n < |steps|
    ensures About(Run(Serializable, s, steps[..n]), Run(Serializable, s, steps[..n + 1]), e)
    ensures !About(Run(Serializable, s, steps[..n + 1]), Run(Serializable, s, steps), e)
    decreases |steps|
  {
    hide Do;
    var r := Run(Serializable, s, steps);
    var last := |steps| - 1;
    var m := Run(Serializable, s, steps[..last]);
    assert steps[..last + 1] == steps;
    if About(m, r, e) {
      n := last;
    } else {
      LogOnlyGrows(s, steps, last);
      LogOnlyGrows(s, steps[..last], 0);
      assert steps[..last][..0] == [];
      hide Run, About;
      AboutSplits(s, m, r, e);
      n := LastCommitAbout(s, steps[..last], e);
      assert steps[..last][..n] == steps[..n] && steps[..last][..n + 1] == steps[..n + 1];
      LogOnlyGrows(s, steps[..last], n + 1);
      AboutSplits(Run(Serializable, s, steps[..n + 1]), m, r, e);
    }
  }

  /** A rotation is the last commit about `e`: it signs at every instant. */
  lemma RotationDecides(s: System, steps: seq<Step>, n: nat, e: Id, c: Commit, t: Time)
    requires Start(s) && n < |steps|
    requires Has(Run(Serializable, s, steps[..n]), Run(Serializable, s, steps[..n + 1]), Rotated(c))
    requires c.req.endpoint == e
    requires !About(Run(Serializable, s, steps[..n + 1]), Run(Serializable, s, steps), e)
    ensures CanSign(Run(Serializable, s, steps).db.secrets, e, t)
  {
    var a, b := Run(Serializable, s, steps[..n]), Run(Serializable, s, steps[..n + 1]);
    hide Run, About;
    RotateSignsForever(a.db.secrets, e, c.newId, c.now, c.req.overlap);
    RotateShape(a.db.secrets, e, c.newId, c.now, c.req.overlap);
    hide RotateTable;
    assert c.newId in RowsOf(b.db.secrets, e);
    hide CanSign, RowsOf;
    QuietSince(s, steps, n + 1, e, t);
  }

  /** The last commit about `e` was a revocation that closed the window, and by `t` the expiries of the
      other secrets it found active have come. */
  ghost predicate SilencedBy(s: System, steps: seq<Step>, n: nat, e: Id, id: Id, t: Time) {
    && LastRevokes(s, steps, n, e, id)
    && var rows := Run(Serializable, s, steps[..n]).db.secrets;
       ClosesWindow(rows, e, id) && !Before(t, Latest(Ends(rows, e, id)))
  }

  /** In every reachable state an endpoint that has secrets cannot sign at `t` exactly when one commit
      of the run, the last about it, silenced it by then. */
  lemma SilentIffSilenced(s: System, steps: seq<Step>, e: Id, t: Time)
    requires Start(s) && Traced(s, e) && RowsOf(Run(Serializable, s, steps).db.secrets, e) != map[]
    ensures !CanSign(Run(Serializable, s, steps).db.secrets, e, t)
            <==> exists n: nat, id: Id :: SilencedBy(s, steps, n, e, id, t)
  {
    var r := Run(Serializable, s, steps);
    hide Run, Do, CanSign, RowsOf, ClosesWindow, Ends;
    if n: nat, id: Id :| SilencedBy(s, steps, n, e, id, t) {
      RevocationDecides(s, steps, n, e, id, t);
    }
    if !CanSign(r.db.secrets, e, t) {
      var n, id := SilenceHasACommit(s, steps, e, t);
      RevocationDecides(s, steps, n, e, id, t);
      assert SilencedBy(s, steps, n, e, id, t);
    }
  }

  lemma SilenceHasACommit(s: System, steps: seq<Step>, e: Id, t: Time) returns (n: nat, id: Id)
    requires Start(s) && Traced(s, e) && RowsOf(Run(Serializable, s, steps).db.secrets, e) != map[]
    requires !CanSign(Run(Serializable, s, steps).db.secrets, e, t)
    ensures LastRevokes(s, steps, n, e, id)
  {
    var r := Run(Serializable, s, steps);
    hide Do, CanSign, RowsOf;
    var newest := NewestExists(r.db.secrets, e);
    SignsForeverIffUnrevoked(s, steps, e, newest);
    assert About(s, r, e) by {
      var k :| 0 <= k < |r.log| && r.log[k].req == Revoke(e, newest);
    }
    n := LastCommitAbout(s, steps, e);
    EveryRunKeepsInv(s, steps[..n]);
    RunOneMore(s, steps, n);
    var a, b := Run(Serializable, s, steps[..n]), Run(Serializable, s, steps[..n + 1]);
    hide Run, Inv, RotateTable, RevokeTable, IsNewest;
    var effect := StepHas(a, steps[n]);
    EffectIsAbout(a, b, effect, e);
    if effect.Rotated? {
      RotationDecides(s, steps, n, e, effect.c, t);
    }
    id := effect.c.req.secret;
  }

  /** An endpoint whose secrets were minted and rotated but never revoked signs at every instant. */
  lemma UnrevokedSignsForever(s: System, steps: seq<Step>, e: Id, t: Time)
    requires Start(s) && Traced(s, e)
    ensures var r := Run(Serializable, s, steps);
            RowsOf(r.db.secrets, e) != map[] && !RevokedSince(r.log, 0, e) ==> CanSign(r.db.secrets, e, t)
  {
    var r := Run(Serializable, s, steps);
    hide Run, CanSign, RowsOf;
    if RowsOf(r.db.secrets, e) != map[] {
      var newest := NewestExists(r.db.secrets, e);
      SignsForeverIffUnrevoked(s, steps, e, newest);
    }
  }

  // ---- Active endpoints ----

  ghost predicate IsActive(s: System, e: Id) {
    e in s.db.endpoints && s.db.endpoints[e] == Active
  }

  /** The instant `e` was last vouched for: its last committed rotation or revocation, at that
      transaction's own `now`, or the moment it went active if that came later. */
  ghost function Vouched(s: System, steps: seq<Step>, e: Id): (t: Time)
    decreases |steps|
  {
    if steps == [] then s.clock
    else
      var last := |steps| - 1;
      var before, after := Run(Serializable, s, steps[..last]), Run(Serializable, s, steps);
      if About(before, after, e) then after.log[|after.log| - 1].now
      else if IsActive(after, e) && !IsActive(before, e) then after.clock
      else Vouched(s, steps[..last], e)
  }

  ghost predicate SignsAt(s: System, e: Id, t: Time) {
    IsActive(s, e) ==> CanSign(s.db.secrets, e, t)
  }

  /** `create` and `enable` put an endpoint in service only when it can sign there and then. */
  lemma GoesActiveSigning(s: System, step: Step, e: Id)
    requires IsActive(Do(Serializable, s, step), e) && !IsActive(s, e)
    ensures var r := Do(Serializable, s, step); CanSign(r.db.secrets, e, r.clock)
  {
    var r := Do(Serializable, s, step);
    hide Execute, Collides, Read;
    match step
    case MintInitial(f, newId, handOver) =>
      assert newId in r.db.secrets && Signs(r.db.secrets[newId], r.clock);
    case _ =>
  }

  lemma {:induction false} EffectSigns(s: System, r: System, effect: Effect, e: Id, t: Time)
    requires Has(s, r, effect) && CanSign(s.db.secrets, e, t)
    requires effect.Rotated? || effect.Revoked? ==> effect.c.req.endpoint != e
    ensures CanSign(r.db.secrets, e, t)
  {
    var id :| id in s.db.secrets && s.db.secrets[id].endpoint == e && Signs(s.db.secrets[id], t);
    hide RowsOf, NextVersion;
    assert id in r.db.secrets && r.db.secrets[id] == s.db.secrets[id];
  }

  ghost predicate About(s: System, r: System, e: Id) {
    RotatedSince(r.log, |s.log|, e) || RevokedSince(r.log, |s.log|, e)
  }

  lemma EffectIsAbout(s: System, r: System, effect: Effect, e: Id)
    requires Has(s, r, effect)
    ensures About(s, r, e) <==> (effect.Rotated? || effect.Revoked?) && effect.c.req.endpoint == e
  {
    hide RowsOf, RotateTable, RevokeTable;
    if effect.Rotated? || effect.Revoked? { assert r.log[|s.log|] == effect.c; }
  }

  lemma CommitSigns(s: System, step: Step, c: Commit, e: Id)
    requires Inv(s) && Do(Serializable, s, step).log == s.log + [c] && c.after == Do(Serializable, s, step).db
    requires (c.req.Rotate? || c.req.Revoke?) && c.req.endpoint == e
    ensures SignsAt(Do(Serializable, s, step), e, c.now)
  {
    StepKeeps(s, step);
    hide Do;
    var r := Do(Serializable, s, step);
    assert r.log[|s.log|] == c;
    assert CommitOk(r.log[|s.log|]);
  }

  lemma StepSigns(s: System, step: Step, e: Id, t: Time)
    requires Inv(s) && SignsAt(s, e, t)
    ensures var r := Do(Serializable, s, step);
            if About(s, r, e) then |r.log| > 0 && SignsAt(r, e, r.log[|r.log| - 1].now)
            else SignsAt(r, e, if IsActive(r, e) && !IsActive(s, e) then r.clock else t)
  {
    var r := Do(Serializable, s, step);
    var effect := StepHas(s, step);
    EffectIsAbout(s, r, effect, e);
    hide Inv, RotateTable, RevokeTable, CanSign, RowsOf, About, Do;
    if About(s, r, e) {
      CommitSigns(s, step, effect.c, e);
    } else if IsActive(r, e) {
      if IsActive(s, e) { EffectSigns(s, r, effect, e, t); } else { GoesActiveSigning(s, step, e); }
    }
  }

  /** Over every run, an active endpoint could sign when it went active and at every secrets commit
      since: it can sign at the instant it was last vouched for. */
  lemma {:induction false} ActiveWasVouchedFor(s: System, steps: seq<Step>, e: Id)
    requires Start(s) && SignsAt(s, e, s.clock)
    ensures SignsAt(Run(Serializable, s, steps), e, Vouched(s, steps, e))
    decreases |steps|
  {
    if steps != [] {
      var last := |steps| - 1;
      ActiveWasVouchedFor(s, steps[..last], e);
      EveryRunKeepsInv(s, steps[..last]);
      StepSigns(Run(Serializable, s, steps[..last]), steps[last], e, Vouched(s, steps[..last], e));
    }
  }

  /** An active endpoint is unable to sign at the present clock exactly when the last commit about it
      was a revocation that closed its window and the overlaps it found have run out. */
  lemma ActiveIsSilentIffSilenced(s: System, steps: seq<Step>, e: Id)
    requires Start(s) && SignsAt(s, e, s.clock) && Traced(s, e) && IsActive(Run(Serializable, s, steps), e)
    ensures var r := Run(Serializable, s, steps);
            !CanSign(r.db.secrets, e, r.clock) <==> exists n: nat, id: Id :: SilencedBy(s, steps, n, e, id, r.clock)
  {
    var r := Run(Serializable, s, steps);
    ActiveWasVouchedFor(s, steps, e);
    hide Run, SilencedBy;
    var id :| id in r.db.secrets && r.db.secrets[id].endpoint == e;
    assert id in RowsOf(r.db.secrets, e);
    hide RowsOf, CanSign;
    SilentIffSilenced(s, steps, e, r.clock);
  }

  // ---- A live endpoint that can no longer sign ----

  function Alone(i: nat, req: Request, newId: Id): seq<Step> {
    [Submit(req), Begin(i, newId)] + [Finish(i)]
  }

  /** Submitted and begun: open on the present tables, with nothing else changed. */
  lemma RunBegun(s: System, req: Request, newId: Id)
    requires newId !in s.db.secrets
    ensures Run(Serializable, s, [Submit(req), Begin(|s.txns|, newId)])
            == s.(txns := s.txns + [Txn(req, 1, Open(Read(req, s.db), s.clock, newId, false))])
  {
    hide Do, Read;
    RunOfTwo(Serializable, s, Submit(req), Begin(|s.txns|, newId));
    hide Run;
    SubmitStep(Serializable, s, req);
    BeginStep(Serializable, s.(txns := s.txns + [Txn(req, 1, Waiting)]), s.txns, req, [], newId);
  }

  lemma FinishLast(s: System, req: Request, view: View, newId: Id, w: Writes)
    requires view.SecretsView? <==> req.Rotate? || req.Revoke?
    requires Execute(req, s.clock, newId, view) == Write(w) && !Collides(req, newId, view, s.db)
    ensures var begun := s.(txns := s.txns + [Txn(req, 1, Open(view, s.clock, newId, false))]);
            var r := Do(Serializable, begun, Finish(|s.txns|));
            && r.db == Apply(s.db, w) && r.clock == s.clock && |r.txns| == |s.txns| + 1
            && r.txns[|s.txns|].phase == Committed
  {
    hide Execute, Collides, Apply, Read, DoMint, DoInsert;
  }

  lemma RunAlone(s: System, req: Request, newId: Id, w: Writes)
    requires newId !in s.db.secrets
    requires Execute(req, s.clock, newId, Read(req, s.db)) == Write(w)
    requires !Collides(req, newId, Read(req, s.db), s.db)
    ensures var r := Run(Serializable, s, Alone(|s.txns|, req, newId));
            && r.db == Apply(s.db, w) && r.clock == s.clock && |r.txns| == |s.txns| + 1
            && r.txns[|s.txns|].phase == Committed
  {
    assert Read(req, s.db).SecretsView? <==> req.Rotate? || req.Revoke?;
    hide Execute, Collides, Apply, Read, Run, Do;
    RunBegun(s, req, newId);
    RunSnoc(Serializable, s, [Submit(req), Begin(|s.txns|, newId)], Finish(|s.txns|));
    FinishLast(s, req, Read(req, s.db), newId, w);
  }

  lemma {:induction false} RunAppend(s: System, a: seq<Step>, b: seq<Step>)
    ensures Run(Serializable, s, a + b) == Run(Serializable, Run(Serializable, s, a), b)
    decreases |b|
  {
    if b == [] {
      assert a + b == a;
    } else {
      var last := |b| - 1;
      assert (a + b)[..|a + b| - 1] == a + b[..last];
      RunAppend(s, a, b[..last]);
    }
  }

  function Nothing(clock: Time): System {
    System(Database(map[], map[], {}, map[]), clock, [], [], [])
  }

  function AfterRotation(e: Id, now: Time, overlap: nat): Table {
    map[1 := Secret(e, 1, true, Some(now + overlap * 1000), Some(now)), 2 := Secret(e, 2, true, None, None)]
  }

  lemma SecondSecret(e: Id, now: Time, overlap: nat)
    requires overlap >= 1
    ensures var rows: Table := map[1 := Secret(e, 1, true, None, None)];
            && RowsOf(rows, e) == rows && VersionsOf(rows, e) == {1} && NextVersion(rows, e) == 2
            && RotateTable(rows, e, 2, now, overlap) == AfterRotation(e, now, overlap)
  {
    var rows: Table := map[1 := Secret(e, 1, true, None, None)];
    assert rows[1].version in VersionsOf(rows, e);
  }

  lemma RevokeSecond(e: Id, now: Time, overlap: nat)
    requires overlap >= 1
    ensures var rows := AfterRotation(e, now, overlap);
            && RowsOf(rows, e) == rows && HasSurvivor(rows, e, 2, now)
            && !CanSign(RevokeTable(rows, e, 2, now), e, now + overlap * 1000)
  {
    assert Signs(AfterRotation(e, now, overlap)[1], now);
  }

  /** Created live, rotated, the new secret revoked while the old one's overlap still ran. */
  function FallingSilent(e: Id, overlap: nat): seq<Step> {
    [CreateEndpoint(e)] + [MintInitial(e, 1, true)] + Alone(0, Rotate(e, overlap), 2)
    + Alone(1, Revoke(e, 2), 3) + [Tick(overlap * 1000)]
  }

  function Live(e: Id, rows: Table): Database {
    Database(map[e := Active], rows, {}, map[])
  }

  lemma CreateLive(e: Id, clock: Time)
    ensures var r := Run(Serializable, Nothing(clock), [CreateEndpoint(e)] + [MintInitial(e, 1, true)]);
            r == Nothing(clock).(db := Live(e, map[1 := Secret(e, 1, true, None, None)]))
  {
    RunSnoc(Serializable, Nothing(clock), [], CreateEndpoint(e));
    assert [] + [CreateEndpoint(e)] == [CreateEndpoint(e)];
    RunSnoc(Serializable, Nothing(clock), [CreateEndpoint(e)], MintInitial(e, 1, true));
  }

  lemma RotateLive(s: System, e: Id, overlap: nat)
    requires overlap >= 1 && s.db == Live(e, map[1 := Secret(e, 1, true, None, None)])
    ensures var r := Run(Serializable, s, Alone(|s.txns|, Rotate(e, overlap), 2));
            r.db == Live(e, AfterRotation(e, s.clock, overlap)) && r.clock == s.clock && |r.txns| == |s.txns| + 1
  {
    SecondSecret(e, s.clock, overlap);
    hide Run, Alone, RotateTable, NextVersion, VersionsOf, RowsOf;
    RunAlone(s, Rotate(e, overlap), 2, Writes(AfterRotation(e, s.clock, overlap), map[], {}));
  }

  lemma RevokeLive(s: System, e: Id, overlap: nat)
    requires overlap >= 1 && s.db == Live(e, AfterRotation(e, s.clock, overlap))
    ensures var r := Run(Serializable, s, Alone(|s.txns|, Revoke(e, 2), 3));
            && IsActive(r, e) && r.clock == s.clock
            && !CanSign(r.db.secrets, e, s.clock + overlap * 1000)
  {
    RevokeSecond(e, s.clock, overlap);
    var after := RevokeTable(AfterRotation(e, s.clock, overlap), e, 2, s.clock);
    assert s.db.secrets + after == after;
    hide Run, Alone, RevokeTable, RowsOf, HasSurvivor;
    RunAlone(s, Revoke(e, 2), 3, Writes(after, map[], {}));
  }

  /** "A live endpoint always has a secret that signs" fails: nobody did anything the service refuses,
      the endpoint is still active, and nothing signs once the overlap has run out. */
  lemma ActiveEndpointFallsSilent(e: Id, clock: Time, overlap: nat)
    requires overlap >= 1
    ensures Start(Nothing(clock))
    ensures var r := Run(Serializable, Nothing(clock), FallingSilent(e, overlap));
            IsActive(r, e) && !CanSign(r.db.secrets, e, r.clock)
  {
    hide Run, Alone, CanSign, AfterRotation;
    var s := Nothing(clock);
    var created := [CreateEndpoint(e)] + [MintInitial(e, 1, true)];
    var rotated := created + Alone(0, Rotate(e, overlap), 2);
    var revoked := rotated + Alone(1, Revoke(e, 2), 3);
    CreateLive(e, clock);
    RotateLive(Run(Serializable, s, created), e, overlap);
    RunAppend(s, created, Alone(0, Rotate(e, overlap), 2));
    RevokeLive(Run(Serializable, s, rotated), e, overlap);
    RunAppend(s, rotated, Alone(1, Revoke(e, 2), 3));
    RunSnoc(Serializable, s, revoked, Tick(overlap * 1000));
  }
}
