/** Every interleaving of the tenant transactions, and of the writes that run beside them
    (apps/control-api/src/organizations/tenant-transaction.ts:175-204).

    PostgreSQL's SERIALIZABLE is represented by one rule: an open transaction can no longer commit
    once another transaction of the runner has committed a change to what it read. The database may
    abort an open transaction at any other time as well. Writers that do not go through the runner
    (endpoint status, the first secret, redeeming an invitation) abort nobody. */
module Runner {
  import opened Domain
  import opened Secrets
  import opened Roles

  datatype Member = Member(org: Id, user: Id, role: Role)

  datatype Database = Database(
    endpoints: map<Id, EndpointStatus>, secrets: Table, orgs: set<Id>, members: map<Id, Member>)

  /** The caller as the request context holds it; the role is not read again. */
  datatype Actor = Actor(membership: Id, role: Role)

  datatype Request =
    | Rotate(endpoint: Id, overlap: nat)
    | Revoke(endpoint: Id, secret: Id)
    | ChangeRole(org: Id, actor: Actor, target: Id, role: Role)
    | RemoveMember(org: Id, actor: Actor, target: Id)

  // ---- What a callback reads, and what it decides from that alone ----

  datatype View =
    | SecretsView(status: Option<EndpointStatus>, rows: Table)
    | MembersView(target: Option<Member>, owners: set<Id>)

  function Owners(members: map<Id, Member>, org: Id): (r: set<Id>) {
    set id | id in members && members[id].org == org && members[id].role == Owner
  }

  function Read(req: Request, db: Database): (v: View) {
    match req
    case Rotate(e, _) => SecretsView(StatusOf(db, e), RowsOf(db.secrets, e))
    case Revoke(e, _) => SecretsView(StatusOf(db, e), RowsOf(db.secrets, e))
    case ChangeRole(org, _, target, _) => MembersView(MemberOf(db, org, target), Owners(db.members, org))
    case RemoveMember(org, _, target) => MembersView(MemberOf(db, org, target), Owners(db.members, org))
  }

  function StatusOf(db: Database, e: Id): Option<EndpointStatus> {
    if e in db.endpoints then Some(db.endpoints[e]) else None
  }

  function MemberOf(db: Database, org: Id, id: Id): Option<Member> {
    if id in db.members && db.members[id].org == org then Some(db.members[id]) else None
  }

  datatype Writes = Writes(secrets: Table, members: map<Id, Member>, removed: set<Id>)
  datatype Outcome = Refused(error: Error) | Write(writes: Writes)

  function Apply(db: Database, w: Writes): (r: Database) {
    db.(secrets := db.secrets + w.secrets, members := (db.members + w.members) - w.removed)
  }

  /** The callback of each request, from its view to its writes or its error. */
  ghost function Execute(req: Request, now: Time, newId: Id, v: View): (r: Outcome)
    requires v.SecretsView? <==> req.Rotate? || req.Revoke?
  {
    match req
    case Rotate(e, overlap) =>
      if v.status.None? then Refused(NotFound)
      else if v.status.value == Deleted then Refused(Conflict)
      else Write(Writes(RotateTable(v.rows, e, newId, now, overlap), map[], {}))
    case Revoke(e, id) =>
      if v.status.None? || id !in v.rows then Refused(NotFound)
      else if !HasSurvivor(v.rows, e, id, now) && v.status.value != Deleted then Refused(Conflict)
      else Write(Writes(RevokeTable(v.rows, e, id, now), map[], {}))
    case ChangeRole(org, actor, target, role) =>
      if v.target.None? then Refused(NotFound)
      else
        var m := v.target.value;
        var check := CheckRoleChange(RoleChange(actor.role, actor.membership, target, m.role, |v.owners|), role);
        if check.Some? then Refused(check.value)
        else if m.role == role then Write(Writes(map[], map[], {}))
        else Write(Writes(map[], map[target := m.(role := role)], {}))
    case RemoveMember(org, actor, target) =>
      if v.target.None? then Refused(NotFound)
      else
        var m := v.target.value;
        var check := CheckRemoval(RoleChange(actor.role, actor.membership, target, m.role, |v.owners|));
        if check.Some? then Refused(check.value) else Write(Writes(map[], map[], {target}))
  }

  /** `@@unique([endpointId, version])` and the primary key, against the rows at insert time. */
  ghost predicate Collides(req: Request, newId: Id, v: View, db: Database)
    requires v.SecretsView? <==> req.Rotate? || req.Revoke?
  {
    req.Rotate?
    && (newId in db.secrets || NextVersion(v.rows, req.endpoint) in VersionsOf(db.secrets, req.endpoint))
  }

  // ---- The system ----

  const MAX_ATTEMPTS: nat := 4

  datatype Phase =
    | Waiting
    | Open(view: View, now: Time, newId: Id, doomed: bool)
    | Committed
    | Failed(error: Error)

  datatype Txn = Txn(req: Request, attempt: nat, phase: Phase)

  /** An invitation being redeemed: checked against the inviter's row, then inserted. */
  datatype Redemption = Redemption(org: Id, user: Id, role: Role, membership: Id, inviter: Id, verified: bool)

  datatype Commit = Commit(req: Request, now: Time, newId: Id, after: Database)

  datatype System = System(
    db: Database, clock: Time, txns: seq<Txn>, redemptions: seq<Redemption>, log: seq<Commit>)

  datatype Isolation = Serializable | ReadCommitted

  datatype Step =
    | Tick(ms: nat)
    | Submit(req: Request)
    | Begin(i: nat, newId: Id)
    | Finish(i: nat)
    | Abort(i: nat)
    | CreateEndpoint(e: Id)
    | MintInitial(e: Id, newId: Id, handOver: bool)
    | Enable(e: Id)
    | Stop(e: Id, status: EndpointStatus)
    | CreateOrganization(org: Id, user: Id, membership: Id)
    | VerifyRedemption(org: Id, user: Id, role: Role, membership: Id, inviter: Id)
    | InsertRedemption(k: nat)

  predicate WellTyped(t: Txn) {
    t.phase.Open? ==> (t.phase.view.SecretsView? <==> t.req.Rotate? || t.req.Revoke?)
  }

  function SetPhase(txns: seq<Txn>, i: nat, p: Phase): seq<Txn>
    requires i < |txns|
  {
    txns[i := txns[i].(phase := p)]
  }

  /** Open transactions whose reads a commit changed may no longer commit. */
  function Doom(iso: Isolation, txns: seq<Txn>, before: Database, after: Database): (r: seq<Txn>)
    ensures |r| == |txns|
    ensures forall j | 0 <= j < |txns| :: r[j].req == txns[j].req && r[j].attempt == txns[j].attempt
    ensures forall j | 0 <= j < |txns| && !txns[j].phase.Open? :: r[j] == txns[j]
    ensures forall j | 0 <= j < |txns| && txns[j].phase.Open? ::
      r[j].phase == txns[j].phase.(doomed :=
        txns[j].phase.doomed || (iso == Serializable && Read(txns[j].req, before) != Read(txns[j].req, after)))
  {
    seq(|txns|, j requires 0 <= j < |txns| =>
      if txns[j].phase.Open? && iso == Serializable && Read(txns[j].req, before) != Read(txns[j].req, after)
      then txns[j].(phase := txns[j].phase.(doomed := true)) else txns[j])
  }

  ghost function DoFinish(iso: Isolation, s: System, i: nat): (r: System)
    requires i < |s.txns| && s.txns[i].phase.Open? && WellTyped(s.txns[i])
  {
    var t := s.txns[i];
    var p := t.phase;
    match Execute(t.req, p.now, p.newId, p.view)
    case Refused(e) => s.(txns := SetPhase(s.txns, i, Phase.Failed(e)))
    case Write(w) =>
      // A taken version is a conflict even where the transaction could no longer commit.
      if Collides(t.req, p.newId, p.view, s.db) then s.(txns := SetPhase(s.txns, i, Phase.Failed(Conflict)))
      else if p.doomed then s
      else
        var after := Apply(s.db, w);
        s.(db := after,
           txns := Doom(iso, SetPhase(s.txns, i, Committed), s.db, after),
           log := s.log + [Commit(t.req, p.now, p.newId, after)])
  }

  /** The runner's loop: a serialisation failure is retried, and the fourth one gives up. */
  function AfterAbort(t: Txn): (r: Txn) {
    if t.attempt >= MAX_ATTEMPTS then t.(phase := Phase.Failed(Conflict))
    else Txn(t.req, t.attempt + 1, Waiting)
  }

  /** The rest of `create`: the endpoint is marked deleted when its first secret cannot be inserted,
      and goes live with it when the caller may be handed the secret. */
  function DoMint(db: Database, e: Id, newId: Id, handOver: bool): (r: Database) {
    if e !in db.endpoints then db
    else if newId in db.secrets || 1 in VersionsOf(db.secrets, e) then db.(endpoints := db.endpoints[e := Deleted])
    else
      db.(secrets := db.secrets[newId := Secret(e, 1, true, None, None)],
          endpoints := if handOver && db.endpoints[e] != Deleted then db.endpoints[e := Active] else db.endpoints)
  }

  function DoInsert(db: Database, k: Redemption): (r: Database) {
    if !k.verified || k.membership in db.members
       || (exists id | id in db.members :: db.members[id].org == k.org && db.members[id].user == k.user)
    then db
    else db.(members := db.members[k.membership := Member(k.org, k.user, k.role)])
  }

  ghost function Do(iso: Isolation, s: System, step: Step): (r: System) {
    match step
    case Tick(ms) => s.(clock := s.clock + ms)
    case Submit(req) => s.(txns := s.txns + [Txn(req, 1, Waiting)])
    case Begin(i, newId) =>
      if i < |s.txns| && s.txns[i].phase.Waiting? && newId !in s.db.secrets
      then s.(txns := SetPhase(s.txns, i, Open(Read(s.txns[i].req, s.db), s.clock, newId, false)))
      else s
    case Finish(i) =>
      if i < |s.txns| && s.txns[i].phase.Open? && WellTyped(s.txns[i]) then DoFinish(iso, s, i) else s
    case Abort(i) =>
      if i < |s.txns| && s.txns[i].phase.Open? then s.(txns := s.txns[i := AfterAbort(s.txns[i])]) else s
    case CreateEndpoint(e) =>
      if e in s.db.endpoints then s else s.(db := s.db.(endpoints := s.db.endpoints[e := Paused]))
    case MintInitial(e, newId, handOver) => s.(db := DoMint(s.db, e, newId, handOver))
    case Enable(e) =>
      if e in s.db.endpoints && s.db.endpoints[e] != Deleted && CanSign(s.db.secrets, e, s.clock)
      then s.(db := s.db.(endpoints := s.db.endpoints[e := Active])) else s
    case Stop(e, status) =>
      if e in s.db.endpoints && s.db.endpoints[e] != Deleted && status != Active
      then s.(db := s.db.(endpoints := s.db.endpoints[e := status])) else s
    case CreateOrganization(org, user, membership) =>
      if org in s.db.orgs || membership in s.db.members then s
      else s.(db := s.db.(orgs := s.db.orgs + {org}, members := s.db.members[membership := Member(org, user, Owner)]))
    case VerifyRedemption(org, user, role, membership, inviter) =>
      var row := MemberOf(s.db, org, inviter);
      s.(redemptions := s.redemptions
           + [Redemption(org, user, role, membership, inviter,
                         org in s.db.orgs && row.Some? && MayAssignRole(row.value.role, role))])
    case InsertRedemption(k) =>
      if k < |s.redemptions| then s.(db := DoInsert(s.db, s.redemptions[k])) else s
  }

  ghost function Run(iso: Isolation, s: System, steps: seq<Step>): (r: System)
    decreases |steps|
  {
    if steps == [] then s
    else Do(iso, Run(iso, s, steps[..|steps| - 1]), steps[|steps| - 1])
  }

  /** Nothing has been submitted yet. */
  ghost predicate Initial(s: System) { s.txns == [] && s.redemptions == [] && s.log == [] }
}
