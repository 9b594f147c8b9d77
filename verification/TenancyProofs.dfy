/** No statement of one organization reads or changes a row of another, and what another organization
    holds never decides what it reads. */
module TenancyProofs {
  import opened Domain
  import opened Tenancy

  // ---- Ownership, defined without any context ----

  function Ref(row: Row, c: Column): Option<Id> {
    if c in row && row[c].Text? then Some(row[c].id) else None
  }

  /** How far a table is from the columns that carry its tenancy. */
  function Level(m: Model): nat {
    match m
    case Organization => 0
    case Project => 0
    case Event => 0
    case Endpoint => 1
    case EventOutbox => 1
    case EndpointSecret => 2
    case Delivery => 2
    case DeliveryAttempt => 3
  }

  /** The organization a row belongs to: its own column, or its parent's owner. */
  function Owner(db: DB, k: Key): (r: Option<Id>)
    decreases Level(k.model), 0
  {
    if k !in db then None
    else match k.model
      case Organization => Some(k.id)
      case Project => Ref(db[k], OrganizationId)
      case Event => Ref(db[k], OrganizationId)
      case Delivery => Ref(db[k], OrganizationId)
      case Endpoint => OwnerOfParent(db, Ref(db[k], ProjectId), Project)
      case EventOutbox => OwnerOfParent(db, Ref(db[k], EventId), Event)
      case DeliveryAttempt => OwnerOfParent(db, Ref(db[k], DeliveryId), Delivery)
      case EndpointSecret => OwnerOfParent(db, Ref(db[k], EndpointId), Endpoint)
  }

  function OwnerOfParent(db: DB, id: Option<Id>, m: Model): (r: Option<Id>)
    decreases Level(m), 1
  {
    if id.None? then None else Owner(db, Key(m, id.value))
  }

  // ---- The fence, one level at a time ----

  predicate ColumnsMatch(row: Row, ctx: Context) {
    Refers(row, OrganizationId, ctx.org) && (ctx.project.Some? ==> Refers(row, ProjectId, ctx.project.value))
  }

  predicate ParentInTenant(db: DB, ctx: Context, row: Row, c: Column, m: Model) {
    c in row && row[c].Text? && InTenant(db, ctx, Key(m, row[c].id))
  }

  predicate EndpointFence(db: DB, ctx: Context, row: Row) {
    if ctx.project.Some? then Refers(row, ProjectId, ctx.project.value)
    else ProjectId in row && row[ProjectId].Text?
         && Key(Project, row[ProjectId].id) in db
         && Refers(db[Key(Project, row[ProjectId].id)], OrganizationId, ctx.org)
  }

  /** The predicate of each table, read as one step up the ownership chain. */
  predicate Fence(db: DB, ctx: Context, k: Key) {
    k in db
    && match k.model
       case Organization => k.id == ctx.org
       case Project => Refers(db[k], OrganizationId, ctx.org)
       case Endpoint => EndpointFence(db, ctx, db[k])
       case EndpointSecret => ParentInTenant(db, ctx, db[k], EndpointId, Endpoint)
       case Event => ColumnsMatch(db[k], ctx)
       case EventOutbox => ParentInTenant(db, ctx, db[k], EventId, Event)
       case Delivery => ParentInTenant(db, ctx, db[k], EndpointId, Endpoint) && ColumnsMatch(db[k], ctx)
       case DeliveryAttempt => ParentInTenant(db, ctx, db[k], DeliveryId, Delivery)
  }

  lemma EvalColumns(db: DB, ctx: Context, k: Key, row: Row)
    ensures Eval(db, k, row, OrgAndProject(ctx)) <==> ColumnsMatch(row, ctx)
  {
  }

  lemma EvalEndpoint(db: DB, ctx: Context, k: Key, row: Row)
    ensures Eval(db, k, row, TenantPredicate(ByProject, ctx)) <==> EndpointFence(db, ctx, row)
  {
  }

  lemma EvalParent(db: DB, k: Key, row: Row, rel: Relation, w: Where)
    ensures var (c, m) := TargetOf(rel);
            Eval(db, k, row, Related(rel, w))
            <==> c in row && row[c].Text? && Key(m, row[c].id) in db
                 && Eval(db, Key(m, row[c].id), db[Key(m, row[c].id)], w)
  {
  }

  lemma InTenantIsFence(db: DB, ctx: Context, k: Key)
    ensures InTenant(db, ctx, k) <==> Fence(db, ctx, k)
  {
    if k in db {
      var row := db[k];
      match k.model
      case Organization =>
      case Project =>
      case Endpoint => EvalEndpoint(db, ctx, k, row);
      case Event => EvalColumns(db, ctx, k, row);
      case EndpointSecret => EvalParent(db, k, row, ToEndpoint, TenantPredicate(ByProject, ctx));
      case EventOutbox => EvalParent(db, k, row, ToEvent, TenantPredicate(ProjectAndOrganization, ctx));
      case DeliveryAttempt => EvalParent(db, k, row, ToDelivery, TenantPredicate(DeliveryChain, ctx));
      case Delivery =>
        EvalParent(db, k, row, ToEndpoint, TenantPredicate(ByProject, ctx));
        EvalColumns(db, ctx, k, row);
    }
  }

  /** Whatever a context reaches belongs to its organization. */
  lemma ReachedIsOwned(db: DB, ctx: Context, k: Key)
    requires Grounded(db, ctx) && InTenant(db, ctx, k)
    ensures Owner(db, k) == Some(ctx.org)
    decreases Level(k.model)
  {
    InTenantIsFence(db, ctx, k);
    hide InTenant;
    match k.model
    case EndpointSecret => ReachedIsOwned(db, ctx, Key(Endpoint, db[k][EndpointId].id));
    case EventOutbox => ReachedIsOwned(db, ctx, Key(Event, db[k][EventId].id));
    case DeliveryAttempt => ReachedIsOwned(db, ctx, Key(Delivery, db[k][DeliveryId].id));
    case _ =>
  }

  // ---- What a context of another organization sees ----

  /** Two databases hold the same rows for one organization. */
  ghost predicate Agree(a: DB, b: DB, org: Id) {
    forall k | Owner(a, k) == Some(org) || Owner(b, k) == Some(org) :: k in a && k in b && a[k] == b[k]
  }

  function VisibleRows(db: DB, ctx: Context): (rows: map<Key, Row>) {
    map k | k in db && InTenant(db, ctx, k) :: db[k]
  }

  lemma StaysGrounded(a: DB, b: DB, ctx: Context)
    requires Grounded(a, ctx) && Agree(a, b, ctx.org)
    ensures Grounded(b, ctx)
  {
    if ctx.project.Some? {
      assert Owner(a, Key(Project, ctx.project.value)) == Some(ctx.org);
    }
  }

  lemma {:induction false} Transfers(a: DB, b: DB, ctx: Context, k: Key)
    requires Grounded(a, ctx) && Agree(a, b, ctx.org) && InTenant(a, ctx, k)
    ensures InTenant(b, ctx, k) && b[k] == a[k]
    decreases Level(k.model), 0
  {
    ReachedIsOwned(a, ctx, k);
    InTenantIsFence(a, ctx, k);
    InTenantIsFence(b, ctx, k);
    hide InTenant, Grounded;
    var row := a[k];
    match k.model
    case EndpointSecret => Transfers(a, b, ctx, Key(Endpoint, row[EndpointId].id));
    case EventOutbox => Transfers(a, b, ctx, Key(Event, row[EventId].id));
    case DeliveryAttempt => Transfers(a, b, ctx, Key(Delivery, row[DeliveryId].id));
    case Delivery => Transfers(a, b, ctx, Key(Endpoint, row[EndpointId].id));
    case Endpoint =>
      if ctx.project.None? { assert Owner(a, Key(Project, row[ProjectId].id)) == Some(ctx.org); }
    case _ =>
  }

  /** Agreement on an organization's rows is all its contexts can observe. */
  lemma AgreeingViewsAreEqual(a: DB, b: DB, ctx: Context)
    requires Grounded(a, ctx) && Agree(a, b, ctx.org)
    ensures VisibleRows(a, ctx) == VisibleRows(b, ctx)
  {
    StaysGrounded(a, b, ctx);
    forall k | k in a && InTenant(a, ctx, k) ensures k in b && InTenant(b, ctx, k) && a[k] == b[k] {
      Transfers(a, b, ctx, k);
    }
    forall k | k in b && InTenant(b, ctx, k) ensures k in a && InTenant(a, ctx, k) && a[k] == b[k] {
      Transfers(b, a, ctx, k);
    }
  }

  // ---- Writes land inside the tenant ----

  lemma {:induction false} NoKeyErrorMeansOwned(db: DB, ctx: Context, m: Model, cols: seq<Column>, payload: Row)
    requires forall i | 0 <= i < |cols| :: ForeignKey(m, cols[i]).Some?
    ensures KeyError(db, ctx, m, cols, payload).None?
            <==> forall i | 0 <= i < |cols| && cols[i] in payload :: KeyOwned(db, ctx, m, cols[i], payload[cols[i]])
  {
    hide InTenant;
    if cols != [] {
      NoKeyErrorMeansOwned(db, ctx, m, cols[1..], payload);
      assert forall i | 0 <= i < |cols| :: i == 0 || cols[i] == cols[1..][i - 1];
    }
  }

  lemma KeysAreOwned(db: DB, ctx: Context, m: Model, payload: Row)
    ensures KeyError(db, ctx, m, ForeignKeys(m), payload).None? <==> KeysOwned(db, ctx, m, payload)
  {
    hide InTenant;
    NoKeyErrorMeansOwned(db, ctx, m, ForeignKeys(m), payload);
    var cols := ForeignKeys(m);
    forall c | c in payload && ForeignKey(m, c).Some? ensures exists i :: 0 <= i < |cols| && cols[i] == c {
      assert c in cols;
    }
  }

  /** An update the guards let through, applied to rows of one table inside the tenant. */
  ghost predicate GuardedUpdate(db: DB, ctx: Context, m: Model, keys: set<Key>, payload: Row) {
    && Grounded(db, ctx)
    && (forall k | k in keys :: k.model == m && InTenant(db, ctx, k))
    && (forall c | c in payload :: Writable(m, OnUpdate, c))
    && KeysOwned(db, ctx, m, payload)
    && NullsAllowed(m, Stored(payload))
  }

  lemma UpdatedRow(db: DB, ctx: Context, m: Model, keys: set<Key>, payload: Row, k: Key)
    requires GuardedUpdate(db, ctx, m, keys, payload) && k in db
    ensures var row := Updated(db, keys, payload)[k];
            && (k.model != m || k !in keys ==> row == db[k])
            && (forall c | c !in payload :: c in row <==> c in db[k])
            && (forall c | c !in payload && c in row :: row[c] == db[k][c])
            && (forall c | c in payload && k in keys :: c in row && row[c] == Unwrap(payload[c]))
            && OrganizationId !in payload && ProjectId !in payload
  {
    hide InTenant;
  }

  lemma {:induction false} UpdateStaysInside(db: DB, ctx: Context, m: Model, keys: set<Key>, payload: Row, k: Key)
    requires GuardedUpdate(db, ctx, m, keys, payload) && InTenant(db, ctx, k)
    ensures InTenant(Updated(db, keys, payload), ctx, k)
    decreases Level(k.model), 0
  {
    var after := Updated(db, keys, payload);
    InTenantIsFence(db, ctx, k);
    InTenantIsFence(after, ctx, k);
    UpdatedRow(db, ctx, m, keys, payload, k);
    match k.model
    case Endpoint =>
      if ctx.project.None? {
        UpdatedRow(db, ctx, m, keys, payload, Key(Project, db[k][ProjectId].id));
      }
    case EndpointSecret => ParentStaysInside(db, ctx, m, keys, payload, k, EndpointId, Endpoint);
    case EventOutbox => ParentStaysInside(db, ctx, m, keys, payload, k, EventId, Event);
    case DeliveryAttempt => ParentStaysInside(db, ctx, m, keys, payload, k, DeliveryId, Delivery);
    case Delivery => ParentStaysInside(db, ctx, m, keys, payload, k, EndpointId, Endpoint);
    case _ =>
  }

  lemma {:induction false} ParentStaysInside(
    db: DB, ctx: Context, m: Model, keys: set<Key>, payload: Row, k: Key, c: Column, parent: Model)
    requires GuardedUpdate(db, ctx, m, keys, payload) && k in db
    requires ParentInTenant(db, ctx, db[k], c, parent)
    requires IsColumn(k.model, c) && ForeignKey(k.model, c) == Some(parent) && c != ReplayOfDeliveryId
    requires parent == Endpoint || parent == Event || (parent == Delivery && k.model == DeliveryAttempt)
    ensures ParentInTenant(Updated(db, keys, payload), ctx, Updated(db, keys, payload)[k], c, parent)
    decreases Level(parent), 1
  {
    UpdatedRow(db, ctx, m, keys, payload, k);
    var row := Updated(db, keys, payload)[k];
    hide InTenant, Updated, Grounded;
    if c in payload && k in keys {
      assert KeyOwned(db, ctx, m, c, payload[c]);
      assert Stored(payload)[c] == Unwrap(payload[c]);
      UpdateStaysInside(db, ctx, m, keys, payload, Key(parent, Unwrap(payload[c]).id));
    } else {
      UpdateStaysInside(db, ctx, m, keys, payload, Key(parent, db[k][c].id));
    }
  }

  lemma UpdateStaysGrounded(db: DB, ctx: Context, m: Model, keys: set<Key>, payload: Row)
    requires GuardedUpdate(db, ctx, m, keys, payload)
    ensures Grounded(Updated(db, keys, payload), ctx)
  {
    if ctx.project.Some? {
      UpdatedRow(db, ctx, m, keys, payload, Key(Project, ctx.project.value));
    }
  }

  /** Adding a row takes nothing out of a tenant. */
  lemma {:induction false} GrowthStaysInside(db: DB, after: DB, ctx: Context, k: Key)
    requires forall j | j in db :: j in after && after[j] == db[j]
    requires InTenant(db, ctx, k)
    ensures InTenant(after, ctx, k)
    decreases Level(k.model)
  {
    InTenantIsFence(db, ctx, k);
    InTenantIsFence(after, ctx, k);
    hide InTenant;
    var row := db[k];
    match k.model
    case EndpointSecret => GrowthStaysInside(db, after, ctx, Key(Endpoint, row[EndpointId].id));
    case EventOutbox => GrowthStaysInside(db, after, ctx, Key(Event, row[EventId].id));
    case DeliveryAttempt => GrowthStaysInside(db, after, ctx, Key(Delivery, row[DeliveryId].id));
    case Delivery => GrowthStaysInside(db, after, ctx, Key(Endpoint, row[EndpointId].id));
    case _ =>
  }

  /** The row a successful create inserts. */
  ghost predicate GuardedCreate(db: DB, ctx: Context, m: Model, payload: Row, row: Row) {
    && (forall c | c in payload :: Writable(m, OnCreate, c))
    && KeysOwned(db, ctx, m, payload)
    && NullsAllowed(m, row) && RequiredPresent(m, row)
    && TenantColumns(KindOf(m), ctx).Ok?
    && var stamp := TenantColumns(KindOf(m), ctx).value;
       && m != Organization
       && row == CreatedRow(payload, stamp)
  }

  lemma CreatedForeignKey(db: DB, ctx: Context, m: Model, payload: Row, row: Row, c: Column, parent: Model)
    requires GuardedCreate(db, ctx, m, payload, row)
    requires c in row && ForeignKey(m, c) == Some(parent) && c != ReplayOfDeliveryId
    ensures ParentInTenant(db, ctx, row, c, parent)
  {
    hide InTenant;
    assert c in payload && row[c] == Unwrap(payload[c]);
    assert KeyOwned(db, ctx, m, c, payload[c]);
  }

  lemma CreateStaysInside(db: DB, ctx: Context, m: Model, payload: Row, row: Row, id: Id)
    requires GuardedCreate(db, ctx, m, payload, row) && Key(m, id) !in db
    ensures InTenant(db[Key(m, id) := row], ctx, Key(m, id))
  {
    var after := db[Key(m, id) := row];
    InTenantIsFence(after, ctx, Key(m, id));
    hide InTenant;
    match m
    case EndpointSecret =>
      CreatedForeignKey(db, ctx, m, payload, row, EndpointId, Endpoint);
      GrowthStaysInside(db, after, ctx, Key(Endpoint, row[EndpointId].id));
    case EventOutbox =>
      CreatedForeignKey(db, ctx, m, payload, row, EventId, Event);
      GrowthStaysInside(db, after, ctx, Key(Event, row[EventId].id));
    case DeliveryAttempt =>
      CreatedForeignKey(db, ctx, m, payload, row, DeliveryId, Delivery);
      GrowthStaysInside(db, after, ctx, Key(Delivery, row[DeliveryId].id));
    case Delivery =>
      CreatedForeignKey(db, ctx, m, payload, row, EndpointId, Endpoint);
      GrowthStaysInside(db, after, ctx, Key(Endpoint, row[EndpointId].id));
    case _ =>
  }

  // ---- One call ----

  /** Where a call's effect is: rows inside the caller's tenant before, and inside it after. */
  ghost predicate Inside(db: DB, after: DB, ctx: Context) {
    forall k | k in db || k in after :: (k in db && k in after && db[k] == after[k])
      || ((k in db ==> InTenant(db, ctx, k)) && (k in after ==> InTenant(after, ctx, k)))
  }

  lemma InsideMeansAgree(db: DB, after: DB, ctx: Context, other: Id)
    requires Grounded(db, ctx) && Inside(db, after, ctx) && other != ctx.org
    requires Grounded(after, ctx) || forall k | k in after :: k in db && after[k] == db[k]
    ensures Agree(db, after, other)
  {
    forall k | Owner(db, k) == Some(other) || Owner(after, k) == Some(other)
      ensures k in db && k in after && db[k] == after[k]
    {
      if !(k in db && k in after && db[k] == after[k]) {
        if k in db { ReachedIsOwned(db, ctx, k); }
        if k in after { ReachedIsOwned(after, ctx, k); }
      }
    }
  }

  /** Every declared foreign key in a payload names a row inside the tenant. */
  ghost predicate KeysInside(db: DB, ctx: Context, m: Model, data: Row) {
    forall c | c in data && ForeignKey(m, c).Some? && Unwrap(data[c]).Text? ::
      InTenant(db, ctx, Key(ForeignKey(m, c).value, Unwrap(data[c]).id))
  }

  function PayloadOf(call: Call): Row {
    if call.Create? || call.UpdateById? || call.UpdateMany? then call.data else map[]
  }

  lemma CreateIsGuarded(db: DB, ctx: Context, m: Model, data: Row)
    requires DoCreate(db, ctx, m, data).Ok?
    ensures var clean := Sanitized(m, OnCreate, data);
            && clean.Ok? && TenantColumns(KindOf(m), ctx).Ok?
            && var row := CreatedRow(clean.value, TenantColumns(KindOf(m), ctx).value);
               && GuardedCreate(db, ctx, m, clean.value, row)
               && PrimaryKey in row && row[PrimaryKey].Text? && Key(m, row[PrimaryKey].id) !in db
               && DoCreate(db, ctx, m, data).value == db[Key(m, row[PrimaryKey].id) := row]
  {
    hide InTenant, CreatedRow;
    KeysAreOwned(db, ctx, m, Sanitized(m, OnCreate, data).value);
    hide KeyError;
  }

  lemma CreateInside(db: DB, ctx: Context, m: Model, data: Row)
    requires Grounded(db, ctx) && DoCreate(db, ctx, m, data).Ok?
    ensures var after := DoCreate(db, ctx, m, data).value;
            Inside(db, after, ctx) && Grounded(after, ctx) && KeysInside(after, ctx, m, data)
  {
    CreateIsGuarded(db, ctx, m, data);
    hide InTenant, DoCreate, CreatedRow;
    var clean := Sanitized(m, OnCreate, data).value;
    var row := CreatedRow(clean, TenantColumns(KindOf(m), ctx).value);
    CreateStaysInside(db, ctx, m, clean, row, row[PrimaryKey].id);
    var after := db[Key(m, row[PrimaryKey].id) := row];
    CleanKeysInside(db, ctx, m, data);
    hide GuardedCreate, Sanitized;
    forall k | InTenant(db, ctx, k) ensures InTenant(after, ctx, k) { GrowthStaysInside(db, after, ctx, k); }
  }

  /** The keys of a payload survive its clean-up, so those of the clean one being owned is enough. */
  lemma CleanKeysInside(db: DB, ctx: Context, m: Model, data: Row)
    requires Sanitized(m, OnCreate, data).Ok? && KeysOwned(db, ctx, m, Sanitized(m, OnCreate, data).value)
    ensures KeysInside(db, ctx, m, data)
  {
    hide InTenant;
    var clean := Sanitized(m, OnCreate, data).value;
    forall c | c in data && ForeignKey(m, c).Some? && Unwrap(data[c]).Text?
      ensures InTenant(db, ctx, Key(ForeignKey(m, c).value, Unwrap(data[c]).id))
    {
      assert c in clean && KeyOwned(db, ctx, m, c, clean[c]);
    }
  }

  lemma UpdateIsGuarded(db: DB, ctx: Context, m: Model, f: Filter, data: Row)
    requires Grounded(db, ctx) && DoUpdate(db, ctx, m, f, data).Ok?
    ensures Sanitized(m, OnUpdate, data).Ok?
    ensures var clean := Sanitized(m, OnUpdate, data).value;
            && GuardedUpdate(db, ctx, m, Matched(db, ctx, m, f), clean)
            && DoUpdate(db, ctx, m, f, data).value == Updated(db, Matched(db, ctx, m, f), clean)
            && KeysInside(db, ctx, m, data)
  {
    var clean := Sanitized(m, OnUpdate, data).value;
    KeysAreOwned(db, ctx, m, clean);
    hide InTenant, KeyError, Holds;
    forall c | c in data && ForeignKey(m, c).Some? && Unwrap(data[c]).Text?
      ensures InTenant(db, ctx, Key(ForeignKey(m, c).value, Unwrap(data[c]).id))
    {
      assert c in clean && KeyOwned(db, ctx, m, c, clean[c]);
    }
  }

  lemma UpdateInside(db: DB, ctx: Context, m: Model, f: Filter, data: Row)
    requires Grounded(db, ctx) && DoUpdate(db, ctx, m, f, data).Ok?
    ensures var after := DoUpdate(db, ctx, m, f, data).value;
            Inside(db, after, ctx) && Grounded(after, ctx) && KeysInside(after, ctx, m, data)
  {
    hide InTenant, Sanitized, DoUpdate, GuardedUpdate, Grounded, Holds;
    UpdateIsGuarded(db, ctx, m, f, data);
    var clean, keys := Sanitized(m, OnUpdate, data).value, Matched(db, ctx, m, f);
    var after := Updated(db, keys, clean);
    UpdateStaysGrounded(db, ctx, m, keys, clean);
    forall k | InTenant(db, ctx, k) ensures InTenant(after, ctx, k) {
      UpdateStaysInside(db, ctx, m, keys, clean, k);
    }
  }

  /** Every row a call writes was inside the caller's tenant and still is; every declared foreign key
      it writes points inside; and no other organization's rows differ. */
  lemma CallStaysInside(db: DB, ctx: Context, call: Call)
    requires Grounded(db, ctx) && Do(db, ctx, call).Ok?
    ensures var after := Do(db, ctx, call).value;
            && Inside(db, after, ctx)
            && KeysInside(after, ctx, call.model, PayloadOf(call))
            && forall other: Id | other != ctx.org :: Agree(db, after, other)
  {
    hide InTenant, Holds, DoCreate, DoUpdate;
    var after := Do(db, ctx, call).value;
    match call {
      case Create(m, data) => CreateInside(db, ctx, m, data);
      case UpdateById(m, id, data) => UpdateInside(db, ctx, m, ById(id), data);
      case UpdateMany(m, f, data) => UpdateInside(db, ctx, m, f, data);
      case DeleteById(m, id) =>
      case DeleteMany(m, f) =>
    }
    forall other: Id | other != ctx.org ensures Agree(db, after, other) {
      InsideMeansAgree(db, after, ctx, other);
    }
  }

  /** An update, with any filter, is not seen by a context of another organization. */
  lemma UpdateIsUnseen(db: DB, ctx: Context, m: Model, f: Filter, data: Row, other: Context)
    requires Grounded(db, ctx) && Grounded(db, other) && other.org != ctx.org && DoUpdate(db, ctx, m, f, data).Ok?
    ensures VisibleRows(DoUpdate(db, ctx, m, f, data).value, other) == VisibleRows(db, other)
  {
    hide DoUpdate, Inside, Grounded, VisibleRows, Agree;
    UpdateInside(db, ctx, m, f, data);
    InsideMeansAgree(db, DoUpdate(db, ctx, m, f, data).value, ctx, other.org);
    AgreeingViewsAreEqual(db, DoUpdate(db, ctx, m, f, data).value, other);
  }

  lemma CallIsUnseen(db: DB, ctx: Context, call: Call, other: Context)
    requires Grounded(db, ctx) && Grounded(db, other) && other.org != ctx.org && Do(db, ctx, call).Ok?
    ensures VisibleRows(Do(db, ctx, call).value, other) == VisibleRows(db, other)
  {
    hide Do, Inside, KeysInside, Grounded, VisibleRows, Agree;
    CallStaysInside(db, ctx, call);
    AgreeingViewsAreEqual(db, Do(db, ctx, call).value, other);
  }

  // ---- Any sequence of calls ----

  datatype Scoped = Scoped(ctx: Context, call: Call)

  /** Requests of one organization, one after another; a context the resolver would not build, and a
      call that fails, change nothing. */
  function RunCalls(db: DB, org: Id, calls: seq<Scoped>): (after: DB)
    decreases |calls|
  {
    if calls == [] then db
    else
      var s := calls[0];
      var next := if s.ctx.org == org && Grounded(db, s.ctx) && Do(db, s.ctx, s.call).Ok?
                  then Do(db, s.ctx, s.call).value else db;
      RunCalls(next, org, calls[1..])
  }

  /** Whatever one organization's requests do, a context of another sees exactly the rows it saw. */
  lemma {:induction false} NonInterference(db: DB, org: Id, calls: seq<Scoped>, other: Context)
    requires other.org != org && Grounded(db, other)
    ensures VisibleRows(RunCalls(db, org, calls), other) == VisibleRows(db, other)
    ensures Grounded(RunCalls(db, org, calls), other)
    decreases |calls|
  {
    if calls != [] {
      var s := calls[0];
      hide Do, VisibleRows, InTenant, Agree, Grounded;
      if s.ctx.org == org && Grounded(db, s.ctx) && Do(db, s.ctx, s.call).Ok? {
        var next := Do(db, s.ctx, s.call).value;
        CallStaysInside(db, s.ctx, s.call);
        StaysGrounded(db, next, other);
        AgreeingViewsAreEqual(db, next, other);
        NonInterference(next, org, calls[1..], other);
      } else {
        NonInterference(db, org, calls[1..], other);
      }
    }
  }

  /** A read with any filter returns exactly the rows of its table inside the fence that satisfy it, and
      all of them belong to the caller's organization. */
  lemma ReadsStayInside(db: DB, ctx: Context, m: Model, f: Filter, k: Key)
    requires Grounded(db, ctx)
    ensures k in Matched(db, ctx, m, f) <==> k in db && k.model == m && Fence(db, ctx, k) && Holds(f, db, k, db[k])
    ensures k in Matched(db, ctx, m, f) ==> Owner(db, k) == Some(ctx.org) && k in VisibleRows(db, ctx)
  {
    if k in db { InTenantIsFence(db, ctx, k); }
    hide InTenant, Holds, Fence;
    if k in Matched(db, ctx, m, f) { ReachedIsOwned(db, ctx, k); }
  }

  /** A filter whose answer on a row of the organization depends on nothing but the organization's rows. */
  ghost predicate Insular(f: Filter, org: Id) {
    forall a: DB, b: DB, k: Key | Agree(a, b, org) && Owner(a, k) == Some(org) ::
      Holds(f, a, k, a[k]) <==> Holds(f, b, k, b[k])
  }

  /** Such a read tells its caller nothing about anybody else: it selects the same rows, with the same
      contents, in any two databases that hold the same rows for the caller's organization. */
  lemma ReadsRevealNothing(a: DB, b: DB, ctx: Context, m: Model, f: Filter)
    requires Grounded(a, ctx) && Agree(a, b, ctx.org) && Insular(f, ctx.org)
    ensures Matched(a, ctx, m, f) == Matched(b, ctx, m, f)
    ensures forall k | k in Matched(a, ctx, m, f) :: a[k] == b[k]
  {
    StaysGrounded(a, b, ctx);
    AgreeIsMutual(a, b, ctx.org);
    hide Agree, Grounded, Insular, Matched;
    forall k | k in Matched(a, ctx, m, f) ensures k in Matched(b, ctx, m, f) && k in a && k in b && a[k] == b[k] {
      MatchedAlike(a, b, ctx, m, f, k);
    }
    forall k | k in Matched(b, ctx, m, f) ensures k in Matched(a, ctx, m, f) { MatchedAlike(b, a, ctx, m, f, k); }
  }

  lemma AgreeIsMutual(a: DB, b: DB, org: Id)
    requires Agree(a, b, org)
    ensures Agree(b, a, org)
  {
  }

  lemma MatchedAlike(a: DB, b: DB, ctx: Context, m: Model, f: Filter, k: Key)
    requires Grounded(a, ctx) && Agree(a, b, ctx.org) && Insular(f, ctx.org) && k in Matched(a, ctx, m, f)
    ensures k in Matched(b, ctx, m, f) && k in a && k in b && a[k] == b[k]
  {
    hide InTenant, Holds, Grounded;
    ReachedIsOwned(a, ctx, k);
    Transfers(a, b, ctx, k);
  }

  /** A filter the bulk guard calls empty gives every row the same answer: it selects nothing in particular. */
  lemma {:induction false} EmptyFilterConstrainsNothing(f: Filter, db: DB, k: Key, l: Key)
    requires IsEmpty(f) && k in db && l in db
    ensures Holds(f, db, k, db[k]) <==> Holds(f, db, l, db[l])
    decreases f
  {
    match f
    case Absent =>
    case Not(g) => EmptyFilterConstrainsNothing(g, db, k, l);
    case And(fs) =>
      forall i | 0 <= i < |fs| ensures Holds(fs[i], db, k, db[k]) <==> Holds(fs[i], db, l, db[l]) {
        EmptyFilterConstrainsNothing(fs[i], db, k, l);
      }
    case Or(fs) =>
      forall i | 0 <= i < |fs| ensures Holds(fs[i], db, k, db[k]) <==> Holds(fs[i], db, l, db[l]) {
        EmptyFilterConstrainsNothing(fs[i], db, k, l);
      }
  }
}
