/** Tenant-scoped access: which rows a request context reaches, and what it may write
    (apps/control-api/src/authz/tenant-scope.ts). */
module Tenancy {
  import opened Domain

  type Id = nat

  /** Eight tables, one for each way a table is tied to a tenant. */
  datatype Model =
    | Organization | Project | Endpoint | EndpointSecret | Event | EventOutbox | Delivery | DeliveryAttempt

  datatype Kind =
    | ByOrganization | OrganizationSelf | ByProject | ProjectAndOrganization
    | ViaEndpoint | ViaEvent | DeliveryChain | ViaDelivery

  function KindOf(m: Model): Kind {
    match m
    case Organization => OrganizationSelf
    case Project => ByOrganization
    case Endpoint => ByProject
    case EndpointSecret => ViaEndpoint
    case Event => ProjectAndOrganization
    case EventOutbox => ViaEvent
    case Delivery => DeliveryChain
    case DeliveryAttempt => ViaDelivery
  }

  datatype Column =
    | PrimaryKey | OrganizationId | ProjectId | EndpointId | EventId | DeliveryId | ReplayOfDeliveryId
    | Scalar(n: nat) | RelationField(n: nat) | Unknown(n: nat)

  /** A value of a payload or a cell. `Wrapped` is Prisma's `{ set: value }`. */
  datatype Value = Undefined | Null | Text(id: Id) | EmptyText | Other(n: int) | Wrapped(set_: Value)

  type Row = map<Column, Value>
  datatype Key = Key(model: Model, id: Id)
  type DB = map<Key, Row>

  /** A context the resolver built: the project, if any, belongs to the organization. */
  datatype Context = Context(org: Id, project: Option<Id>)

  predicate Refers(row: Row, col: Column, id: Id) { col in row && row[col] == Text(id) }

  /** `loadProject` refuses a project that is absent or belongs to another organization. */
  predicate Grounded(db: DB, ctx: Context) {
    ctx.project.Some? ==>
      Key(Project, ctx.project.value) in db
      && Refers(db[Key(Project, ctx.project.value)], OrganizationId, ctx.org)
  }

  // ---- Predicates ----

  datatype Relation = ToProject | ToEndpoint | ToEvent | ToDelivery

  function TargetOf(r: Relation): (Column, Model) {
    match r
    case ToProject => (ProjectId, Project)
    case ToEndpoint => (EndpointId, Endpoint)
    case ToEvent => (EventId, Event)
    case ToDelivery => (DeliveryId, Delivery)
  }

  datatype Where =
    | HasId(id: Id)
    | ColumnIs(col: Column, id: Id)
    | Related(rel: Relation, where: Where)
    | Both(left: Where, right: Where)

  predicate Eval(db: DB, key: Key, row: Row, w: Where)
    decreases w
  {
    match w
    case HasId(id) => key.id == id
    case ColumnIs(col, id) => Refers(row, col, id)
    case Both(a, b) => Eval(db, key, row, a) && Eval(db, key, row, b)
    case Related(rel, inner) =>
      var (col, model) := TargetOf(rel);
      col in row && row[col].Text?
      && var parent := Key(model, row[col].id);
         parent in db && Eval(db, parent, db[parent], inner)
  }

  function TenantPredicate(kind: Kind, ctx: Context): (w: Where) {
    match kind
    case ByOrganization => ColumnIs(OrganizationId, ctx.org)
    case OrganizationSelf => HasId(ctx.org)
    case ByProject =>
      if ctx.project.Some? then ColumnIs(ProjectId, ctx.project.value)
      else Related(ToProject, ColumnIs(OrganizationId, ctx.org))
    case ProjectAndOrganization => OrgAndProject(ctx)
    case ViaEndpoint =>
      Related(ToEndpoint, if ctx.project.Some? then ColumnIs(ProjectId, ctx.project.value)
                          else Related(ToProject, ColumnIs(OrganizationId, ctx.org)))
    case ViaEvent => Related(ToEvent, OrgAndProject(ctx))
    case DeliveryChain => DeliveryPredicate(ctx)
    case ViaDelivery => Related(ToDelivery, DeliveryPredicate(ctx))
  }

  function OrgAndProject(ctx: Context): Where {
    if ctx.project.Some? then Both(ColumnIs(OrganizationId, ctx.org), ColumnIs(ProjectId, ctx.project.value))
    else ColumnIs(OrganizationId, ctx.org)
  }

  /** The ownership chain first, the denormalised columns as an extra conjunct. */
  function DeliveryPredicate(ctx: Context): Where {
    Both(Related(ToEndpoint, if ctx.project.Some? then ColumnIs(ProjectId, ctx.project.value)
                             else Related(ToProject, ColumnIs(OrganizationId, ctx.org))),
         OrgAndProject(ctx))
  }

  /** A row this context reaches: the fence that `where` puts around every statement. */
  predicate InTenant(db: DB, ctx: Context, key: Key) {
    key in db && Eval(db, key, db[key], TenantPredicate(KindOf(key.model), ctx))
  }

  /** A caller's filter: any condition on rows, under any combination. */
  datatype Filter =
    | Absent
    | Leaf(holds: (DB, Key, Row) -> bool)
    | And(all: seq<Filter>)
    | Or(any: seq<Filter>)
    | Not(inner: Filter)

  predicate Holds(f: Filter, db: DB, key: Key, row: Row) {
    match f
    case Absent => true
    case Leaf(p) => p(db, key, row)
    case And(fs) => forall i | 0 <= i < |fs| :: Holds(fs[i], db, key, row)
    case Or(fs) => exists i | 0 <= i < |fs| :: Holds(fs[i], db, key, row)
    case Not(g) => !Holds(g, db, key, row)
  }

  /** `isEmptyPredicate`: no condition at any depth. */
  predicate IsEmpty(f: Filter) {
    match f
    case Absent => true
    case Leaf(_) => false
    case And(fs) => forall i | 0 <= i < |fs| :: IsEmpty(fs[i])
    case Or(fs) => forall i | 0 <= i < |fs| :: IsEmpty(fs[i])
    case Not(g) => IsEmpty(g)
  }

  /** The rows of one table that a scoped statement with this filter touches. */
  function Matched(db: DB, ctx: Context, model: Model, f: Filter): (keys: set<Key>) {
    set k | k in db && k.model == model && InTenant(db, ctx, k) && Holds(f, db, k, db[k])
  }

  // ---- Write guards ----

  datatype Operation = OnCreate | OnUpdate

  /** Column names of a table, as the generated data model lists them. */
  predicate IsColumn(m: Model, c: Column) {
    match c
    case PrimaryKey => true
    case Scalar(_) => true
    case OrganizationId => m == Project || m == Event || m == Delivery
    case ProjectId => m == Endpoint || m == Event || m == Delivery
    case EndpointId => m == EndpointSecret || m == Delivery
    case EventId => m == EventOutbox || m == Delivery
    case DeliveryId => m == DeliveryAttempt
    case ReplayOfDeliveryId => m == Delivery
    case RelationField(_) => false
    case Unknown(_) => false
  }

  predicate Writable(m: Model, op: Operation, c: Column) {
    && !c.RelationField?
    && IsColumn(m, c)
    && c != OrganizationId && c != ProjectId
    && !(op == OnUpdate && c == PrimaryKey)
  }

  /** The repository whose rows a declared foreign key must name. */
  function ForeignKey(m: Model, c: Column): Option<Model> {
    match c
    case EndpointId => if IsColumn(m, c) then Some(Endpoint) else None
    case EventId => if IsColumn(m, c) then Some(Event) else None
    case DeliveryId => if IsColumn(m, c) then Some(Delivery) else None
    case ReplayOfDeliveryId => if IsColumn(m, c) then Some(Delivery) else None
    case _ => None
  }

  /** Every foreign key here but the replay link is a NOT NULL column. */
  predicate Required(m: Model, c: Column) {
    ForeignKey(m, c).Some? && c != ReplayOfDeliveryId
  }

  /** One level of `{ set: value }` is unwrapped. */
  function Unwrap(v: Value): Value { if v.Wrapped? then v.set_ else v }

  predicate KeyOwned(db: DB, ctx: Context, m: Model, c: Column, v: Value) {
    var target := ForeignKey(m, c);
    target.None? || v == Null || (Unwrap(v).Text? && InTenant(db, ctx, Key(target.value, Unwrap(v).id)))
  }

  // ---- Statements ----

  datatype Call =
    | Create(model: Model, data: Row)
    | UpdateById(model: Model, id: Id, data: Row)
    | UpdateMany(model: Model, filter: Filter, data: Row)
    | DeleteById(model: Model, id: Id)
    | DeleteMany(model: Model, filter: Filter)

  /** `sanitize`: undefined entries vanish, and one forbidden entry refuses the payload. */
  function Sanitized(m: Model, op: Operation, data: Row): (r: Result<Row>) {
    if exists c | c in data :: data[c] != Undefined && !Writable(m, op, c) then Err(InvalidRequest)
    else Ok(map c | c in data && data[c] != Undefined :: data[c])
  }

  /** `tenantColumns`; `Err` is `requireProject` on a context without one. */
  function TenantColumns(k: Kind, ctx: Context): (r: Result<Option<Row>>) {
    match k
    case ByOrganization => Ok(Some(map[OrganizationId := Text(ctx.org)]))
    case ByProject =>
      if ctx.project.None? then Err(InternalError) else Ok(Some(map[ProjectId := Text(ctx.project.value)]))
    case ProjectAndOrganization => Stamp(ctx)
    case DeliveryChain => Stamp(ctx)
    case _ => Ok(None)
  }

  function Stamp(ctx: Context): (r: Result<Option<Row>>) {
    if ctx.project.None? then Err(InternalError)
    else Ok(Some(map[OrganizationId := Text(ctx.org), ProjectId := Text(ctx.project.value)]))
  }

  function ParentKey(k: Kind): Option<Column> {
    match k
    case ViaEndpoint => Some(EndpointId)
    case ViaEvent => Some(EventId)
    case ViaDelivery => Some(DeliveryId)
    case _ => None
  }

  /** The declared foreign keys of a table, in declaration order. */
  function ForeignKeys(m: Model): (cols: seq<Column>) {
    match m
    case EndpointSecret => [EndpointId]
    case EventOutbox => [EventId]
    case Delivery => [EventId, EndpointId, ReplayOfDeliveryId]
    case DeliveryAttempt => [DeliveryId]
    case _ => []
  }

  predicate KeysOwned(db: DB, ctx: Context, m: Model, payload: Row) {
    forall c | c in payload :: KeyOwned(db, ctx, m, c, payload[c])
  }

  /** `assertForeignKeysOwned`: the first offending key decides the error. */
  function KeyError(db: DB, ctx: Context, m: Model, cols: seq<Column>, payload: Row): (r: Option<Error>)
    requires forall i | 0 <= i < |cols| :: ForeignKey(m, cols[i]).Some?
  {
    if cols == [] then None
    else if cols[0] !in payload || payload[cols[0]] == Null then KeyError(db, ctx, m, cols[1..], payload)
    else
      var v := Unwrap(payload[cols[0]]);
      if !v.Text? then Some(InvalidRequest)
      else if !InTenant(db, ctx, Key(ForeignKey(m, cols[0]).value, v.id)) then Some(NotFound)
      else KeyError(db, ctx, m, cols[1..], payload)
  }

  function Stored(payload: Row): Row { map c | c in payload :: Unwrap(payload[c]) }

  /** The database refuses a null in a NOT NULL column. */
  predicate NullsAllowed(m: Model, row: Row) {
    forall c | c in row :: Required(m, c) ==> row[c].Text?
  }

  predicate RequiredPresent(m: Model, row: Row) {
    && (m == EndpointSecret || m == Delivery ==> EndpointId in row)
    && (m == EventOutbox || m == Delivery ==> EventId in row)
    && (m == DeliveryAttempt ==> DeliveryId in row)
  }

  /** `{ ...payload, ...columns }`: the repository's columns win. */
  function CreatedRow(payload: Row, columns: Option<Row>): (row: Row) {
    Stored(payload) + (if columns.Some? then columns.value else map[])
  }

  function DoCreate(db: DB, ctx: Context, m: Model, data: Row): (r: Result<DB>) {
    var columns := TenantColumns(KindOf(m), ctx);
    var parent := ParentKey(KindOf(m));
    if columns.Err? then Err(columns.error)
    else if columns.value.None? && parent.None? then Err(InternalError)
    else
      var clean := Sanitized(m, OnCreate, data);
      if clean.Err? then Err(clean.error)
      else if columns.value.None? && (parent.value !in clean.value || !clean.value[parent.value].Text?)
        then Err(InvalidRequest)
      else if KeyError(db, ctx, m, ForeignKeys(m), clean.value).Some?
        then Err(KeyError(db, ctx, m, ForeignKeys(m), clean.value).value)
      else
        var row := CreatedRow(clean.value, columns.value);
        if PrimaryKey !in row || !row[PrimaryKey].Text? || !NullsAllowed(m, row) || !RequiredPresent(m, row)
           || Key(m, row[PrimaryKey].id) in db
        then Err(DatabaseError)
        else Ok(db[Key(m, row[PrimaryKey].id) := row])
  }

  function Updated(db: DB, keys: set<Key>, payload: Row): (r: DB) {
    map k | k in db :: if k in keys then db[k] + Stored(payload) else db[k]
  }

  function DoUpdate(db: DB, ctx: Context, m: Model, f: Filter, data: Row): (r: Result<DB>) {
    var clean := Sanitized(m, OnUpdate, data);
    if clean.Err? then Err(clean.error)
    else if KeyError(db, ctx, m, ForeignKeys(m), clean.value).Some?
      then Err(KeyError(db, ctx, m, ForeignKeys(m), clean.value).value)
    else if !NullsAllowed(m, Stored(clean.value)) then Err(DatabaseError)
    else Ok(Updated(db, Matched(db, ctx, m, f), clean.value))
  }

  function ById(id: Id): Filter { Leaf((db: DB, key: Key, row: Row) => key.id == id) }

  /** One repository call: an error leaves the tables alone. */
  function Do(db: DB, ctx: Context, call: Call): (r: Result<DB>) {
    match call
    case Create(m, data) => DoCreate(db, ctx, m, data)
    case UpdateById(m, id, data) =>
      var r := DoUpdate(db, ctx, m, ById(id), data);
      if r.Ok? && Matched(db, ctx, m, ById(id)) == {} then Err(NotFound) else r
    case UpdateMany(m, f, data) => if IsEmpty(f) then Err(InternalError) else DoUpdate(db, ctx, m, f, data)
    case DeleteById(m, id) =>
      if Matched(db, ctx, m, ById(id)) == {} then Err(NotFound) else Ok(db - Matched(db, ctx, m, ById(id)))
    case DeleteMany(m, f) => if IsEmpty(f) then Err(InternalError) else Ok(db - Matched(db, ctx, m, f))
  }
}
