/** What each repository call does to the tables, row by row
    (apps/control-api/src/authz/tenant-scope.ts:366-405, 595-698). */
module TenancyCalls {
  import opened Domain
  import opened Tenancy
  import opened TenancyProofs

  // ---- Filters ----

  function Negated(fs: seq<Filter>): (r: seq<Filter>)
    ensures |r| == |fs| && forall i | 0 <= i < |fs| :: r[i] == Not(fs[i])
  {
    seq(|fs|, i requires 0 <= i < |fs| => Not(fs[i]))
  }

  /** Filters are boolean combinations: an absent one holds, `and` and `or` are each other's dual, and
      either of a single filter is that filter. */
  lemma FiltersAreBoolean(f: Filter, fs: seq<Filter>, db: DB, k: Key, row: Row)
    ensures Holds(Absent, db, k, row)
    ensures Holds(Not(f), db, k, row) <==> !Holds(f, db, k, row)
    ensures Holds(And([f]), db, k, row) <==> Holds(f, db, k, row)
    ensures Holds(Not(And(fs)), db, k, row) <==> Holds(Or(Negated(fs)), db, k, row)
    ensures forall i | 0 <= i < |fs| && Holds(And(fs), db, k, row) :: Holds(fs[i], db, k, row)
  {
    assert [f][0] == f;
    assert forall i | 0 <= i < |fs| :: Holds(Negated(fs)[i], db, k, row) <==> !Holds(fs[i], db, k, row);
  }

  /** How many conditions a filter holds, at any depth. */
  ghost function Conditions(f: Filter): nat
    decreases f, 0
  {
    match f
    case Absent => 0
    case Leaf(_) => 1
    case And(fs) => Total(f, fs)
    case Or(fs) => Total(f, fs)
    case Not(g) => Conditions(g)
  }

  ghost function Total(f: Filter, fs: seq<Filter>): nat
    requires forall i | 0 <= i < |fs| :: fs[i] < f
    decreases f, 0, fs
  {
    if fs == [] then 0
    else
      assert forall i | 0 <= i < |fs| - 1 :: fs[..|fs| - 1][i] == fs[i];
      Total(f, fs[..|fs| - 1]) + Conditions(fs[|fs| - 1])
  }

  /** The guard calls a filter empty exactly when it holds no condition at any depth. */
  lemma {:induction false} EmptyIffNoCondition(f: Filter)
    ensures IsEmpty(f) <==> Conditions(f) == 0
    decreases f
  {
    match f
    case Absent =>
    case Leaf(_) =>
    case Not(g) => EmptyIffNoCondition(g);
    case And(fs) => TotalIsZero(f, fs);
    case Or(fs) => TotalIsZero(f, fs);
  }

  lemma {:induction false} TotalIsZero(f: Filter, fs: seq<Filter>)
    requires forall i | 0 <= i < |fs| :: fs[i] < f
    ensures Total(f, fs) == 0 <==> forall i | 0 <= i < |fs| :: IsEmpty(fs[i])
    decreases f, fs
  {
    if fs != [] {
      var n := |fs| - 1;
      assert forall i | 0 <= i < n :: fs[..n][i] == fs[i];
      TotalIsZero(f, fs[..n]);
      EmptyIffNoCondition(fs[n]);
    }
  }

  // ---- Deletes ----

  /** A row a statement on table `m` with this filter is about. */
  ghost predicate Selected(db: DB, ctx: Context, m: Model, f: Filter, k: Key) {
    k in db && k.model == m && Fence(db, ctx, k) && Holds(f, db, k, db[k])
  }

  /** A bulk delete takes exactly the rows of its table that are inside the fence and satisfy the filter,
      and a filter without a condition is refused. */
  lemma DeleteManyIs(db: DB, ctx: Context, m: Model, f: Filter, k: Key)
    ensures Do(db, ctx, DeleteMany(m, f)).Ok? <==> !IsEmpty(f)
    ensures !IsEmpty(f) ==>
              var after := Do(db, ctx, DeleteMany(m, f)).value;
              && (k in after <==> k in db && !Selected(db, ctx, m, f, k))
              && (k in after ==> after[k] == db[k])
  {
    if k in db { InTenantIsFence(db, ctx, k); }
    hide InTenant, Fence, Holds, IsEmpty;
  }

  /** A delete by id takes that row and no other, or is a 404 for a row outside the fence. */
  lemma DeleteByIdIs(db: DB, ctx: Context, m: Model, id: Id)
    ensures Do(db, ctx, DeleteById(m, id))
            == if Key(m, id) in db && Fence(db, ctx, Key(m, id)) then Ok(db - {Key(m, id)}) else Err(NotFound)
  {
    if Key(m, id) in db { InTenantIsFence(db, ctx, Key(m, id)); }
    hide InTenant, Fence;
    var matched := Matched(db, ctx, m, ById(id));
    assert forall k | k in matched :: k == Key(m, id);
    assert Key(m, id) in matched <==> Key(m, id) in db && InTenant(db, ctx, Key(m, id));
    assert matched == {} || matched == {Key(m, id)};
  }

  // ---- Updates ----

  /** What an update may carry: known columns other than the id and the tenancy, keys that name rows of
      the tenant, and no null where the database wants a value. */
  predicate Acceptable(db: DB, ctx: Context, m: Model, data: Row) {
    forall c | c in data && data[c] != Undefined :: ColumnAcceptable(db, ctx, m, c, data[c])
  }

  /** What a payload entry stores: the value, or the one inside a `{ set: value }`. */
  function Plain(v: Value): Value { match v { case Wrapped(inner) => inner case _ => v } }

  /** The row after an update: every defined entry of the payload, and the rest as it was. */
  ghost predicate Carries(row: Row, was: Row, data: Row) {
    && (forall c | c in data && data[c] != Undefined :: c in row && row[c] == Plain(data[c]))
    && (forall c | !(c in data && data[c] != Undefined) :: (c in row <==> c in was) && (c in row ==> row[c] == was[c]))
  }

  lemma CleanIs(m: Model, op: Operation, data: Row)
    ensures Sanitized(m, op, data).Ok? <==> forall c | c in data && data[c] != Undefined :: Writable(m, op, c)
    ensures Sanitized(m, op, data).Ok? ==>
              forall c :: (c in Sanitized(m, op, data).value <==> c in data && data[c] != Undefined)
                          && (c in Sanitized(m, op, data).value ==> Sanitized(m, op, data).value[c] == data[c])
    ensures Sanitized(m, op, data).Err? ==> Sanitized(m, op, data).error == InvalidRequest
  {
    hide Writable;
  }

  /** What an update may carry in one column. */
  predicate ColumnAcceptable(db: DB, ctx: Context, m: Model, c: Column, v: Value) {
    && IsColumn(m, c) && c != PrimaryKey && c != OrganizationId && c != ProjectId
    && (ForeignKey(m, c).Some? && v != Null ==>
          Unwrap(v).Text? && InTenant(db, ctx, Key(ForeignKey(m, c).value, Unwrap(v).id)))
    && (ForeignKey(m, c).Some? && c != ReplayOfDeliveryId ==> Unwrap(v).Text?)
  }

  lemma ColumnGuards(db: DB, ctx: Context, m: Model, c: Column, v: Value)
    ensures ColumnAcceptable(db, ctx, m, c, v)
            <==> Writable(m, OnUpdate, c) && KeyOwned(db, ctx, m, c, v) && (Required(m, c) ==> Unwrap(v).Text?)
  {
    hide InTenant;
  }

  lemma UpdateGuards(db: DB, ctx: Context, m: Model, f: Filter, data: Row)
    ensures var clean := Sanitized(m, OnUpdate, data);
            DoUpdate(db, ctx, m, f, data).Ok?
            <==> clean.Ok? && KeysOwned(db, ctx, m, clean.value) && NullsAllowed(m, Stored(clean.value))
  {
    var clean := Sanitized(m, OnUpdate, data);
    if clean.Ok? { KeysAreOwned(db, ctx, m, clean.value); }
    hide Sanitized, KeysOwned, NullsAllowed, KeyError, Matched;
  }

  lemma UpdateAcceptedIff(db: DB, ctx: Context, m: Model, f: Filter, data: Row)
    ensures DoUpdate(db, ctx, m, f, data).Ok? <==> Acceptable(db, ctx, m, data)
  {
    CleanIs(m, OnUpdate, data);
    UpdateGuards(db, ctx, m, f, data);
    var clean := Sanitized(m, OnUpdate, data);
    hide Sanitized, DoUpdate, KeyOwned, Required, Writable, ColumnAcceptable;
    if clean.Ok? { NullsAllowedIff(m, clean.value); }
    hide NullsAllowed;
    forall c | c in data && data[c] != Undefined
      ensures ColumnAcceptable(db, ctx, m, c, data[c])
              <==> Writable(m, OnUpdate, c) && KeyOwned(db, ctx, m, c, data[c])
                   && (Required(m, c) ==> Unwrap(data[c]).Text?)
    {
      ColumnGuards(db, ctx, m, c, data[c]);
    }
  }

  lemma NullsAllowedIff(m: Model, payload: Row)
    ensures NullsAllowed(m, Stored(payload)) <==> forall c | c in payload :: Required(m, c) ==> Unwrap(payload[c]).Text?
  {
    hide Required;
    var stored := Stored(payload);
    assert stored.Keys == payload.Keys;
    assert forall c | c in payload :: stored[c] == Unwrap(payload[c]);
  }

  /** An update of the rows that satisfy a filter: those inside the fence carry the payload, and every
      other row of the database is as it was. */
  lemma UpdateIs(db: DB, ctx: Context, m: Model, f: Filter, data: Row, k: Key)
    requires DoUpdate(db, ctx, m, f, data).Ok? && k in db
    ensures var after := DoUpdate(db, ctx, m, f, data).value;
            && after.Keys == db.Keys
            && (if Selected(db, ctx, m, f, k) then Carries(after[k], db[k], data) else after[k] == db[k])
  {
    InTenantIsFence(db, ctx, k);
    CleanIs(m, OnUpdate, data);
    hide InTenant, Fence, Holds, Sanitized, KeyError, NullsAllowed;
    var clean := Sanitized(m, OnUpdate, data).value;
    var keys := Matched(db, ctx, m, f);
    assert DoUpdate(db, ctx, m, f, data).value == Updated(db, keys, clean);
    assert k in keys <==> Selected(db, ctx, m, f, k);
    hide DoUpdate, Matched, Selected, Carries, Stored;
    StoredCarries(db[k], clean, data);
  }

  lemma StoredCarries(was: Row, clean: Row, data: Row)
    requires forall c :: (c in clean <==> c in data && data[c] != Undefined) && (c in clean ==> clean[c] == data[c])
    ensures Carries(was + Stored(clean), was, data)
  {
  }

  lemma UpdateManyIs(db: DB, ctx: Context, m: Model, f: Filter, data: Row, k: Key)
    requires k in db
    ensures Do(db, ctx, UpdateMany(m, f, data)).Ok? <==> !IsEmpty(f) && Acceptable(db, ctx, m, data)
    ensures Do(db, ctx, UpdateMany(m, f, data)).Ok? ==>
              var after := Do(db, ctx, UpdateMany(m, f, data)).value;
              && after.Keys == db.Keys
              && (if Selected(db, ctx, m, f, k) then Carries(after[k], db[k], data) else after[k] == db[k])
  {
    UpdateAcceptedIff(db, ctx, m, f, data);
    hide DoUpdate, Acceptable, Selected, Carries, IsEmpty;
    if DoUpdate(db, ctx, m, f, data).Ok? { UpdateIs(db, ctx, m, f, data, k); }
  }

  /** An update by id changes that row and no other; a row outside the fence is a 404. */
  lemma UpdateByIdIs(db: DB, ctx: Context, m: Model, id: Id, data: Row)
    ensures var key, r := Key(m, id), Do(db, ctx, UpdateById(m, id, data));
            && (r.Ok? <==> Acceptable(db, ctx, m, data) && key in db && Fence(db, ctx, key))
            && (Acceptable(db, ctx, m, data) && r.Err? ==> r.error == NotFound)
            && (r.Ok? ==> r.value.Keys == db.Keys && Carries(r.value[key], db[key], data)
                          && forall k | k in db && k != key :: r.value[k] == db[k])
  {
    var key, f := Key(m, id), ById(id);
    UpdateAcceptedIff(db, ctx, m, f, data);
    if key in db { InTenantIsFence(db, ctx, key); }
    var matched := Matched(db, ctx, m, f);
    assert matched == if key in db && InTenant(db, ctx, key) then {key} else {} by {
      assert forall k | k in matched :: k == key;
    }
    hide Acceptable, Fence, InTenant, Carries, DoUpdate;
    if DoUpdate(db, ctx, m, f, data).Ok? {
      forall k | k in db
        ensures var after := DoUpdate(db, ctx, m, f, data).value;
                && after.Keys == db.Keys
                && (if k == key && Fence(db, ctx, key) then Carries(after[k], db[k], data) else after[k] == db[k])
      {
        UpdateIs(db, ctx, m, f, data, k);
      }
      UpdateKeepsKeys(db, ctx, m, f, data);
    }
  }

  lemma UpdateKeepsKeys(db: DB, ctx: Context, m: Model, f: Filter, data: Row)
    requires DoUpdate(db, ctx, m, f, data).Ok?
    ensures DoUpdate(db, ctx, m, f, data).value.Keys == db.Keys
  {
    hide Matched, Sanitized, KeyError;
  }

  // ---- Creates ----

  /** The tenancy columns of a new row come from the context, never from the payload. */
  function TenancyOf(m: Model, ctx: Context): (r: Row) {
    match m
    case Project => map[OrganizationId := Text(ctx.org)]
    case Endpoint => if ctx.project.Some? then map[ProjectId := Text(ctx.project.value)] else map[]
    case Event => BothOf(ctx)
    case Delivery => BothOf(ctx)
    case _ => map[]
  }

  function BothOf(ctx: Context): Row {
    if ctx.project.Some? then map[OrganizationId := Text(ctx.org), ProjectId := Text(ctx.project.value)] else map[]
  }

  /** A create adds one row, under the id the payload gives: the payload's defined entries and the
      context's own tenancy columns, and nothing else in the database changes. */
  lemma CreateIs(db: DB, ctx: Context, m: Model, data: Row)
    requires Do(db, ctx, Create(m, data)).Ok?
    ensures PrimaryKey in data && Unwrap(data[PrimaryKey]).Text?
    ensures var key, after := Key(m, Unwrap(data[PrimaryKey]).id), Do(db, ctx, Create(m, data)).value;
            && key !in db && after.Keys == db.Keys + {key} && (forall k | k in db :: after[k] == db[k])
            && Carries(after[key], TenancyOf(m, ctx), data)
  {
    CreateIsGuarded(db, ctx, m, data);
    CleanIs(m, OnCreate, data);
    TenancyColumns(m, ctx);
    var clean, columns := Sanitized(m, OnCreate, data).value, TenantColumns(KindOf(m), ctx).value;
    assert OrganizationId !in clean && ProjectId !in clean by {
      assert !Writable(m, OnCreate, OrganizationId) && !Writable(m, OnCreate, ProjectId);
    }
    hide Sanitized, Do, DoCreate, InTenant, TenantColumns, GuardedCreate, CreatedRow, Carries, TenancyOf, Writable;
    CreatedCarries(m, ctx, data, clean, columns);
  }

  lemma TenancyColumns(m: Model, ctx: Context)
    requires TenantColumns(KindOf(m), ctx).Ok?
    ensures var columns := TenantColumns(KindOf(m), ctx).value;
            TenancyOf(m, ctx) == if columns.Some? then columns.value else map[]
    ensures PrimaryKey !in TenancyOf(m, ctx)
    ensures forall c | c in TenancyOf(m, ctx) :: c == OrganizationId || c == ProjectId
  {
  }

  lemma CreatedCarries(m: Model, ctx: Context, data: Row, clean: Row, columns: Option<Row>)
    requires TenancyOf(m, ctx) == if columns.Some? then columns.value else map[]
    requires forall c | c in TenancyOf(m, ctx) :: c == OrganizationId || c == ProjectId
    requires OrganizationId !in clean && ProjectId !in clean
    requires forall c :: (c in clean <==> c in data && data[c] != Undefined) && (c in clean ==> clean[c] == data[c])
    requires PrimaryKey in CreatedRow(clean, columns)
    ensures Carries(CreatedRow(clean, columns), TenancyOf(m, ctx), data)
    ensures PrimaryKey in data && CreatedRow(clean, columns)[PrimaryKey] == Unwrap(data[PrimaryKey])
  {
    hide TenancyOf;
  }
}
