/** The repository methods as statements against one store of tables
    (apps/control-api/src/authz/tenant-scope.ts:595-774). */
module TenantRepository {
  import opened Domain
  import opened Tenancy
  import opened TenancyProofs

  /** The loop of `sanitize` over the entries of `data`, which fills `clean`. */
  method Sanitize(m: Model, op: Operation, data: Row) returns (r: Result<Row>)
    ensures r == Sanitized(m, op, data)
  {
    var clean: Row := map[];
    var todo := data.Keys;
    while todo != {}
      invariant todo <= data.Keys
      invariant forall c | c in data && c !in todo && data[c] != Undefined :: Writable(m, op, c)
      invariant forall c :: c in clean <==> c in data && c !in todo && data[c] != Undefined
      invariant forall c | c in clean :: clean[c] == data[c]
      decreases todo
    {
      var key :| key in todo;
      todo := todo - {key};
      var value := data[key];
      if value == Undefined { continue; }
      if key.RelationField? { return Err(InvalidRequest); }
      if !IsColumn(m, key) { return Err(InvalidRequest); }
      if key == OrganizationId || key == ProjectId { return Err(InvalidRequest); }
      if op == OnUpdate && key == PrimaryKey { return Err(InvalidRequest); }
      clean := clean[key := value];
    }
    assert clean == map c | c in data && data[c] != Undefined :: data[c];
    return Ok(clean);
  }

  class Store {
    var db: DB

    constructor(db: DB)
      ensures this.db == db
    {
      this.db := db;
    }

    /** The loop of `assertForeignKeysOwned`. */
    method AssertForeignKeysOwned(ctx: Context, m: Model, payload: Row) returns (r: Option<Error>)
      ensures r == KeyError(db, ctx, m, ForeignKeys(m), payload)
      ensures r.None? <==> KeysOwned(db, ctx, m, payload)
    {
      KeysAreOwned(db, ctx, m, payload);
      var columns := ForeignKeys(m);
      for i := 0 to |columns|
        invariant KeyError(db, ctx, m, columns, payload) == KeyError(db, ctx, m, columns[i..], payload)
      {
        assert columns[i..][0] == columns[i] && columns[i..][1..] == columns[i + 1..];
        if columns[i] !in payload || payload[columns[i]] == Null { continue; }
        var value := Unwrap(payload[columns[i]]);
        if !value.Text? { return Some(InvalidRequest); }
        if !InTenant(db, ctx, Key(ForeignKey(m, columns[i]).value, value.id)) { return Some(NotFound); }
      }
      return None;
    }

    method CreateRow(ctx: Context, m: Model, data: Row) returns (r: Option<Error>)
      modifies this
      ensures r.None? <==> Do(old(db), ctx, Create(m, data)).Ok?
      ensures db == if r.None? then Do(old(db), ctx, Create(m, data)).value else old(db)
      ensures r.Some? ==> r.value == Do(old(db), ctx, Create(m, data)).error
      ensures forall other: Context | Grounded(old(db), ctx) && Grounded(old(db), other) && other.org != ctx.org ::
                VisibleRows(db, other) == VisibleRows(old(db), other)
    {
      hide InTenant, CreatedRow, Sanitized, KeysOwned, KeyError;
      var columns := TenantColumns(KindOf(m), ctx);
      var parentKey := ParentKey(KindOf(m));
      if columns.Err? { return Some(columns.error); }
      if columns.value.None? && parentKey.None? { return Some(InternalError); }
      var payload := Sanitize(m, OnCreate, data);
      if payload.Err? { return Some(payload.error); }
      if columns.value.None? && (parentKey.value !in payload.value || !payload.value[parentKey.value].Text?) {
        return Some(InvalidRequest);
      }
      var foreign := AssertForeignKeysOwned(ctx, m, payload.value);
      if foreign.Some? { return foreign; }
      var row := CreatedRow(payload.value, columns.value);
      if PrimaryKey !in row || !row[PrimaryKey].Text? || !NullsAllowed(m, row) || !RequiredPresent(m, row)
         || Key(m, row[PrimaryKey].id) in db {
        return Some(DatabaseError);
      }
      db := db[Key(m, row[PrimaryKey].id) := row];
      forall other: Context | Grounded(old(db), ctx) && Grounded(old(db), other) && other.org != ctx.org
        ensures VisibleRows(db, other) == VisibleRows(old(db), other)
      {
        CallIsUnseen(old(db), ctx, Create(m, data), other);
      }
      return None;
    }

    /** `updateMany` behind both update methods; the count is the rows it matched. */
    method UpdateRows(ctx: Context, m: Model, f: Filter, data: Row) returns (r: Result<set<Key>>)
      modifies this
      ensures r.Ok? <==> DoUpdate(old(db), ctx, m, f, data).Ok?
      ensures r.Ok? ==> db == DoUpdate(old(db), ctx, m, f, data).value
                        && r.value == Matched(old(db), ctx, m, f)
      ensures r.Err? ==> db == old(db) && r.error == DoUpdate(old(db), ctx, m, f, data).error
      ensures forall other: Context | Grounded(old(db), ctx) && Grounded(old(db), other) && other.org != ctx.org ::
                VisibleRows(db, other) == VisibleRows(old(db), other)
    {
      hide InTenant, Holds, Sanitized, KeysOwned, KeyError;
      var payload := Sanitize(m, OnUpdate, data);
      if payload.Err? { return Err(payload.error); }
      var foreign := AssertForeignKeysOwned(ctx, m, payload.value);
      if foreign.Some? { return Err(foreign.value); }
      if !NullsAllowed(m, Stored(payload.value)) { return Err(DatabaseError); }
      var matched := Matched(db, ctx, m, f);
      db := Updated(db, matched, payload.value);
      forall other: Context | Grounded(old(db), ctx) && Grounded(old(db), other) && other.org != ctx.org
        ensures VisibleRows(db, other) == VisibleRows(old(db), other)
      {
        UpdateIsUnseen(old(db), ctx, m, f, data, other);
      }
      return Ok(matched);
    }

    /** `deleteMany`: a filter without any condition is refused, and nobody else notices the rest. */
    method DeleteRows(ctx: Context, m: Model, f: Filter) returns (r: Result<nat>)
      modifies this
      ensures r.Ok? <==> !IsEmpty(f)
      ensures r.Ok? ==> r.value == |Matched(old(db), ctx, m, f)| && db == old(db) - Matched(old(db), ctx, m, f)
      ensures r.Err? ==> db == old(db) && r.error == InternalError
      ensures forall other: Context | Grounded(old(db), ctx) && Grounded(old(db), other) && other.org != ctx.org ::
                VisibleRows(db, other) == VisibleRows(old(db), other)
    {
      if IsEmpty(f) { return Err(InternalError); }
      var matched := Matched(db, ctx, m, f);
      db := db - matched;
      forall other: Context | Grounded(old(db), ctx) && Grounded(old(db), other) && other.org != ctx.org
        ensures VisibleRows(db, other) == VisibleRows(old(db), other)
      {
        CallIsUnseen(old(db), ctx, Call.DeleteMany(m, f), other);
      }
      r := Ok(|matched|);
    }
  }
}
