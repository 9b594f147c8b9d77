/** Bounded tables: a page with its probe row, and the keyset walk that processes everything
    (apps/control-api/src/authz/tenant-scope.ts:375-488). */
module Paging {
  import opened Domain

  const MAX_PAGE_SIZE: nat := 200
  const DEFAULT_PAGE_SIZE: nat := 50

  function PageSize(take: Option<int>): (n: nat)
    ensures 1 <= n <= MAX_PAGE_SIZE
  {
    if take.None? then DEFAULT_PAGE_SIZE
    else if take.value < 1 then 1
    else if take.value > MAX_PAGE_SIZE then MAX_PAGE_SIZE
    else take.value
  }

  // ---- One page ----

  datatype Page<T> = Page(rows: seq<T>, hasMore: bool, nextSkip: Option<nat>)

  function Slice<T>(all: seq<T>, skip: nat, take: nat): (r: seq<T>) {
    if skip >= |all| then [] else if skip + take >= |all| then all[skip..] else all[skip..skip + take]
  }

  /** `findPage` over the ordered rows the predicate matches: one row more than asked is the probe. */
  function FindPage<T>(all: seq<T>, take: Option<int>, skip: nat): (p: Page<T>) {
    var size := PageSize(take);
    var rows := Slice(all, skip, size + 1);
    var hasMore := |rows| > size;
    Page(if hasMore then rows[..size] else rows, hasMore, if hasMore then Some(skip + size) else None)
  }

  /** Every row from `skip` on, by following `nextSkip` to the end. */
  function FollowPages<T>(all: seq<T>, take: Option<int>, skip: nat): (rows: seq<T>)
    decreases |all| - skip
  {
    var p := FindPage(all, take, skip);
    if p.hasMore then p.rows + FollowPages(all, take, p.nextSkip.value) else p.rows
  }

  /** Pages tile the result: nothing skipped, nothing twice, and `hasMore` says whether rows remain. */
  lemma {:induction false} PagesTile<T>(all: seq<T>, take: Option<int>, skip: nat)
    ensures FollowPages(all, take, skip) == if skip <= |all| then all[skip..] else []
    ensures FindPage(all, take, skip).hasMore <==> |all| > skip + PageSize(take)
    decreases |all| - skip
  {
    var p, size := FindPage(all, take, skip), PageSize(take);
    PageShape(all, take, skip);
    hide FindPage, PageSize;
    if p.hasMore {
      PagesTile(all, take, skip + size);
      assert all[skip..] == all[skip..skip + size] + all[skip + size..];
    }
  }

  lemma PageShape<T>(all: seq<T>, take: Option<int>, skip: nat)
    ensures var p, size := FindPage(all, take, skip), PageSize(take);
            && (p.hasMore <==> |all| > skip + size)
            && (if p.hasMore then p.rows == all[skip..skip + size] && p.nextSkip == Some(skip + size)
                else p.rows == (if skip <= |all| then all[skip..] else []) && p.nextSkip == None)
  {
    hide PageSize;
  }

  function Bounded(n: int, low: int, high: int): int
    requires low <= high
  {
    if n < low then low else if n > high then high else n
  }

  /** A page holds as many rows as were asked for, fifty where nothing was, between one and two hundred,
      or what is left. */
  lemma PageLength<T>(all: seq<T>, take: Option<int>, skip: nat)
    ensures var size := if take.Some? then Bounded(take.value, 1, 200) else 50;
            var left := if skip < |all| then |all| - skip else 0;
            |FindPage(all, take, skip).rows| == Bounded(size, 0, left)
  {
  }

  // ---- The keyset walk ----

  /** A table, keyed by the rank of each primary key in the key order. */
  type Table<Row> = map<int, Row>

  function Matching<Row>(t: Table<Row>, matches: Row -> bool, cursor: Option<int>): (ids: set<int>) {
    set id | id in t && matches(t[id]) && (cursor.None? || id > cursor.value)
  }

  predicate IsLeast(s: set<int>, m: int) { m in s && forall x | x in s :: m <= x }

  lemma HasLeast(s: set<int>)
    requires s != {}
    ensures exists m :: IsLeast(s, m)
  {
    assert (forall m: int :: m !in s) ==> s == {};
    var m :| m in s;
    var rest := s - {m};
    assert forall x | x in s :: x == m || x in rest;
    if rest == {} {
      assert IsLeast(s, m);
    } else {
      HasLeast(rest);
      var k :| IsLeast(rest, k);
      assert IsLeast(s, if m < k then m else k);
    }
  }

  function Least(s: set<int>): (m: int)
    requires s != {}
    ensures IsLeast(s, m)
  {
    HasLeast(s);
    var m :| IsLeast(s, m);
    m
  }

  /** `orderBy id asc, take n`: the `n` smallest ids, in order. */
  function Smallest(s: set<int>, n: nat): (ids: seq<int>)
    ensures |ids| <= n
    ensures forall i | 0 <= i < |ids| :: ids[i] in s
    ensures forall i, j | 0 <= i < j < |ids| :: ids[i] < ids[j]
    ensures |ids| < n ==> forall x | x in s :: x in ids
    ensures forall x, i | x in s && x !in ids && 0 <= i < |ids| :: ids[i] < x
  {
    if n == 0 || s == {} then []
    else
      var m := Least(s);
      var rest := Smallest(s - {m}, n - 1);
      assert forall x | x in s :: x == m || x in s - {m};
      [m] + rest
  }

  /** One page read of a walk: the table as it was, where the walk stood, and the ids handed over. */
  datatype PageRead<Row> = PageRead(table: Table<Row>, cursor: Option<int>, ids: seq<int>)

  function Last(ids: seq<int>): int
    requires ids != []
  {
    ids[|ids| - 1]
  }

  /** The page a walk reads from `cursor`. */
  function ReadPage<Row>(t: Table<Row>, matches: Row -> bool, cursor: Option<int>, size: nat): (p: PageRead<Row>) {
    PageRead(t, cursor, Smallest(Matching(t, matches, cursor), size))
  }

  /** Read `k` of a log starts where the one before it ended, on the table the handler left. */
  ghost predicate FollowsOn<Row(!new)>(
    log: seq<PageRead<Row>>, k: nat, start: Table<Row>, matches: Row -> bool, handler: (nat, Table<Row>) -> Table<Row>,
    size: nat)
    requires k < |log|
  {
    && log[k] == ReadPage(log[k].table, matches, log[k].cursor, size)
    && (k == 0 ==> log[k].cursor == None && log[k].table == start)
    && (k > 0 ==> |log[k - 1].ids| == size > 0
                  && log[k].cursor == Some(Last(log[k - 1].ids))
                  && log[k].table == handler(k - 1, log[k - 1].table))
  }

  ghost predicate IsWalk<Row(!new)>(
    log: seq<PageRead<Row>>, start: Table<Row>, matches: Row -> bool, handler: (nat, Table<Row>) -> Table<Row>,
    size: nat)
  {
    forall k | 0 <= k < |log| :: FollowsOn(log, k, start, matches, handler, size)
  }

  lemma ExtendWalk<Row(!new)>(
    log: seq<PageRead<Row>>, page: PageRead<Row>, start: Table<Row>, matches: Row -> bool,
    handler: (nat, Table<Row>) -> Table<Row>, size: nat)
    requires IsWalk(log, start, matches, handler, size)
    requires page == ReadPage(page.table, matches, page.cursor, size)
    requires log == [] ==> page.cursor == None && page.table == start
    requires log != [] ==> |log[|log| - 1].ids| == size > 0 && page.cursor == Some(Last(log[|log| - 1].ids))
                           && page.table == handler(|log| - 1, log[|log| - 1].table)
    ensures IsWalk(log + [page], start, matches, handler, size)
    ensures Handed(log + [page]) == Handed(log) + page.ids
  {
    hide ReadPage;
    var longer := log + [page];
    assert longer[..|log|] == log;
    forall k | 0 <= k < |longer| ensures FollowsOn(longer, k, start, matches, handler, size) {
      if k < |log| { assert FollowsOn(log, k, start, matches, handler, size); }
    }
  }

  lemma WalkPrefix<Row(!new)>(
    log: seq<PageRead<Row>>, n: nat, start: Table<Row>, matches: Row -> bool, handler: (nat, Table<Row>) -> Table<Row>,
    size: nat)
    requires IsWalk(log, start, matches, handler, size) && n <= |log|
    ensures IsWalk(log[..n], start, matches, handler, size)
  {
    hide ReadPage;
    forall k | 0 <= k < n ensures FollowsOn(log[..n], k, start, matches, handler, size) {
      assert FollowsOn(log, k, start, matches, handler, size);
    }
  }

  function Handed<Row>(log: seq<PageRead<Row>>): (ids: seq<int>) {
    if log == [] then [] else Handed(log[..|log| - 1]) + log[|log| - 1].ids
  }

  /** A walk that has ended: its last page is short. */
  ghost predicate IsFinished<Row(!new)>(
    log: seq<PageRead<Row>>, start: Table<Row>, matches: Row -> bool, handler: (nat, Table<Row>) -> Table<Row>,
    size: nat)
  {
    IsWalk(log, start, matches, handler, size) && log != [] && |log[|log| - 1].ids| < size
  }

  /** Where a walk stands after `k` pages: what it reads next is determined. */
  ghost predicate Stands<Row(!new)>(
    log: seq<PageRead<Row>>, k: nat, start: Table<Row>, handler: (nat, Table<Row>) -> Table<Row>, size: nat,
    cursor: Option<int>, table: Table<Row>)
    requires k <= |log|
  {
    && (k == 0 ==> cursor == None && table == start)
    && (k > 0 ==> |log[k - 1].ids| == size > 0 && cursor == Some(Last(log[k - 1].ids))
                  && table == handler(k - 1, log[k - 1].table))
  }

  lemma NextPage<Row(!new)>(
    log: seq<PageRead<Row>>, k: nat, start: Table<Row>, matches: Row -> bool,
    handler: (nat, Table<Row>) -> Table<Row>, size: nat, cursor: Option<int>, table: Table<Row>)
    requires IsFinished(log, start, matches, handler, size) && k < |log|
    requires Stands(log, k, start, handler, size, cursor, table)
    ensures log[k] == ReadPage(table, matches, cursor, size)
    ensures log[..k + 1] == log[..k] + [log[k]]
    ensures Handed(log[..k + 1]) == Handed(log[..k]) + log[k].ids
    ensures |log[k].ids| < size <==> k == |log| - 1
    ensures k < |log| - 1 ==> log[k].ids != []
                              && Stands(log, k + 1, start, handler, size, Some(Last(log[k].ids)), handler(k, table))
  {
    hide ReadPage;
    assert FollowsOn(log, k, start, matches, handler, size);
    if k < |log| - 1 { assert FollowsOn(log, k + 1, start, matches, handler, size); }
    assert log[..k + 1][..k] == log[..k];
  }

  /** `forEachPage`. `handler(i, t)` is what the handler of page `i` makes of the table: it may insert,
      update and delete at will. The loop ends exactly when some finished walk exists, and is that walk. */
  method ForEachPage<Row(!new)>(
    start: Table<Row>, matches: Row -> bool, handler: (nat, Table<Row>) -> Table<Row>, pageSize: Option<int>,
    ghost walk: seq<PageRead<Row>>)
    returns (processed: nat, log: seq<PageRead<Row>>)
    requires IsFinished(walk, start, matches, handler, PageSize(pageSize))
    ensures log == walk && processed == |Handed(log)|
  {
    var size := PageSize(pageSize);
    var cursor: Option<int>, table, pageIndex := None, start, 0;
    processed, log := 0, [];
    assert Stands(walk, 0, start, handler, size, cursor, table) && walk[..0] == [] && |walk| > 0;
    hide IsFinished, IsWalk, Stands, ReadPage, PageSize;
    while true
      invariant pageIndex == |log| < |walk| && log == walk[..|log|] && processed == |Handed(log)|
      invariant Stands(walk, |log|, start, handler, size, cursor, table)
      decreases |walk| - |log|
    {
      NextPage(walk, |log|, start, matches, handler, size, cursor, table);
      hide Handed;
      var page := ReadPage(table, matches, cursor, size);
      var rows := page.ids;
      log := log + [page];
      if rows == [] { return; }
      table := handler(pageIndex, table);
      pageIndex, processed := pageIndex + 1, processed + |rows|;
      cursor := Some(Last(rows));
      if |rows| < size { return; }
    }
  }

  // ---- When the loop ends ----

  /** The ids a walk can still reach. */
  function Ahead(ids: set<int>, cursor: Option<int>): set<int> {
    set id | id in ids && (cursor.None? || id > cursor.value)
  }

  /** A page that hands over a row leaves strictly fewer ids ahead. */
  lemma AheadShrinks<Row>(
    universe: set<int>, t: Table<Row>, matches: Row -> bool, cursor: Option<int>, size: nat)
    requires t.Keys <= universe && ReadPage(t, matches, cursor, size).ids != []
    ensures var ids := ReadPage(t, matches, cursor, size).ids;
            Ahead(universe, Some(Last(ids))) < Ahead(universe, cursor)
  {
    var last := Last(ReadPage(t, matches, cursor, size).ids);
    assert last in Matching(t, matches, cursor);
    assert last in Ahead(universe, cursor) && last !in Ahead(universe, Some(last));
  }

  /** Any walk can be carried on to a finished one while the ids that ever enter the table are finitely
      many, however the handler inserts, updates and deletes. */
  lemma {:induction false} FinitelyManyIdsEnd<Row(!new)>(
    log: seq<PageRead<Row>>, start: Table<Row>, matches: Row -> bool, handler: (nat, Table<Row>) -> Table<Row>,
    size: nat, universe: set<int>, cursor: Option<int>, table: Table<Row>)
    returns (walk: seq<PageRead<Row>>)
    requires size > 0 && IsWalk(log, start, matches, handler, size)
    requires Stands(log, |log|, start, handler, size, cursor, table) && table.Keys <= universe
    requires forall i: nat, t: Table<Row> | t.Keys <= universe :: handler(i, t).Keys <= universe
    ensures IsFinished(walk, start, matches, handler, size)
    decreases Ahead(universe, cursor)
  {
    var page := ReadPage(table, matches, cursor, size);
    ExtendWalk(log, page, start, matches, handler, size);
    walk := log + [page];
    assert |page.ids| <= size;
    if |page.ids| == size {
      AheadShrinks(universe, table, matches, cursor, size);
      hide IsWalk, ReadPage, Ahead;
      walk := FinitelyManyIdsEnd(
        walk, start, matches, handler, size, universe, Some(Last(page.ids)), handler(|log|, table));
    }
  }

  /** A handler that puts one row with a greater id in place of the page it was given. */
  function Refill(page: nat, t: Table<()>): Table<()> { map[page + 1 := ()] }

  predicate Every(row: ()) { true }

  lemma {:induction false} RefilledPage(log: seq<PageRead<()>>, k: nat)
    requires IsWalk(log, map[0 := ()], Every, Refill, 1) && k < |log|
    ensures log[k].ids == [k as int]
  {
    assert FollowsOn(log, k, map[0 := ()], Every, Refill, 1);
    if k > 0 { RefilledPage(log, k - 1); }
    var ready := Matching(log[k].table, Every, log[k].cursor);
    assert ready == {k as int};
    assert (k as int) in ready;
  }

  /** With ids without end the loop may have none: no walk of this one ever comes to a short page. */
  lemma EndlessInsertsNeverEnd(log: seq<PageRead<()>>)
    ensures !IsFinished(log, map[0 := ()], Every, Refill, 1)
  {
    if IsWalk(log, map[0 := ()], Every, Refill, 1) && log != [] { RefilledPage(log, |log| - 1); }
  }

  predicate StrictlyIncreasing(ids: seq<int>) {
    forall i, j | 0 <= i < j < |ids| :: ids[i] < ids[j]
  }

  /** What one page read promises. */
  lemma PageFacts<Row>(t: Table<Row>, matches: Row -> bool, cursor: Option<int>, size: nat)
    ensures var p := ReadPage(t, matches, cursor, size);
            && StrictlyIncreasing(p.ids) && |p.ids| <= size
            && (forall i | 0 <= i < |p.ids| ::
              (cursor.Some? ==> cursor.value < p.ids[i]) && p.ids[i] in t && matches(t[p.ids[i]]))
            && (forall id | id in t && matches(t[id]) && (cursor.Some? ==> cursor.value < id) ::
                  id in p.ids || (|p.ids| == size && forall i | 0 <= i < |p.ids| :: p.ids[i] < id))
  {
    var p := ReadPage(t, matches, cursor, size);
    var ready := Matching(t, matches, cursor);
    assert forall i | 0 <= i < |p.ids| :: p.ids[i] in ready;
    forall id | id in t && matches(t[id]) && (cursor.Some? ==> cursor.value < id)
      ensures id in p.ids || (|p.ids| == size && forall i | 0 <= i < |p.ids| :: p.ids[i] < id)
    {
      assert id in ready;
    }
  }

  lemma AppendIncreasing(a: seq<int>, b: seq<int>)
    requires StrictlyIncreasing(a) && StrictlyIncreasing(b)
    requires a != [] ==> forall i | 0 <= i < |b| :: Last(a) < b[i]
    ensures StrictlyIncreasing(a + b)
    ensures b != [] ==> Last(a + b) == Last(b)
  {
  }

  /** What one read of a walk hands over: increasing ids, past the last of the page before. */
  lemma PageFollows<Row(!new)>(
    log: seq<PageRead<Row>>, n: nat, start: Table<Row>, matches: Row -> bool, handler: (nat, Table<Row>) -> Table<Row>,
    size: nat)
    requires n < |log| && IsWalk(log, start, matches, handler, size)
    ensures StrictlyIncreasing(log[n].ids)
    ensures n > 0 ==> log[n - 1].ids != [] && log[n].cursor == Some(Last(log[n - 1].ids))
    ensures log[n].cursor.Some? ==> forall i | 0 <= i < |log[n].ids| :: log[n].cursor.value < log[n].ids[i]
  {
    hide ReadPage, StrictlyIncreasing;
    assert FollowsOn(log, n, start, matches, handler, size);
    PageFacts(log[n].table, matches, log[n].cursor, size);
  }

  lemma {:induction false} WalkIncreases<Row(!new)>(
    log: seq<PageRead<Row>>, start: Table<Row>, matches: Row -> bool, handler: (nat, Table<Row>) -> Table<Row>,
    size: nat)
    requires IsWalk(log, start, matches, handler, size)
    ensures StrictlyIncreasing(Handed(log))
    ensures log != [] && log[|log| - 1].ids != [] ==> Handed(log) != [] && Last(Handed(log)) == Last(log[|log| - 1].ids)
    ensures log == [] ==> Handed(log) == []
    decreases |log|
  {
    if log != [] {
      hide ReadPage, StrictlyIncreasing, IsWalk, FollowsOn, Last;
      var n := |log| - 1;
      var before, ids := Handed(log[..n]), log[n].ids;
      assert Handed(log) == before + ids;
      hide Handed;
      WalkPrefix(log, n, start, matches, handler, size);
      WalkIncreases(log[..n], start, matches, handler, size);
      PageFollows(log, n, start, matches, handler, size);
      if n > 0 { assert log[..n][n - 1] == log[n - 1]; }
      AppendIncreasing(before, ids);
    }
  }

  /** The page read at which it is the turn of `id`: the first that reaches it, or the last. */
  ghost function Turn<Row>(log: seq<PageRead<Row>>, id: int): (k: nat)
    requires log != [] && forall k | 0 <= k < |log| - 1 :: log[k].ids != []
    ensures k < |log|
    ensures forall j | 0 <= j < k :: Last(log[j].ids) < id
    ensures k < |log| - 1 ==> id <= Last(log[k].ids)
  {
    if |log| == 1 then 0
    else if id <= Last(log[0].ids) then 0
    else
      var k := Turn(log[1..], id);
      assert forall j | 0 < j < |log| :: log[j] == log[1..][j - 1];
      k + 1
  }

  lemma {:induction false} LaterPagesLieAbove<Row(!new)>(
    log: seq<PageRead<Row>>, start: Table<Row>, matches: Row -> bool, handler: (nat, Table<Row>) -> Table<Row>,
    size: nat, k: nat, j: nat)
    requires IsWalk(log, start, matches, handler, size) && k < j < |log|
    ensures log[k].ids != [] && log[j].cursor.Some? && Last(log[k].ids) <= log[j].cursor.value
    ensures forall i | 0 <= i < |log[j].ids| :: log[j].ids[i] > Last(log[k].ids)
    decreases j
  {
    assert FollowsOn(log, j, start, matches, handler, size);
    if k < j - 1 {
      LaterPagesLieAbove(log, start, matches, handler, size, k, j - 1);
      assert Last(log[j - 1].ids) > Last(log[k].ids);
    }
    PageFacts(log[j].table, matches, log[j].cursor, size);
  }

  lemma {:induction false} InHanded<Row>(log: seq<PageRead<Row>>, id: int)
    ensures id in Handed(log) <==> exists k | 0 <= k < |log| :: id in log[k].ids
  {
    if log != [] {
      var n := |log| - 1;
      InHanded(log[..n], id);
      assert forall k | 0 <= k < n :: log[..n][k] == log[k];
    }
  }

  /** A finished walk hands over a row exactly when it matches at the page read whose turn it is:
      a row still matching when its turn comes is never skipped, and no id comes twice. */
  lemma WalkIsExhaustive<Row(!new)>(
    log: seq<PageRead<Row>>, start: Table<Row>, matches: Row -> bool, handler: (nat, Table<Row>) -> Table<Row>,
    size: nat, id: int)
    requires IsWalk(log, start, matches, handler, size)
    requires log != [] && |log[|log| - 1].ids| < size
    ensures forall k | 0 <= k < |log| - 1 :: log[k].ids != []
    ensures var t := log[Turn(log, id)].table; id in Handed(log) <==> id in t && matches(t[id])
    ensures StrictlyIncreasing(Handed(log))
  {
    WalkIncreases(log, start, matches, handler, size);
    forall k | 0 <= k < |log| - 1 ensures log[k].ids != [] {
      assert FollowsOn(log, k + 1, start, matches, handler, size);
    }
    InHanded(log, id);
    var n := Turn(log, id);
    TurnDecides(log, start, matches, handler, size, id, n);
    hide IsWalk, Handed, StrictlyIncreasing;
    forall k | 0 <= k < |log| && id in log[k].ids ensures k == n {
      if k < n {
        OrderedLast(log, start, matches, handler, size, k, id);
      } else if n < k {
        LaterPagesLieAbove(log, start, matches, handler, size, n, k);
      }
    }
  }

  lemma OrderedLast<Row(!new)>(
    log: seq<PageRead<Row>>, start: Table<Row>, matches: Row -> bool, handler: (nat, Table<Row>) -> Table<Row>,
    size: nat, k: nat, id: int)
    requires IsWalk(log, start, matches, handler, size) && k < |log| && id in log[k].ids
    ensures id <= Last(log[k].ids)
  {
    assert FollowsOn(log, k, start, matches, handler, size);
    PageFacts(log[k].table, matches, log[k].cursor, size);
  }

  /** At its turn, a row is handed over exactly when it matches. */
  lemma TurnDecides<Row(!new)>(
    log: seq<PageRead<Row>>, start: Table<Row>, matches: Row -> bool, handler: (nat, Table<Row>) -> Table<Row>,
    size: nat, id: int, n: nat)
    requires IsWalk(log, start, matches, handler, size) && n < |log| && |log[|log| - 1].ids| < size
    requires forall k | 0 <= k < |log| - 1 :: log[k].ids != []
    requires n > 0 ==> Last(log[n - 1].ids) < id
    requires n < |log| - 1 ==> id <= Last(log[n].ids)
    ensures id in log[n].ids <==> id in log[n].table && matches(log[n].table[id])
  {
    assert FollowsOn(log, n, start, matches, handler, size);
    PageFacts(log[n].table, matches, log[n].cursor, size);
    hide ReadPage, IsWalk;
  }
}
