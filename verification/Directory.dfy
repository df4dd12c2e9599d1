/**
 The tenant and user lists: one query each, a loop over its rows, and the
 truncation that turns the extra row into the next cursor. Tables map ids to
 rows; ids compare as the store compares them.
 */
module Directory {
  import opened Base
  import opened Keyset
  import opened Sql

  /** The cursor parameter of a request: absent, an id, or not an id at all. */
  datatype CursorText = NoCursor | Uuid(id: int) | Garbage

  /** The id a cursor stands for. */
  function AfterOf(cursor: CursorText): Option<int> {
    if cursor.Uuid? then Some(cursor.id) else None
  }

  function PageLimit(limit: int): (n: nat)
    ensures 1 <= n <= 100 && n == if 1 <= limit <= 100 then limit else 20
  {
    if limit <= 0 || limit > 100 then 20 else limit
  }

  /** The rows of a table at the ids of a page. */
  ghost predicate RowsOf<T>(rows: seq<(int, T)>, table: map<int, T>, ids: seq<int>) {
    && |rows| == |ids|
    && forall i | 0 <= i < |ids| :: ids[i] in table && rows[i] == (ids[i], table[ids[i]])
  }

  method ReadRows<T>(table: map<int, T>, ids: seq<int>) returns (rows: seq<(int, T)>)
    requires forall i | 0 <= i < |ids| :: ids[i] in table
    ensures RowsOf(rows, table, ids)
  {
    rows := [];
    for i := 0 to |ids|
      invariant RowsOf(rows, table, ids[..i])
    {
      rows := rows + [(ids[i], table[ids[i]])];
    }
  }

  lemma FetchedIsPage(records: map<int, Record>, q: Query, limit: nat, base: set<int>, cursor: Option<int>)
    requires WellNumbered(q) && 1 <= limit
    requires Selected(records, q) == Beyond(base, cursor)
    ensures var limited := WithLimit(q, limit + 1);
            var fetched := Take(Ascending(Selected(records, limited)), LimitOf(limited, q.n));
            var page := PageAt(FirstNotReturned, Ascending(base), cursor, limit);
            && page.ids == Take(fetched, limit)
            && page.next == (if |fetched| > limit then Some(fetched[limit]) else None)
            && (forall i | 0 <= i < |fetched| :: fetched[i] in base)
  {
    hide Dropped, PageAt;
    var limited, ids, from := WithLimit(q, limit + 1), Ascending(base), Dropped(Ascending(base), cursor);
    LimitIsBound(q, limit + 1);
    SelectedWithLimit(records, q, limit + 1);
    AscendingBeyond(base, cursor);
    var fetched := Take(ids[from..], limit + 1);
    assert fetched == Take(Ascending(Selected(records, limited)), LimitOf(limited, q.n));
    PageOfFetched(FirstNotReturned, ids, cursor, limit, fetched);
    FetchedAreMembers(ids, from, limit + 1);
  }

  /** The query of a list, the loop over its rows, and the truncation to a page. */
  method FetchPage<T>(table: map<int, T>, records: map<int, Record>, q: Query, limit: nat,
                      ghost base: set<int>, ghost cursor: Option<int>)
    returns (rows: seq<(int, T)>, next: Option<int>)
    requires WellNumbered(q) && 1 <= limit && records.Keys == table.Keys
    requires Selected(records, q) == Beyond(base, cursor)
    requires base <= table.Keys
    ensures var page := PageAt(FirstNotReturned, Ascending(base), cursor, limit);
            RowsOf(rows, table, page.ids) && next == page.next
  {
    var ids := SelectById(records, WithLimit(q, limit + 1), q.n);
    FetchedIsPage(records, q, limit, base, cursor);
    rows := ReadRows(table, ids);
    next := None;
    if |rows| > limit {
      next := Some(rows[limit].0);
      rows := rows[..limit];
    }
  }

  /** One page of a walk taken off what is still to come. */
  lemma WalkStep(ids: seq<int>, after: Option<int>, n: nat, all: seq<int>, seen: seq<int>)
    requires 1 <= n && StrictlyAscending(ids)
    requires all == seen + Flat(WholeWalk(FirstNotReturned, ids, after, n))
    ensures var p := PageAt(FirstNotReturned, ids, after, n);
            && (p.next.None? ==> all == seen + p.ids)
            && (p.next.Some? ==>
                  && all == seen + p.ids + Flat(WholeWalk(FirstNotReturned, ids, p.next, n))
                  && Dropped(ids, after) < Dropped(ids, p.next))
  {
    FlatOfWalk(FirstNotReturned, ids, after, n);
    if PageAt(FirstNotReturned, ids, after, n).next.Some? {
      NextLeavesOff(FirstNotReturned, ids, after, n);
    }
  }

  lemma RowsJoin<T>(table: map<int, T>, a: seq<(int, T)>, x: seq<int>, b: seq<(int, T)>, y: seq<int>)
    requires RowsOf(a, table, x) && RowsOf(b, table, y)
    ensures RowsOf(a + b, table, x + y)
  {
  }

  // ----- Tenants -----

  datatype Tenant = Tenant(name: string, slug: string, status: string)

  function TenantRecord(id: int, t: Tenant): Record {
    map[RowId := Id(id), Status := Text(t.status)]
  }

  /** The tenants a list shows: all that are not deleted. */
  function Listed(tenants: map<int, Tenant>): set<int> {
    set id | id in tenants && tenants[id].status != "deleted"
  }

  class TenantService {
    var tenants: map<int, Tenant>

    constructor ()
      ensures tenants == map[]
    {
      tenants := map[];
    }

    /** None is the answer to a cursor that is not an id. */
    method List(limit: int, cursor: CursorText) returns (result: Option<(seq<(int, Tenant)>, Option<int>)>)
      ensures result.None? <==> cursor == Garbage
      ensures result.Some? ==>
                var page := PageAt(FirstNotReturned, Ascending(Listed(tenants)), AfterOf(cursor), PageLimit(limit));
                RowsOf(result.value.0, tenants, page.ids) && result.value.1 == page.next
    {
      var n := limit;
      if n <= 0 || n > 100 {
        n := 20;
      }
      if cursor == Garbage {
        return None;
      }
      var q := AndDiffers(EMPTY, Status, "deleted");
      AndDiffersMeans(EMPTY, Status, "deleted");
      if cursor.Uuid? {
        AndBoundMeans(q, RowId, Greater, Id(cursor.id));
        q := AndBound(q, RowId, Greater, Id(cursor.id));
      }
      var records := map id | id in tenants :: TenantRecord(id, tenants[id]);
      var rows, next := FetchPage(tenants, records, q, n, Listed(tenants), AfterOf(cursor));
      result := Some((rows, next));
    }
  }

  /**
   Following the cursors over a table nobody changes returns the listed tenants at indices i with i mod (n +
   1) != n.
   */
  lemma TenantWalk(tenants: map<int, Tenant>, limit: int)
    ensures var shown := set id | id in tenants && tenants[id].status != "deleted";
            var n, ids := PageLimit(limit), Ascending(shown);
            && Listed(tenants) == shown
            && Flat(WholeWalk(FirstNotReturned, ids, None, n)) == Kept(ids, n, 0)
            && (Flat(WholeWalk(FirstNotReturned, ids, None, n)) == ids <==> |shown| <= n)
  {
    FirstNotReturnedSkips(Ascending(Listed(tenants)), PageLimit(limit));
    CompleteIffOnePage(Ascending(Listed(tenants)), PageLimit(limit));
  }

  /** A client that follows the cursors of the list to the end holds the rows of exactly those tenants. */
  method AllTenantPages(service: TenantService, limit: int) returns (rows: seq<(int, Tenant)>)
    ensures RowsOf(rows, service.tenants, Kept(Ascending(Listed(service.tenants)), PageLimit(limit), 0))
  {
    ghost var n, ids, seen := PageLimit(limit), Ascending(Listed(service.tenants)), [];
    ghost var all := Kept(ids, n, 0);
    FirstNotReturnedSkips(ids, n);
    hide WholeWalk, PageAt, Kept, RowsOf, PageLimit;
    rows := [];
    var cursor, more := NoCursor, true;
    while more
      invariant RowsOf(rows, service.tenants, seen) && cursor != Garbage
      invariant if more then all == seen + Flat(WholeWalk(FirstNotReturned, ids, AfterOf(cursor), n)) else all == seen
      decreases more, |ids| - Dropped(ids, AfterOf(cursor))
    {
      var result := service.List(limit, cursor);
      var (page, next) := result.value;
      ghost var got := PageAt(FirstNotReturned, ids, AfterOf(cursor), n).ids;
      WalkStep(ids, AfterOf(cursor), n, all, seen);
      RowsJoin(service.tenants, rows, seen, page, got);
      rows, seen := rows + page, seen + got;
      if next.Some? {
        cursor := Uuid(next.value);
      } else {
        more := false;
      }
    }
  }

  // ----- Users -----

  datatype User = User(tenant: int, email: string, status: string)

  function UserRecord(id: int, u: User): (r: Record)
    ensures Field(r, RowId) == Id(id) && Field(r, TenantId) == Id(u.tenant)
    ensures Field(r, Email) == Text(u.email) && Field(r, Status) == Text(u.status)
  {
    map[RowId := Id(id), TenantId := Id(u.tenant), Email := Text(u.email), Status := Text(u.status)]
  }

  /** What the filters of a user list mean, without any query. */
  predicate Matches(u: User, tenant: int, search: string, status: string) {
    && u.tenant == tenant
    && u.status != "deleted"
    && (search != "" ==> ILike(u.email, SearchPattern(search)))
    && (status != "" ==> u.status == status)
  }

  function Matching(users: map<int, User>, tenant: int, search: string, status: string): set<int> {
    set id | id in users && Matches(users[id], tenant, search, status)
  }

  /** The query grown clause by clause: it selects exactly the rows the filters mean, beyond the cursor. */
  method BuildUserQuery(tenant: int, search: string, status: string, cursor: CursorText) returns (q: Query)
    ensures WellNumbered(q)
    ensures forall id: int, u: User :: Satisfies(UserRecord(id, u), q) <==>
              && u.tenant == tenant && u.status != "deleted"
              && (search != "" ==> ILike(u.email, "%" + search + "%"))
              && (status != "" ==> u.status == status)
              && (cursor.Uuid? ==> id > cursor.id)
  {
    AndBoundMeans(EMPTY, TenantId, Equal, Id(tenant));
    q := AndBound(EMPTY, TenantId, Equal, Id(tenant));
    AndDiffersMeans(q, Status, "deleted");
    q := AndDiffers(q, Status, "deleted");
    q := AndWhen(search != "", q, Email, Like, Text(SearchPattern(search)));
    q := AndWhen(status != "", q, Status, Equal, Text(status));
    q := AndWhen(cursor.Uuid?, q, RowId, Greater, if cursor.Uuid? then Id(cursor.id) else Null);
  }

  class UserService {
    var users: map<int, User>

    constructor ()
      ensures users == map[]
    {
      users := map[];
    }

    method List(tenant: int, search: string, status: string, limit: int, cursor: CursorText)
      returns (rows: seq<(int, User)>, next: Option<int>)
      ensures var page := PageAt(FirstNotReturned, Ascending(Matching(users, tenant, search, status)),
                                 AfterOf(cursor), PageLimit(limit));
              RowsOf(rows, users, page.ids) && next == page.next
    {
      var n := limit;
      if n <= 0 || n > 100 {
        n := 20;
      }
      var q := BuildUserQuery(tenant, search, status, cursor);
      var records := map id | id in users :: UserRecord(id, users[id]);
      rows, next := FetchPage(users, records, q, n, Matching(users, tenant, search, status), AfterOf(cursor));
    }
  }

  /**
   The user walk returns the matching users at indices i with i mod (n + 1) != n: all of them iff they fit one
   page.
   */
  lemma UserWalk(users: map<int, User>, tenant: int, search: string, status: string, limit: int)
    ensures var n, ids := PageLimit(limit), Ascending(Matching(users, tenant, search, status));
            && Flat(WholeWalk(FirstNotReturned, ids, None, n)) == Kept(ids, n, 0)
            && (Flat(WholeWalk(FirstNotReturned, ids, None, n)) == ids
                <==> |Matching(users, tenant, search, status)| <= n)
  {
    var ids := Ascending(Matching(users, tenant, search, status));
    FirstNotReturnedSkips(ids, PageLimit(limit));
    CompleteIffOnePage(ids, PageLimit(limit));
  }

  /** A client that follows the cursors of the list to the end holds the rows of exactly those users. */
  method AllUserPages(service: UserService, tenant: int, search: string, status: string, limit: int)
    returns (rows: seq<(int, User)>)
    ensures RowsOf(rows, service.users,
                   Kept(Ascending(Matching(service.users, tenant, search, status)), PageLimit(limit), 0))
  {
    ghost var n, ids, seen := PageLimit(limit), Ascending(Matching(service.users, tenant, search, status)), [];
    ghost var all := Kept(ids, n, 0);
    FirstNotReturnedSkips(ids, n);
    hide WholeWalk, PageAt, Kept, RowsOf, PageLimit;
    rows := [];
    var cursor, more := NoCursor, true;
    while more
      invariant RowsOf(rows, service.users, seen)
      invariant if more then all == seen + Flat(WholeWalk(FirstNotReturned, ids, AfterOf(cursor), n)) else all == seen
      decreases more, |ids| - Dropped(ids, AfterOf(cursor))
    {
      var page, next := service.List(tenant, search, status, limit, cursor);
      ghost var got := PageAt(FirstNotReturned, ids, AfterOf(cursor), n).ids;
      WalkStep(ids, AfterOf(cursor), n, all, seen);
      RowsJoin(service.users, rows, seen, page, got);
      rows, seen := rows + page, seen + got;
      if next.Some? {
        cursor := Uuid(next.value);
      } else {
        more := false;
      }
    }
  }

  /** Whatever is inserted, changed or deleted between the pages, no user is returned twice. */
  lemma NoUserTwice(tables: seq<map<int, User>>, tenant: int, search: string, status: string, limit: int)
    ensures var lists := seq(|tables|, i requires 0 <= i < |tables| =>
                             Ascending(Matching(tables[i], tenant, search, status)));
            var all := Flat(Walk(FirstNotReturned, lists, None, PageLimit(limit)));
            forall i, j | 0 <= i < j < |all| :: all[i] != all[j]
  {
    var lists := seq(|tables|, i requires 0 <= i < |tables| => Ascending(Matching(tables[i], tenant, search, status)));
    NoRowTwice(FirstNotReturned, lists, PageLimit(limit));
  }
}
