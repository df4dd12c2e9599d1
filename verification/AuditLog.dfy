/**
 The audit list pages by timestamp: newest first, beyond the timestamp of the
 last event returned. Events with equal timestamps come in any order the store
 likes, possibly another one at every query, so a page is described by a relation.
 */
module AuditLog {
  import opened Base
  import Digits
  import opened Sql

  datatype Event = Event(id: int, tenant: int, actor: Option<int>, action: string, resource: string,
                         outcome: string, at: int)

  /** The cursor parameter: absent, a timestamp, or text that is not one. */
  datatype CursorText = NoCursor | Stamp(at: int) | Garbage

  datatype Filter = Filter(actor: Option<int>, action: string, resource: string, outcome: string,
                           since: Option<int>, until: Option<int>, cursor: CursorText, limit: int)

  const EXPORT_CAP: int := 10000

  function PageLimit(limit: int): (n: nat)
    ensures 1 <= n <= 200 && n == if 1 <= limit <= 200 then limit else 50
  {
    if limit <= 0 || limit > 200 then 50 else limit
  }

  predicate MatchesFields(e: Event, tenant: int, f: Filter) {
    && e.tenant == tenant
    && (f.actor.Some? ==> e.actor == f.actor)
    && (f.action != "" ==> e.action == f.action)
    && (f.resource != "" ==> e.resource == f.resource)
    && (f.outcome != "" ==> e.outcome == f.outcome)
  }

  predicate MatchesTimes(e: Event, f: Filter) {
    && (f.since.Some? ==> e.at >= f.since.value)
    && (f.until.Some? ==> e.at <= f.until.value)
  }

  /** What the filters mean, cursor aside. */
  predicate Matches(e: Event, tenant: int, f: Filter) {
    MatchesFields(e, tenant, f) && MatchesTimes(e, f)
  }

  function Matching(log: set<Event>, tenant: int, f: Filter): set<Event> {
    set e | e in log && Matches(e, tenant, f)
  }

  function AfterOf(cursor: CursorText): Option<int> {
    if cursor.Stamp? then Some(cursor.at) else None
  }

  /** WHERE occurred_at < cursor, if there is one. */
  function Before(events: set<Event>, cursor: Option<int>): set<Event> {
    set e | e in events && (cursor.Some? ==> e.at < cursor.value)
  }

  // ----- The query -----

  function EventRecord(e: Event): (r: Record)
    ensures Field(r, TenantId) == Id(e.tenant)
    ensures Field(r, ActorId) == if e.actor.Some? then Id(e.actor.value) else Null
    ensures Field(r, Action) == Text(e.action) && Field(r, Resource) == Text(e.resource)
    ensures Field(r, Outcome) == Text(e.outcome) && Field(r, OccurredAt) == Time(e.at)
  {
    map[TenantId := Id(e.tenant), ActorId := if e.actor.Some? then Id(e.actor.value) else Null,
        Action := Text(e.action), Resource := Text(e.resource), Outcome := Text(e.outcome), OccurredAt := Time(e.at)]
  }

  method AndFields(tenant: int, f: Filter) returns (q: Query)
    ensures WellNumbered(q)
    ensures forall e: Event :: Satisfies(EventRecord(e), q) <==> MatchesFields(e, tenant, f)
  {
    AndBoundMeans(EMPTY, TenantId, Equal, Id(tenant));
    q := AndBound(EMPTY, TenantId, Equal, Id(tenant));
    q := AndWhen(f.actor.Some?, q, ActorId, Equal, if f.actor.Some? then Id(f.actor.value) else Null);
    q := AndWhen(f.action != "", q, Action, Equal, Text(f.action));
    q := AndWhen(f.resource != "", q, Resource, Equal, Text(f.resource));
    q := AndWhen(f.outcome != "", q, Outcome, Equal, Text(f.outcome));
  }

  method AndTimes(fields: Query, f: Filter) returns (q: Query)
    requires WellNumbered(fields)
    ensures WellNumbered(q)
    ensures forall e: Event :: Satisfies(EventRecord(e), q) <==>
              Satisfies(EventRecord(e), fields) && MatchesTimes(e, f) && (f.cursor.Stamp? ==> e.at < f.cursor.at)
  {
    q := AndWhen(f.since.Some?, fields, OccurredAt, AtLeast, if f.since.Some? then Time(f.since.value) else Null);
    q := AndWhen(f.until.Some?, q, OccurredAt, AtMost, if f.until.Some? then Time(f.until.value) else Null);
    q := AndWhen(f.cursor.Stamp?, q, OccurredAt, Less, if f.cursor.Stamp? then Time(f.cursor.at) else Null);
  }

  /** The query grown filter by filter: it selects exactly the events the filters mean, before the cursor. */
  method BuildEventQuery(tenant: int, f: Filter) returns (q: Query)
    ensures WellNumbered(q)
    ensures forall e: Event :: Satisfies(EventRecord(e), q) <==>
              && e.tenant == tenant
              && (f.actor.Some? ==> e.actor == f.actor)
              && (f.action != "" ==> e.action == f.action)
              && (f.resource != "" ==> e.resource == f.resource)
              && (f.outcome != "" ==> e.outcome == f.outcome)
              && (f.since.Some? ==> f.since.value <= e.at)
              && (f.until.Some? ==> e.at <= f.until.value)
              && (f.cursor.Stamp? ==> e.at < f.cursor.at)
  {
    q := AndFields(tenant, f);
    q := AndTimes(q, f);
  }

  // ----- One page -----

  ghost predicate NewestFirst(rows: seq<Event>) {
    forall i, j | 0 <= i < j < |rows| :: rows[i].at >= rows[j].at && rows[i] != rows[j]
  }

  /** Some n newest of the events, or all if they are fewer, newest first; ties anyhow. */
  ghost predicate IsNewest(rows: seq<Event>, events: set<Event>, n: nat) {
    && NewestFirst(rows)
    && (forall e | e in rows :: e in events)
    && |rows| == (if |events| <= n then |events| else n)
    && (forall e, r | e in events && e !in rows && r in rows :: e.at <= r.at)
  }

  ghost predicate IsPage(events: set<Event>, limit: nat, page: seq<Event>, next: Option<int>)
    requires 1 <= limit
  {
    && IsNewest(page, events, limit)
    && next == if |events| > limit then Some(page[limit - 1].at) else None
  }

  lemma {:induction false} NewestExists(events: set<Event>) returns (newest: Event)
    requires events != {}
    ensures newest in events && forall e | e in events :: e.at <= newest.at
    decreases |events|
  {
    var first := Pick(events);
    newest := first;
    if events != {first} {
      var other := NewestExists(events - {first});
      assert forall e | e in events :: e == first || e in events - {first};
      newest := if other.at > first.at then other else first;
    }
  }

  /** ORDER BY occurred_at DESC LIMIT n: any of the answers the store may give. */
  method SelectNewest(events: set<Event>, n: nat) returns (rows: seq<Event>)
    ensures IsNewest(rows, events, n)
  {
    rows := [];
    var remaining := events;
    while remaining != {} && |rows| < n
      invariant remaining <= events && NewestFirst(rows) && |rows| <= n
      invariant |rows| + |remaining| == |events|
      invariant forall e :: e in rows <==> e in events && e !in remaining
      invariant forall r, e | r in rows && e in remaining :: e.at <= r.at
      decreases |remaining|
    {
      ghost var newest := NewestExists(remaining);
      var e :| e in remaining && forall other | other in remaining :: other.at <= e.at;
      assert forall i | 0 <= i < |rows| :: rows[i] in rows;
      rows, remaining := rows + [e], remaining - {e};
    }
  }

  lemma NewestButOne(rows: seq<Event>, events: set<Event>, n: nat)
    requires IsNewest(rows, events, n + 1) && |rows| == n + 1
    ensures IsNewest(rows[..n], events, n) && |events| > n
  {
    forall e, r | e in events && e !in rows[..n] && r in rows[..n] ensures e.at <= r.at {
      var i :| 0 <= i < n && rows[i] == r;
      if e in rows {
        assert e == rows[n];
      }
    }
  }

  method Scan(rows: seq<Event>) returns (events: seq<Event>)
    ensures events == rows
  {
    events := [];
    for i := 0 to |rows|
      invariant events == rows[..i]
    {
      events := events + [rows[i]];
    }
  }

  function Chosen(log: set<Event>, q: Query): set<Event> {
    set e | e in log && Satisfies(EventRecord(e), q)
  }

  /** The query with a limit bound by its last placeholder. */
  method RunQuery(log: set<Event>, q: Query, limit: nat) returns (rows: seq<Event>)
    requires WellNumbered(q)
    ensures IsNewest(rows, Chosen(log, q), limit)
  {
    var limited := WithLimit(q, limit);
    WithLimitMeans(q, limit);
    LimitIsBound(q, limit);
    assert Chosen(log, limited) == Chosen(log, q);
    rows := SelectNewest(Chosen(log, limited), LimitOf(limited, q.n));
  }

  /** The query, the loop over its rows, and the truncation that yields the cursor. */
  method FetchPage(log: set<Event>, q: Query, limit: nat) returns (events: seq<Event>, next: Option<int>)
    requires 1 <= limit && WellNumbered(q)
    ensures IsPage(Chosen(log, q), limit, events, next)
  {
    var rows := RunQuery(log, q, limit + 1);
    events := Scan(rows);
    next := None;
    if |events| > limit {
      NewestButOne(rows, Chosen(log, q), limit);
      events := events[..limit];
      next := Some(events[|events| - 1].at);
    }
  }

  class Service {
    var log: set<Event>

    constructor ()
      ensures log == {}
    {
      log := {};
    }

    /** Appends an event under a fresh id. */
    method Write(e: Event)
      requires forall other | other in log :: other.id != e.id
      modifies this
      ensures log == old(log) + {e}
    {
      log := log + {e};
    }

    method List(tenant: int, f: Filter) returns (events: seq<Event>, next: Option<int>)
      ensures IsPage(Before(Matching(log, tenant, f), AfterOf(f.cursor)), PageLimit(f.limit), events, next)
    {
      var limit := f.limit;
      if limit <= 0 || limit > 200 {
        limit := 50;
      }
      var q := BuildEventQuery(tenant, f);
      assert Chosen(log, q) == Before(Matching(log, tenant, f), AfterOf(f.cursor));
      events, next := FetchPage(log, q, limit);
    }

    /**
     The export asks for its cap of 10000 rows, which the list does not allow and
     replaces by 50: the export holds every matching event iff there are at most 50.
     */
    method Export(tenant: int, f: Filter) returns (events: seq<Event>)
      ensures IsNewest(events, Before(Matching(log, tenant, f), AfterOf(f.cursor)), 50)
      ensures (forall e | e in Before(Matching(log, tenant, f), AfterOf(f.cursor)) :: e in events)
              <==> |Before(Matching(log, tenant, f), AfterOf(f.cursor))| <= 50
    {
      var next;
      events, next := List(tenant, f.(limit := EXPORT_CAP));
      ghost var wanted := Before(Matching(log, tenant, f), AfterOf(f.cursor));
      assert Matching(log, tenant, f.(limit := EXPORT_CAP)) == Matching(log, tenant, f);
      NewestHoldsAllIff(events, wanted, 50);
    }
  }

  ghost function Elements(rows: seq<Event>): set<Event> {
    set e | e in rows
  }

  lemma {:induction false} DistinctCount(rows: seq<Event>)
    requires NewestFirst(rows)
    ensures |Elements(rows)| == |rows|
  {
    if rows == [] {
      assert Elements(rows) == {};
    } else {
      var n := |rows| - 1;
      DistinctCount(rows[..n]);
      assert rows[n] !in rows[..n];
      assert Elements(rows) == Elements(rows[..n]) + {rows[n]};
    }
  }

  lemma NewestHoldsAllIff(rows: seq<Event>, events: set<Event>, n: nat)
    requires IsNewest(rows, events, n)
    ensures (forall e | e in events :: e in rows) <==> |events| <= n
    ensures |events| <= n ==> Elements(rows) == events
  {
    DistinctCount(rows);
    if |events| <= n {
      SubsetOfSameSize(Elements(rows), events);
    } else if forall e | e in events :: e in rows {
      SubsetSize(events, Elements(rows));
    }
  }

  lemma SubsetOfSameSize(a: set<Event>, b: set<Event>)
    requires a <= b && |a| == |b|
    ensures a == b
  {
    assert |b - a| == |b| - |a|;
  }

  // ----- Walking the pages -----

  /**
   A walk: cursors[0] is absent, page i answers cursor i on the events that match
   at that moment (found[i]) and yields cursor i + 1; all cursors between exist.
   */
  ghost predicate IsWalk(found: seq<set<Event>>, pages: seq<seq<Event>>, cursors: seq<Option<int>>, limit: nat) {
    && 1 <= limit
    && |found| == |pages| && |cursors| == |pages| + 1
    && cursors[0].None?
    && (forall i | 0 < i < |pages| :: cursors[i].Some?)
    && (forall i | 0 <= i < |pages| :: IsPage(Before(found[i], cursors[i]), limit, pages[i], cursors[i + 1]))
  }

  /** Every event of page i is at or after the cursor it yields, and before its own. */
  lemma PageRange(found: seq<set<Event>>, pages: seq<seq<Event>>, cursors: seq<Option<int>>, limit: nat, i: nat,
                  e: Event)
    requires IsWalk(found, pages, cursors, limit) && i < |pages| && e in pages[i]
    ensures e in found[i]
    ensures cursors[i].Some? ==> e.at < cursors[i].value
    ensures cursors[i + 1].Some? ==> cursors[i + 1].value <= e.at
  {
    assert IsPage(Before(found[i], cursors[i]), limit, pages[i], cursors[i + 1]);
    var k :| 0 <= k < |pages[i]| && pages[i][k] == e;
    if cursors[i + 1].Some? && k < limit - 1 {
      assert pages[i][k].at >= pages[i][limit - 1].at;
    }
  }

  lemma {:induction false} CursorsFall(found: seq<set<Event>>, pages: seq<seq<Event>>, cursors: seq<Option<int>>,
                                       limit: nat, i: nat, j: nat)
    requires IsWalk(found, pages, cursors, limit) && 1 <= i <= j < |pages|
    ensures cursors[j].value <= cursors[i].value
    decreases j - i
  {
    if i < j {
      CursorsFall(found, pages, cursors, limit, i, j - 1);
      assert IsPage(Before(found[j - 1], cursors[j - 1]), limit, pages[j - 1], cursors[j - 1 + 1]);
      PageRange(found, pages, cursors, limit, j - 1, pages[j - 1][limit - 1]);
    }
  }

  /** Later pages are strictly older: no event is returned twice, whatever is written between the pages. */
  lemma LaterPagesAreOlder(found: seq<set<Event>>, pages: seq<seq<Event>>, cursors: seq<Option<int>>, limit: nat,
                           i: nat, j: nat, e: Event, f: Event)
    requires IsWalk(found, pages, cursors, limit) && i < j < |pages|
    requires e in pages[i] && f in pages[j]
    ensures f.at < e.at
  {
    PageRange(found, pages, cursors, limit, i, e);
    PageRange(found, pages, cursors, limit, j, f);
    CursorsFall(found, pages, cursors, limit, i + 1, j);
  }

  ghost predicate Returned(pages: seq<seq<Event>>, e: Event) {
    exists i :: 0 <= i < |pages| && e in pages[i]
  }

  /** The pages seen so far, one after the other. */
  function Flat(pages: seq<seq<Event>>): seq<Event> {
    if pages == [] then [] else Flat(pages[..|pages| - 1]) + pages[|pages| - 1]
  }

  lemma {:induction false} FlatIsReturned(pages: seq<seq<Event>>, e: Event)
    ensures e in Flat(pages) <==> Returned(pages, e)
  {
    if pages != [] {
      var n := |pages| - 1;
      FlatIsReturned(pages[..n], e);
      if i :| 0 <= i < |pages| && e in pages[i] {
        assert i == n || e in pages[..n][i];
      }
      if Returned(pages[..n], e) {
        var i :| 0 <= i < n && e in pages[..n][i];
        assert e in pages[i];
      }
    }
  }

  lemma WalkPrefix(found: seq<set<Event>>, pages: seq<seq<Event>>, cursors: seq<Option<int>>, limit: nat, n: nat)
    requires IsWalk(found, pages, cursors, limit) && n <= |pages|
    ensures IsWalk(found[..n], pages[..n], cursors[..n + 1], limit)
  {
    forall i | 0 <= i < n
      ensures IsPage(Before(found[..n][i], cursors[..n + 1][i]), limit, pages[..n][i], cursors[..n + 1][i + 1])
    {
      assert IsPage(Before(found[i], cursors[i]), limit, pages[i], cursors[i + 1]);
    }
  }

  lemma JoinNewest(a: seq<Event>, b: seq<Event>)
    requires NewestFirst(a) && NewestFirst(b)
    requires forall x, y | x in a && y in b :: y.at < x.at
    ensures NewestFirst(a + b)
  {
    var both: seq<Event> := a + b;
    forall i, j | 0 <= i < j < |both| ensures both[i].at >= both[j].at && both[i] != both[j] {
      if i < |a| <= j {
        assert a[i] in a && b[j - |a|] in b;
      }
    }
  }

  lemma NextPageIsOlder(found: seq<set<Event>>, pages: seq<seq<Event>>, cursors: seq<Option<int>>, limit: nat,
                        n: nat, x: Event, y: Event)
    requires IsWalk(found, pages, cursors, limit) && n < |pages|
    requires x in Flat(pages[..n]) && y in pages[n]
    ensures y.at < x.at
  {
    FlatIsReturned(pages[..n], x);
    var k :| 0 <= k < n && x in pages[..n][k];
    LaterPagesAreOlder(found, pages, cursors, limit, k, n, x, y);
  }

  lemma LastPageJoins(found: seq<set<Event>>, pages: seq<seq<Event>>, cursors: seq<Option<int>>, limit: nat)
    requires IsWalk(found, pages, cursors, limit) && pages != []
    requires NewestFirst(Flat(pages[..|pages| - 1]))
    ensures NewestFirst(Flat(pages))
  {
    var n := |pages| - 1;
    assert IsPage(Before(found[n], cursors[n]), limit, pages[n], cursors[n + 1]);
    forall x, y | x in Flat(pages[..n]) && y in pages[n] ensures y.at < x.at {
      NextPageIsOlder(found, pages, cursors, limit, n, x, y);
    }
    JoinNewest(Flat(pages[..n]), pages[n]);
  }

  /** The concatenated pages run newest first and repeat nothing. */
  lemma {:induction false} WalkNewestFirst(found: seq<set<Event>>, pages: seq<seq<Event>>, cursors: seq<Option<int>>,
                                           limit: nat)
    requires IsWalk(found, pages, cursors, limit)
    ensures NewestFirst(Flat(pages))
  {
    if pages != [] {
      var n := |pages| - 1;
      WalkPrefix(found, pages, cursors, limit, n);
      WalkNewestFirst(found[..n], pages[..n], cursors[..n + 1], limit);
      LastPageJoins(found, pages, cursors, limit);
    }
  }

  // ----- A log nobody writes to -----

  /** A walk to the end over a fixed set of matching events. */
  ghost predicate IsWholeWalk(events: set<Event>, pages: seq<seq<Event>>, cursors: seq<Option<int>>, limit: nat) {
    && pages != []
    && IsWalk(seq(|pages|, _ => events), pages, cursors, limit)
    && cursors[|pages|].None?
  }

  /** Every page with a successor uses up `limit` of the events: the walk terminates. */
  lemma {:induction false} WalkShrinks(events: set<Event>, pages: seq<seq<Event>>, cursors: seq<Option<int>>,
                                       limit: nat, i: nat)
    requires IsWalk(seq(|pages|, _ => events), pages, cursors, limit) && i < |pages|
    ensures |Before(events, cursors[i])| + i * limit <= |events|
  {
    if i == 0 {
      assert Before(events, cursors[0]) == events;
    } else {
      WalkShrinks(events, pages, cursors, limit, i - 1);
      assert IsPage(Before(events, cursors[i - 1]), limit, pages[i - 1], cursors[i - 1 + 1]);
      if i > 1 {
        CursorsFall(seq(|pages|, _ => events), pages, cursors, limit, i - 1, i);
      }
      PageUsesUp(events, cursors[i - 1], limit, pages[i - 1], cursors[i].value);
      assert i * limit == (i - 1) * limit + limit;
    }
  }

  lemma PageUsesUp(events: set<Event>, cursor: Option<int>, limit: nat, page: seq<Event>, next: int)
    requires 1 <= limit && IsPage(Before(events, cursor), limit, page, Some(next))
    requires cursor.Some? ==> next <= cursor.value
    ensures |Before(events, Some(next))| + limit <= |Before(events, cursor)|
  {
    var rest, later, used := Before(events, cursor), Before(events, Some(next)), Elements(page);
    DistinctCount(page);
    forall e | e in used ensures next <= e.at {
      var k :| 0 <= k < |page| && page[k] == e;
      assert k == limit - 1 || page[k].at >= page[limit - 1].at;
    }
    assert later !! used;
    SubsetSize(later + used, rest);
  }

  lemma WalkTerminates(events: set<Event>, pages: seq<seq<Event>>, cursors: seq<Option<int>>, limit: nat)
    requires IsWalk(seq(|pages|, _ => events), pages, cursors, limit) && pages != []
    ensures (|pages| - 1) * limit <= |events|
  {
    WalkShrinks(events, pages, cursors, limit, |pages| - 1);
  }

  /** Up to page i, an event is returned, or still ahead, or was cut off with the timestamp of a page's last event. */
  ghost predicate CutOff(pages: seq<seq<Event>>, cursors: seq<Option<int>>, e: Event)
    requires |cursors| == |pages| + 1
  {
    exists i :: 0 <= i < |pages| && cursors[i + 1] == Some(e.at) && e !in pages[i]
  }

  lemma {:induction false} ReturnedAheadOrCutOff(events: set<Event>, pages: seq<seq<Event>>, cursors: seq<Option<int>>,
                                                 limit: nat, e: Event, i: nat)
    requires IsWalk(seq(|pages|, _ => events), pages, cursors, limit) && i < |pages| && e in events
    ensures e in Before(events, cursors[i]) || Returned(pages, e) || CutOff(pages, cursors, e)
  {
    if i > 0 {
      ReturnedAheadOrCutOff(events, pages, cursors, limit, e, i - 1);
      if e in Before(events, cursors[i - 1]) && e !in pages[i - 1] {
        assert IsPage(Before(events, cursors[i - 1]), limit, pages[i - 1], cursors[i - 1 + 1]);
        assert pages[i - 1][limit - 1] in pages[i - 1];
        assert e.at <= cursors[i].value;
      }
    }
  }

  lemma MissingIsCutOff(events: set<Event>, pages: seq<seq<Event>>, cursors: seq<Option<int>>, limit: nat, e: Event)
    requires IsWholeWalk(events, pages, cursors, limit) && e in events && !Returned(pages, e)
    ensures CutOff(pages, cursors, e)
  {
    var n := |pages| - 1;
    ReturnedAheadOrCutOff(events, pages, cursors, limit, e, n);
    assert IsPage(Before(events, cursors[n]), limit, pages[n], cursors[n + 1]);
    NewestHoldsAllIff(pages[n], Before(events, cursors[n]), limit);
  }

  lemma CutOffIsMissing(events: set<Event>, pages: seq<seq<Event>>, cursors: seq<Option<int>>, limit: nat,
                        e: Event, i: nat, j: nat)
    requires IsWholeWalk(events, pages, cursors, limit)
    requires i < |pages| && cursors[i + 1] == Some(e.at) && e !in pages[i] && j < |pages|
    ensures e !in pages[j]
  {
    if e in pages[j] {
      var found := seq(|pages|, _ => events);
      assert IsPage(Before(events, cursors[i]), limit, pages[i], cursors[i + 1]);
      var last := pages[i][limit - 1];
      if i < j {
        LaterPagesAreOlder(found, pages, cursors, limit, i, j, last, e);
      } else {
        LaterPagesAreOlder(found, pages, cursors, limit, j, i, e, last);
      }
    }
  }

  /**
   In a walk to the end of a fixed log, an event is missing exactly if some page ended on its timestamp
   without it.
   */
  lemma MissingIffCutOff(events: set<Event>, pages: seq<seq<Event>>, cursors: seq<Option<int>>, limit: nat, e: Event)
    requires IsWholeWalk(events, pages, cursors, limit) && e in events
    ensures !Returned(pages, e) <==> CutOff(pages, cursors, e)
  {
    if !Returned(pages, e) {
      MissingIsCutOff(events, pages, cursors, limit, e);
    }
    if i :| 0 <= i < |pages| && cursors[i + 1] == Some(e.at) && e !in pages[i] {
      forall j | 0 <= j < |pages| ensures e !in pages[j] {
        CutOffIsMissing(events, pages, cursors, limit, e, i, j);
      }
    }
  }

  ghost predicate DistinctStamps(events: set<Event>) {
    forall a, b | a in events && b in events && a != b :: a.at != b.at
  }

  /** With distinct timestamps the concatenated pages are the matching events, newest first, each exactly once. */
  lemma DistinctStampsMissNothing(events: set<Event>, pages: seq<seq<Event>>, cursors: seq<Option<int>>, limit: nat)
    requires IsWholeWalk(events, pages, cursors, limit) && DistinctStamps(events)
    ensures NewestFirst(Flat(pages)) && Elements(Flat(pages)) == events
  {
    var found := seq(|pages|, _ => events);
    WalkNewestFirst(found, pages, cursors, limit);
    forall e ensures e in Flat(pages) <==> e in events {
      FlatIsReturned(pages, e);
      if e in events {
        MissingIffCutOff(events, pages, cursors, limit, e);
        if i :| 0 <= i < |pages| && cursors[i + 1] == Some(e.at) && e !in pages[i] {
          assert IsPage(Before(events, cursors[i]), limit, pages[i], cursors[i + 1]);
          PageRange(found, pages, cursors, limit, i, pages[i][limit - 1]);
          assert false;
        }
      } else if i :| 0 <= i < |pages| && e in pages[i] {
        PageRange(found, pages, cursors, limit, i, e);
      }
    }
  }

  lemma ExtendWalk(events: set<Event>, pages: seq<seq<Event>>, cursors: seq<Option<int>>, limit: nat,
                   page: seq<Event>, next: Option<int>)
    requires 1 <= limit && IsWalk(seq(|pages|, _ => events), pages, cursors, limit)
    requires pages != [] ==> cursors[|pages|].Some?
    requires IsPage(Before(events, cursors[|pages|]), limit, page, next)
    ensures IsWalk(seq(|pages + [page]|, _ => events), pages + [page], cursors + [next], limit)
  {
    var longer, cs := pages + [page], cursors + [next];
    forall i | 0 <= i < |longer| ensures IsPage(Before(events, cs[i]), limit, longer[i], cs[i + 1]) {
      if i < |pages| {
        assert IsPage(Before(events, cursors[i]), limit, pages[i], cursors[i + 1]);
      }
    }
  }

  lemma NextIsNotLater(events: set<Event>, cursor: Option<int>, limit: nat, page: seq<Event>, next: Option<int>)
    requires 1 <= limit && IsPage(Before(events, cursor), limit, page, next) && next.Some?
    ensures cursor.Some? ==> next.value <= cursor.value
    ensures |Before(events, next)| < |Before(events, cursor)|
  {
    assert page[limit - 1] in page;
    PageUsesUp(events, cursor, limit, page, next.value);
  }

  lemma CursorIsNoFilter(log: set<Event>, tenant: int, f: Filter, cursor: CursorText)
    ensures Matching(log, tenant, f.(cursor := cursor)) == Matching(log, tenant, f)
  {
  }

  lemma NoPagesYet(events: set<Event>, limit: nat)
    requires 1 <= limit
    ensures IsWalk(seq(0, _ => events), [], [None], limit)
  {
  }

  /** A client that follows the cursors of the list to the end makes a whole walk. */
  method AllEventPages(service: Service, tenant: int, f: Filter)
    returns (pages: seq<seq<Event>>, cursors: seq<Option<int>>)
    requires f.cursor == NoCursor
    ensures IsWholeWalk(Matching(service.log, tenant, f), pages, cursors, PageLimit(f.limit))
  {
    ghost var events, limit := Matching(service.log, tenant, f), PageLimit(f.limit);
    hide IsWalk, IsPage, Before, Matching;
    pages, cursors := [], [None];
    var cursor, more := NoCursor, true;
    NoPagesYet(events, limit);
    while more
      invariant IsWalk(seq(|pages|, _ => events), pages, cursors, limit) && |cursors| == |pages| + 1
      invariant cursors[|pages|] == AfterOf(cursor)
      invariant if more then pages != [] ==> cursor.Stamp? else pages != [] && cursor == NoCursor
      decreases more, |Before(events, AfterOf(cursor))|
    {
      var page, next := service.List(tenant, f.(cursor := cursor));
      CursorIsNoFilter(service.log, tenant, f, cursor);
      ExtendWalk(events, pages, cursors, limit, page, next);
      pages, cursors := pages + [page], cursors + [next];
      if next.Some? {
        NextIsNotLater(events, AfterOf(cursor), limit, page, next);
        cursor := Stamp(next.value);
      } else {
        cursor, more := NoCursor, false;
      }
    }
  }

  // ----- When a walk misses nothing -----

  function Newer(events: set<Event>, at: int): set<Event> {
    set e | e in events && e.at > at
  }

  function NotOlder(events: set<Event>, at: int): set<Event> {
    set e | e in events && e.at >= at
  }

  /**
   Counting from the newest event, the events of this timestamp all fall into one
   block of `limit`: the first has as many before it as are newer, the last as many
   as are newer or equal, less itself.
   */
  predicate InOneBlock(events: set<Event>, limit: nat, at: int)
    requires 1 <= limit
  {
    |Newer(events, at)| / limit == (|NotOlder(events, at)| - 1) / limit
  }

  /** The events a cursor leaves behind. */
  function Gone(events: set<Event>, cursor: Option<int>): set<Event> {
    events - Before(events, cursor)
  }

  ghost predicate CutAt(events: set<Event>, pages: seq<seq<Event>>, cursors: seq<Option<int>>, i: nat)
    requires |cursors| == |pages| + 1 && i < |pages|
  {
    exists e :: e in events && cursors[i + 1] == Some(e.at) && e !in pages[i]
  }

  lemma WhereCut(events: set<Event>, pages: seq<seq<Event>>, cursors: seq<Option<int>>, e: Event) returns (i: nat)
    requires |cursors| == |pages| + 1 && e in events && CutOff(pages, cursors, e)
    ensures i < |pages| && CutAt(events, pages, cursors, i)
  {
    i :| i < |pages| && cursors[i + 1] == Some(e.at) && e !in pages[i];
  }

  /** A page that cuts nothing off leaves behind exactly what was behind it, and itself. */
  lemma PageIsBlock(events: set<Event>, pages: seq<seq<Event>>, cursors: seq<Option<int>>, limit: nat, i: nat)
    requires IsWalk(seq(|pages|, _ => events), pages, cursors, limit) && i < |pages|
    requires cursors[i + 1].Some? && !CutAt(events, pages, cursors, i)
    ensures Gone(events, cursors[i + 1]) == Gone(events, cursors[i]) + Elements(pages[i])
    ensures |Gone(events, cursors[i + 1])| == |Gone(events, cursors[i])| + limit
  {
    var found := seq(|pages|, _ => events);
    assert IsPage(Before(events, cursors[i]), limit, pages[i], cursors[i + 1]);
    var last := pages[i][limit - 1];
    PageRange(found, pages, cursors, limit, i, last);
    forall e | e in events
      ensures e in Gone(events, cursors[i + 1]) <==> e in Gone(events, cursors[i]) || e in pages[i]
    {
      if e in pages[i] {
        PageRange(found, pages, cursors, limit, i, e);
      }
    }
    DistinctCount(pages[i]);
    assert Gone(events, cursors[i]) !! Elements(pages[i]);
  }

  lemma NextMultiple(i: nat, limit: nat)
    ensures (i + 1) * limit == i * limit + limit
  {
  }

  lemma OneBlockMore(gone: set<Event>, before: set<Event>, i: nat, limit: nat)
    requires 1 <= i && |gone| == |before| + limit && |before| == (i - 1) * limit
    ensures |gone| == i * limit
  {
    NextMultiple(i - 1, limit);
  }

  /** Pages that cut nothing off are blocks of `limit` each. */
  lemma {:induction false} PagesAreBlocks(events: set<Event>, pages: seq<seq<Event>>, cursors: seq<Option<int>>,
                                          limit: nat, i: nat)
    requires IsWalk(seq(|pages|, _ => events), pages, cursors, limit) && i < |pages|
    requires forall j: nat | j < i :: !CutAt(events, pages, cursors, j)
    ensures |Gone(events, cursors[i])| == i * limit
  {
    if i == 0 {
      assert Gone(events, cursors[0]) == {};
    } else {
      PagesAreBlocks(events, pages, cursors, limit, i - 1);
      PageIsBlock(events, pages, cursors, limit, i - 1);
      OneBlockMore(Gone(events, cursors[i]), Gone(events, cursors[i - 1]), i, limit);
    }
  }

  lemma SameBlock(n: nat, limit: nat, i: nat)
    requires 1 <= limit && i * limit <= n < i * limit + limit
    ensures n / limit == i
  {
    Quotient(n, limit, i, n - i * limit);
  }

  lemma LaterBlock(n: nat, limit: nat, i: nat)
    requires 1 <= limit && i * limit + limit <= n
    ensures n / limit > i
  {
    NextMultiple(i, limit);
    if n / limit <= i {
      NextMultiple(n / limit, limit);
      Digits.MulMonotone(n / limit + 1, i + 1, limit);
    }
  }

  lemma StraddleCount(gone: set<Event>, page: set<Event>, last: Event, e: Event,
                      newer: set<Event>, notOlder: set<Event>, limit: nat, i: nat)
    requires 1 <= limit && |gone| == i * limit && |page| == limit && gone !! page
    requires last in page && e !in gone && e !in page
    requires gone <= newer <= gone + (page - {last}) && gone + page + {e} <= notOlder
    ensures |newer| / limit < (|notOlder| - 1) / limit
  {
    SubsetSize(gone, newer);
    SubsetSize(newer, gone + (page - {last}));
    SameBlock(|newer|, limit, i);
    SubsetSize(gone + page + {e}, notOlder);
    LaterBlock(|notOlder| - 1, limit, i);
  }

  lemma BlockCount(gone: set<Event>, page: set<Event>, e: Event, newer: set<Event>, notOlder: set<Event>, limit: nat,
                   i: nat)
    requires 1 <= limit && |gone| == i * limit && |page| <= limit && gone !! page
    requires gone <= newer && newer + {e} <= notOlder <= gone + page && e !in newer
    ensures |newer| / limit == (|notOlder| - 1) / limit
  {
    SubsetSize(gone, newer);
    SubsetSize(newer + {e}, notOlder);
    SubsetSize(notOlder, gone + page);
    SameBlock(|newer|, limit, i);
    SameBlock(|notOlder| - 1, limit, i);
  }

  /** What is newer than the last event of a page was left behind before, or is on the page. */
  lemma NewerThanLast(events: set<Event>, pages: seq<seq<Event>>, cursors: seq<Option<int>>, limit: nat, i: nat)
    requires IsWalk(seq(|pages|, _ => events), pages, cursors, limit) && i < |pages| && cursors[i + 1].Some?
    ensures |pages[i]| == limit && |Elements(pages[i])| == limit && pages[i][limit - 1].at == cursors[i + 1].value
    ensures Elements(pages[i]) <= Before(events, cursors[i])
    ensures var newer, last := Newer(events, cursors[i + 1].value), pages[i][limit - 1];
            Gone(events, cursors[i]) <= newer <= Gone(events, cursors[i]) + (Elements(pages[i]) - {last})
    ensures Gone(events, cursors[i]) + Elements(pages[i]) <= NotOlder(events, cursors[i + 1].value)
  {
    var found := seq(|pages|, _ => events);
    assert IsPage(Before(events, cursors[i]), limit, pages[i], cursors[i + 1]);
    var last := pages[i][limit - 1];
    PageRange(found, pages, cursors, limit, i, last);
    DistinctCount(pages[i]);
    forall x | x in Elements(pages[i]) ensures x in Before(events, cursors[i]) && x.at >= cursors[i + 1].value {
      PageRange(found, pages, cursors, limit, i, x);
    }
  }

  /** The first page that cuts an event off ends inside the events of one timestamp, across a block boundary. */
  lemma CutStraddles(events: set<Event>, pages: seq<seq<Event>>, cursors: seq<Option<int>>, limit: nat, i: nat,
                     e: Event)
    requires IsWalk(seq(|pages|, _ => events), pages, cursors, limit) && i < |pages|
    requires |Gone(events, cursors[i])| == i * limit
    requires e in events && cursors[i + 1] == Some(e.at) && e !in pages[i]
    ensures !InOneBlock(events, limit, e.at)
  {
    NewerThanLast(events, pages, cursors, limit, i);
    StraddleCount(Gone(events, cursors[i]), Elements(pages[i]), pages[i][limit - 1], e,
                  Newer(events, e.at), NotOlder(events, e.at), limit, i);
  }

  lemma NextIsUncut(events: set<Event>, pages: seq<seq<Event>>, cursors: seq<Option<int>>, limit: nat, i: nat)
    requires IsWalk(seq(|pages|, _ => events), pages, cursors, limit) && i < |pages|
    requires forall e | e in events :: InOneBlock(events, limit, e.at)
    requires forall j: nat | j < i :: !CutAt(events, pages, cursors, j)
    ensures !CutAt(events, pages, cursors, i)
  {
    PagesAreBlocks(events, pages, cursors, limit, i);
    forall e | e in events && cursors[i + 1] == Some(e.at) ensures e in pages[i] {
      if e !in pages[i] {
        CutStraddles(events, pages, cursors, limit, i, e);
      }
    }
  }

  lemma {:induction false} NoStraddleNoCut(events: set<Event>, pages: seq<seq<Event>>, cursors: seq<Option<int>>,
                                           limit: nat, i: nat)
    requires IsWalk(seq(|pages|, _ => events), pages, cursors, limit) && i <= |pages|
    requires forall e | e in events :: InOneBlock(events, limit, e.at)
    ensures forall j: nat | j < i :: !CutAt(events, pages, cursors, j)
  {
    hide InOneBlock, IsWalk, CutAt;
    if i > 0 {
      NoStraddleNoCut(events, pages, cursors, limit, i - 1);
      NextIsUncut(events, pages, cursors, limit, i - 1);
    }
  }

  lemma OnPageIsBetween(events: set<Event>, pages: seq<seq<Event>>, cursors: seq<Option<int>>, limit: nat, i: nat,
                        e: Event)
    requires IsWholeWalk(events, pages, cursors, limit) && i < |pages| && e in pages[i]
    requires forall x | x in events :: Returned(pages, x)
    ensures |Elements(pages[i])| <= limit && Gone(events, cursors[i]) !! Elements(pages[i])
    ensures Gone(events, cursors[i]) <= Newer(events, e.at)
    ensures NotOlder(events, e.at) <= Gone(events, cursors[i]) + Elements(pages[i])
  {
    var found := seq(|pages|, _ => events);
    assert IsPage(Before(events, cursors[i]), limit, pages[i], cursors[i + 1]);
    DistinctCount(pages[i]);
    PageRange(found, pages, cursors, limit, i, e);
    forall x | x in Elements(pages[i]) ensures x in Before(events, cursors[i]) {
      PageRange(found, pages, cursors, limit, i, x);
    }
    forall x | x in NotOlder(events, e.at) ensures x in Gone(events, cursors[i]) || x in pages[i] {
      var j: nat :| j < |pages| && x in pages[j];
      if j < i {
        CursorsFall(found, pages, cursors, limit, j + 1, i);
        PageRange(found, pages, cursors, limit, j, x);
      } else if i < j {
        LaterPagesAreOlder(found, pages, cursors, limit, i, j, e, x);
      }
    }
  }

  lemma CompleteIsUncut(events: set<Event>, pages: seq<seq<Event>>, cursors: seq<Option<int>>, limit: nat, i: nat)
    requires IsWholeWalk(events, pages, cursors, limit) && i < |pages|
    requires forall x | x in events :: Returned(pages, x)
    ensures !CutAt(events, pages, cursors, i)
  {
    if x :| x in events && cursors[i + 1] == Some(x.at) && x !in pages[i] {
      MissingIffCutOff(events, pages, cursors, limit, x);
    }
  }

  lemma OnPageIsOneBlock(events: set<Event>, pages: seq<seq<Event>>, cursors: seq<Option<int>>, limit: nat, i: nat,
                         e: Event)
    requires IsWholeWalk(events, pages, cursors, limit) && i < |pages| && e in pages[i] && e in events
    requires forall x | x in events :: Returned(pages, x)
    requires |Gone(events, cursors[i])| == i * limit
    ensures InOneBlock(events, limit, e.at)
  {
    OnPageIsBetween(events, pages, cursors, limit, i, e);
    BlockCount(Gone(events, cursors[i]), Elements(pages[i]), e, Newer(events, e.at), NotOlder(events, e.at), limit, i);
  }

  /** In a walk that returns everything, the events of one timestamp are on one page, hence in one block. */
  lemma CompleteIsOneBlock(events: set<Event>, pages: seq<seq<Event>>, cursors: seq<Option<int>>, limit: nat, e: Event)
    requires IsWholeWalk(events, pages, cursors, limit) && e in events
    requires forall x | x in events :: Returned(pages, x)
    ensures InOneBlock(events, limit, e.at)
  {
    assert Returned(pages, e);
    var i: nat :| i < |pages| && e in pages[i];
    forall j: nat | j < i ensures !CutAt(events, pages, cursors, j) {
      CompleteIsUncut(events, pages, cursors, limit, j);
    }
    PagesAreBlocks(events, pages, cursors, limit, i);
    OnPageIsOneBlock(events, pages, cursors, limit, i, e);
  }

  /**
   A walk to the end of a fixed log returns every matching event if and only if no
   page boundary falls between two events of one timestamp: ranked newest first, the
   events of every timestamp lie in one block of `limit`.
   */
  lemma CompleteIffNoStraddle(events: set<Event>, pages: seq<seq<Event>>, cursors: seq<Option<int>>, limit: nat)
    requires IsWholeWalk(events, pages, cursors, limit)
    ensures (forall e | e in events :: Returned(pages, e))
            <==> (forall e | e in events :: InOneBlock(events, limit, e.at))
  {
    if forall e | e in events :: Returned(pages, e) {
      forall e | e in events ensures InOneBlock(events, limit, e.at) {
        CompleteIsOneBlock(events, pages, cursors, limit, e);
      }
    }
    if forall e | e in events :: InOneBlock(events, limit, e.at) {
      NoStraddleNoCut(events, pages, cursors, limit, |pages|);
      forall e | e in events ensures Returned(pages, e) {
        MissingIffCutOff(events, pages, cursors, limit, e);
        if CutOff(pages, cursors, e) {
          var i := WhereCut(events, pages, cursors, e);
          assert false;
        }
      }
    }
  }

  /** Two events of one timestamp, one event a page: the walk ends without the second. */
  lemma TieIsLost(a: Event, b: Event)
    requires a.at == b.at && a != b
    ensures IsWholeWalk({a, b}, [[a], []], [None, Some(a.at), None], 1) && !Returned([[a], []], b)
  {
    var pages, cursors := [[a], []], [None, Some(a.at), None];
    assert Before({a, b}, None) == {a, b} && Before({a, b}, Some(a.at)) == {};
    assert IsPage(Before({a, b}, cursors[0]), 1, pages[0], cursors[1]);
    assert IsPage(Before({a, b}, cursors[1]), 1, pages[1], cursors[2]);
  }
}
