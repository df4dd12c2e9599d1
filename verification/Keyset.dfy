/**
 Paging by id: a page asks for one row more than it returns, ordered by id and
 beyond a cursor. The tenant and user lists hand out the id of the first row not
 returned as the next cursor; the usual scheme hands out the last one returned.
 Tables are seen here as the set of the ids of their matching rows.
 */
module Keyset {
  import opened Base

  datatype Scheme = FirstNotReturned | LastReturned

  datatype Page = Page(ids: seq<int>, next: Option<int>)

  ghost predicate StrictlyAscending(ids: seq<int>) {
    forall i, j | 0 <= i < j < |ids| :: ids[i] < ids[j]
  }

  /** How many leading ids the condition id > cursor drops. */
  function Dropped(ids: seq<int>, cursor: Option<int>): (n: nat)
    ensures n <= |ids|
  {
    if cursor.None? || ids == [] || ids[0] > cursor.value then 0
    else 1 + Dropped(ids[1..], cursor)
  }

  /** In an ascending sequence exactly the ids above the cursor remain. */
  lemma {:induction false} DroppedSplits(ids: seq<int>, cursor: Option<int>, i: nat)
    requires StrictlyAscending(ids) && i < |ids|
    ensures i >= Dropped(ids, cursor) <==> (cursor.Some? ==> ids[i] > cursor.value)
  {
    if cursor.Some? && ids[0] <= cursor.value && i > 0 {
      DroppedSplits(ids[1..], cursor, i - 1);
    }
  }

  lemma DroppedAt(ids: seq<int>, n: nat)
    requires StrictlyAscending(ids) && n < |ids|
    ensures Dropped(ids, Some(ids[n])) == n + 1
  {
    DroppedSplits(ids, Some(ids[n]), n);
    if n + 1 < |ids| {
      DroppedSplits(ids, Some(ids[n]), n + 1);
    }
  }

  /** WHERE id > cursor ORDER BY id LIMIT limit + 1; then the extra row, if any, gives way to a cursor. */
  function PageAt(scheme: Scheme, ids: seq<int>, cursor: Option<int>, limit: nat): Page
    requires 1 <= limit
  {
    var from := Dropped(ids, cursor);
    if |ids| - from > limit then
      Page(ids[from..from + limit],
           Some(if scheme == FirstNotReturned then ids[from + limit] else ids[from + limit - 1]))
    else
      Page(ids[from..], None)
  }

  /** LIMIT n. */
  function Take(ids: seq<int>, n: nat): seq<int> {
    if |ids| <= n then ids else ids[..n]
  }

  lemma TakeOfSuffix(ids: seq<int>, from: nat, n: nat)
    requires from <= |ids|
    ensures Take(ids[from..], n) == ids[from..if |ids| - from <= n then |ids| else from + n]
  {
  }

  lemma SliceOfSlice(ids: seq<int>, from: nat, n: nat, m: nat)
    requires m <= n && from + n <= |ids|
    ensures ids[from..from + n][..m] == ids[from..from + m]
  {
  }

  /** The page in terms of the rows fetched: limit + 1 of those beyond the cursor. */
  lemma PageOfFetched(scheme: Scheme, ids: seq<int>, cursor: Option<int>, limit: nat, fetched: seq<int>)
    requires 1 <= limit && fetched == Take(ids[Dropped(ids, cursor)..], limit + 1)
    ensures var page := PageAt(scheme, ids, cursor, limit);
            && page.ids == Take(fetched, limit)
            && (|fetched| <= limit ==> page.next.None?)
            && (|fetched| > limit ==>
                  page.next == Some(if scheme == FirstNotReturned then fetched[limit] else fetched[limit - 1]))
  {
    hide Dropped;
    var from := Dropped(ids, cursor);
    TakeOfSuffix(ids, from, limit + 1);
    if |ids| - from > limit {
      SliceOfSlice(ids, from, limit + 1, limit);
    } else {
      assert ids[from..] == ids[from..|ids|];
    }
  }

  lemma FetchedAreMembers(ids: seq<int>, from: nat, n: nat)
    requires from <= |ids|
    ensures forall i | 0 <= i < |Take(ids[from..], n)| :: Take(ids[from..], n)[i] in ids
  {
    forall i | 0 <= i < |Take(ids[from..], n)| ensures Take(ids[from..], n)[i] in ids {
      assert Take(ids[from..], n)[i] == ids[from + i];
    }
  }

  function Flat(pages: seq<seq<int>>): seq<int> {
    if pages == [] then [] else pages[0] + Flat(pages[1..])
  }

  // ----- Tables that change between pages -----

  /** Follow the cursors; tables[i] holds the matching ids, in order, when page i is asked for. */
  function Walk(scheme: Scheme, tables: seq<seq<int>>, cursor: Option<int>, limit: nat): seq<seq<int>>
    requires 1 <= limit
  {
    if tables == [] then [] else
    var p := PageAt(scheme, tables[0], cursor, limit);
    [p.ids] + if p.next.None? then [] else Walk(scheme, tables[1..], p.next, limit)
  }

  lemma PageMember(scheme: Scheme, ids: seq<int>, cursor: Option<int>, limit: nat, x: int)
    requires 1 <= limit && StrictlyAscending(ids)
    requires x in PageAt(scheme, ids, cursor, limit).ids
    ensures var p := PageAt(scheme, ids, cursor, limit);
            && x in ids && (cursor.Some? ==> x > cursor.value)
            && (p.next.Some? ==> x <= p.next.value)
  {
    var p, from := PageAt(scheme, ids, cursor, limit), Dropped(ids, cursor);
    var i :| 0 <= i < |p.ids| && p.ids[i] == x;
    assert ids[from + i] == x;
    DroppedSplits(ids, cursor, from + i);
  }

  lemma PageBounds(scheme: Scheme, ids: seq<int>, cursor: Option<int>, limit: nat)
    requires 1 <= limit && StrictlyAscending(ids)
    ensures var p := PageAt(scheme, ids, cursor, limit);
            && StrictlyAscending(p.ids)
            && (forall x | x in p.ids :: x in ids && (cursor.Some? ==> x > cursor.value))
            && (p.next.Some? ==> forall x | x in p.ids :: x <= p.next.value)
            && (p.next.Some? && cursor.Some? ==> p.next.value > cursor.value)
  {
    var p := PageAt(scheme, ids, cursor, limit);
    forall x | x in p.ids
      ensures x in ids && (cursor.Some? ==> x > cursor.value) && (p.next.Some? ==> x <= p.next.value)
    {
      PageMember(scheme, ids, cursor, limit, x);
    }
    if p.next.Some? {
      DroppedSplits(ids, cursor, Dropped(ids, cursor) + limit - 1);
    }
  }

  lemma {:induction false} WalkAscends(scheme: Scheme, tables: seq<seq<int>>, cursor: Option<int>, limit: nat)
    requires 1 <= limit && forall i | 0 <= i < |tables| :: StrictlyAscending(tables[i])
    ensures StrictlyAscending(Flat(Walk(scheme, tables, cursor, limit)))
    ensures cursor.Some? ==> forall x | x in Flat(Walk(scheme, tables, cursor, limit)) :: x > cursor.value
  {
    if tables != [] {
      var p := PageAt(scheme, tables[0], cursor, limit);
      PageBounds(scheme, tables[0], cursor, limit);
      var walk := Walk(scheme, tables, cursor, limit);
      if p.next.None? {
        assert walk[1..] == [];
        assert Flat(walk) == p.ids;
      } else {
        var rest := Walk(scheme, tables[1..], p.next, limit);
        assert walk[1..] == rest;
        WalkAscends(scheme, tables[1..], p.next, limit);
        JoinAscending(p.ids, Flat(rest), p.next.value);
      }
    }
  }

  lemma JoinAscending(a: seq<int>, b: seq<int>, between: int)
    requires StrictlyAscending(a) && StrictlyAscending(b)
    requires (forall x | x in a :: x <= between) && (forall x | x in b :: x > between)
    ensures StrictlyAscending(a + b)
  {
    forall i, j | 0 <= i < j < |a + b| ensures (a + b)[i] < (a + b)[j] {
      if i < |a| <= j {
        assert a[i] in a && b[j - |a|] in b;
      }
    }
  }

  /** Under any inserts and deletes between pages, no row is returned twice. */
  lemma NoRowTwice(scheme: Scheme, tables: seq<seq<int>>, limit: nat)
    requires 1 <= limit && forall i | 0 <= i < |tables| :: StrictlyAscending(tables[i])
    ensures var all := Flat(Walk(scheme, tables, None, limit));
            forall i, j | 0 <= i < j < |all| :: all[i] != all[j]
  {
    WalkAscends(scheme, tables, None, limit);
  }

  /** Does the walk reach a page without a next cursor? */
  predicate Ends(scheme: Scheme, tables: seq<seq<int>>, cursor: Option<int>, limit: nat)
    requires 1 <= limit
  {
    tables != []
    && var p := PageAt(scheme, tables[0], cursor, limit);
    p.next.None? || Ends(scheme, tables[1..], p.next, limit)
  }

  /** The cursors a walk is handed. */
  function Cursors(scheme: Scheme, tables: seq<seq<int>>, cursor: Option<int>, limit: nat): seq<int>
    requires 1 <= limit
  {
    if tables == [] then [] else
    var p := PageAt(scheme, tables[0], cursor, limit);
    if p.next.None? then [] else [p.next.value] + Cursors(scheme, tables[1..], p.next, limit)
  }

  lemma FlatOfStep(scheme: Scheme, tables: seq<seq<int>>, cursor: Option<int>, limit: nat)
    requires 1 <= limit && tables != []
    ensures var p := PageAt(scheme, tables[0], cursor, limit);
            Flat(Walk(scheme, tables, cursor, limit))
            == p.ids + if p.next.None? then [] else Flat(Walk(scheme, tables[1..], p.next, limit))
  {
    var p := PageAt(scheme, tables[0], cursor, limit);
    var walk := Walk(scheme, tables, cursor, limit);
    assert walk[1..] == if p.next.None? then [] else Walk(scheme, tables[1..], p.next, limit);
  }

  lemma AtPage(scheme: Scheme, ids: seq<int>, cursor: Option<int>, limit: nat, i: nat)
    requires 1 <= limit
    requires Dropped(ids, cursor) <= i < Dropped(ids, cursor) + |PageAt(scheme, ids, cursor, limit).ids|
    ensures i < |ids| && ids[i] in PageAt(scheme, ids, cursor, limit).ids
  {
    hide Dropped;
    assert PageAt(scheme, ids, cursor, limit).ids[i - Dropped(ids, cursor)] == ids[i];
  }

  /** A row beyond the cursor that is not on the page is the first row not returned, or later. */
  lemma RowOffPage(scheme: Scheme, ids: seq<int>, cursor: Option<int>, limit: nat, x: int)
    requires 1 <= limit && StrictlyAscending(ids) && x in ids && (cursor.Some? ==> x > cursor.value)
    requires x !in PageAt(scheme, ids, cursor, limit).ids
    ensures var next := PageAt(scheme, ids, cursor, limit).next;
            next.Some? && if scheme == LastReturned then x > next.value else x >= next.value
  {
    hide Dropped;
    var p, from := PageAt(scheme, ids, cursor, limit), Dropped(ids, cursor);
    var i :| 0 <= i < |ids| && ids[i] == x;
    DroppedSplits(ids, cursor, i);
    if i < from + |p.ids| {
      AtPage(scheme, ids, cursor, limit, i);
      assert false;
    }
  }

  lemma RowOnPage(ids: seq<int>, cursor: Option<int>, limit: nat, x: int)
    requires 1 <= limit && StrictlyAscending(ids)
    requires x in PageAt(FirstNotReturned, ids, cursor, limit).ids
    ensures var next := PageAt(FirstNotReturned, ids, cursor, limit).next;
            next.Some? ==> x < next.value
  {
    hide Dropped;
    var p, from := PageAt(FirstNotReturned, ids, cursor, limit), Dropped(ids, cursor);
    var k :| 0 <= k < |p.ids| && p.ids[k] == x;
    assert ids[from + k] == x;
  }

  lemma {:induction false} CursorsBeyond(scheme: Scheme, tables: seq<seq<int>>, cursor: Option<int>, limit: nat)
    requires 1 <= limit && cursor.Some? && forall i | 0 <= i < |tables| :: StrictlyAscending(tables[i])
    ensures forall c | c in Cursors(scheme, tables, cursor, limit) :: c > cursor.value
  {
    if tables != [] {
      var p := PageAt(scheme, tables[0], cursor, limit);
      PageBounds(scheme, tables[0], cursor, limit);
      if p.next.Some? {
        CursorsBeyond(scheme, tables[1..], p.next, limit);
      }
    }
  }

  /** What one page adds: nothing later equals a cursor handed out, or anything up to it. */
  lemma StableStep(scheme: Scheme, tables: seq<seq<int>>, cursor: Option<int>, limit: nat, x: int)
    requires 1 <= limit && tables != [] && (cursor.Some? ==> x > cursor.value)
    requires forall i | 0 <= i < |tables| :: StrictlyAscending(tables[i]) && x in tables[i]
    ensures var p := PageAt(scheme, tables[0], cursor, limit);
            var all, handed := Flat(Walk(scheme, tables, cursor, limit)), Cursors(scheme, tables, cursor, limit);
            if p.next.None? then x in all && x !in handed
            else if x > p.next.value then
              && (x in all <==> x in Flat(Walk(scheme, tables[1..], p.next, limit)))
              && (x in handed <==> x in Cursors(scheme, tables[1..], p.next, limit))
            else
              && (x in all <==> scheme == LastReturned || x !in handed)
  {
    var p, rest := PageAt(scheme, tables[0], cursor, limit), tables[1..];
    FlatOfStep(scheme, tables, cursor, limit);
    PageBounds(scheme, tables[0], cursor, limit);
    if x !in p.ids {
      RowOffPage(scheme, tables[0], cursor, limit, x);
    } else if scheme == FirstNotReturned {
      RowOnPage(tables[0], cursor, limit, x);
    }
    if p.next.Some? {
      hide Walk, PageAt, StrictlyAscending;
      WalkAscends(scheme, rest, p.next, limit);
      CursorsBeyond(scheme, rest, p.next, limit);
    }
  }

  /**
   However the table changes between the pages: in a walk that ends, a row that is
   there for every page is returned, unless it is handed out as a cursor, which
   only the first row not returned can be.
   */
  lemma {:induction false} StableRowReturned(scheme: Scheme, tables: seq<seq<int>>, cursor: Option<int>, limit: nat,
                                             x: int)
    requires 1 <= limit && Ends(scheme, tables, cursor, limit) && (cursor.Some? ==> x > cursor.value)
    requires forall i | 0 <= i < |tables| :: StrictlyAscending(tables[i]) && x in tables[i]
    ensures x in Flat(Walk(scheme, tables, cursor, limit))
            <==> scheme == LastReturned || x !in Cursors(scheme, tables, cursor, limit)
    decreases |tables|
  {
    hide Walk, Flat, Cursors, PageAt, StrictlyAscending;
    var p := PageAt(scheme, tables[0], cursor, limit);
    StableStep(scheme, tables, cursor, limit, x);
    if p.next.Some? && x > p.next.value {
      StableRowReturned(scheme, tables[1..], p.next, limit, x);
    }
  }

  // ----- A fixed table -----

  /** Where the cursor leaves off: beyond the lost row, or at the first row not returned. */
  lemma NextLeavesOff(scheme: Scheme, ids: seq<int>, cursor: Option<int>, limit: nat)
    requires 1 <= limit && StrictlyAscending(ids)
    requires PageAt(scheme, ids, cursor, limit).next.Some?
    ensures Dropped(ids, PageAt(scheme, ids, cursor, limit).next)
            == Dropped(ids, cursor) + limit + if scheme == FirstNotReturned then 1 else 0
  {
    var from := Dropped(ids, cursor);
    DroppedAt(ids, if scheme == FirstNotReturned then from + limit else from + limit - 1);
  }

  /** The walk to the end of a table nobody changes. */
  function WholeWalk(scheme: Scheme, ids: seq<int>, cursor: Option<int>, limit: nat): seq<seq<int>>
    requires 1 <= limit && StrictlyAscending(ids)
    decreases |ids| - Dropped(ids, cursor)
  {
    var p := PageAt(scheme, ids, cursor, limit);
    if p.next.None? then [p.ids] else
    NextLeavesOff(scheme, ids, cursor, limit);
    [p.ids] + WholeWalk(scheme, ids, p.next, limit)
  }

  lemma FlatOfWalk(scheme: Scheme, ids: seq<int>, cursor: Option<int>, limit: nat)
    requires 1 <= limit && StrictlyAscending(ids)
    ensures var p := PageAt(scheme, ids, cursor, limit);
            Flat(WholeWalk(scheme, ids, cursor, limit))
            == if p.next.None? then p.ids else p.ids + Flat(WholeWalk(scheme, ids, p.next, limit))
  {
    var p := PageAt(scheme, ids, cursor, limit);
    var walk := WholeWalk(scheme, ids, cursor, limit);
    if p.next.None? {
      assert walk[1..] == [];
    } else {
      assert walk[1..] == WholeWalk(scheme, ids, p.next, limit);
    }
  }

  lemma SplitSuffix(ids: seq<int>, from: nat, n: nat)
    requires from + n <= |ids|
    ensures ids[from..] == ids[from..from + n] + ids[from + n..]
  {
  }

  lemma {:induction false} CompleteWalk(ids: seq<int>, cursor: Option<int>, limit: nat, start: nat)
    requires 1 <= limit && StrictlyAscending(ids) && start == Dropped(ids, cursor)
    ensures Flat(WholeWalk(LastReturned, ids, cursor, limit)) == ids[start..]
    decreases |ids| - start
  {
    var p := PageAt(LastReturned, ids, cursor, limit);
    FlatOfWalk(LastReturned, ids, cursor, limit);
    if p.next.Some? {
      NextLeavesOff(LastReturned, ids, cursor, limit);
      CompleteWalk(ids, p.next, limit, start + limit);
      SplitSuffix(ids, start, limit);
    }
  }

  /** With the last returned id as cursor every row beyond the first cursor is returned exactly once, in order. */
  lemma LastReturnedIsComplete(ids: seq<int>, cursor: Option<int>, limit: nat)
    requires 1 <= limit && StrictlyAscending(ids)
    ensures Flat(WholeWalk(LastReturned, ids, cursor, limit)) == ids[Dropped(ids, cursor)..]
  {
    CompleteWalk(ids, cursor, limit, Dropped(ids, cursor));
  }

  /** Is a row at this index ever returned? */
  predicate Shown(index: nat, limit: nat) {
    index % (limit + 1) != limit
  }

  /** The rows at the indices i, from some index on, with i mod (limit + 1) != limit. */
  function Kept(ids: seq<int>, limit: nat, from: nat): seq<int>
    requires from <= |ids|
    decreases |ids| - from
  {
    if from == |ids| then [] else
    (if Shown(from, limit) then [ids[from]] else []) + Kept(ids, limit, from + 1)
  }

  lemma ModFromStart(start: nat, size: nat, j: nat)
    requires 1 <= size && start % size == 0 && j <= size
    ensures j < size ==> (start + j) % size == j
    ensures j == size ==> (start + j) % size == 0
  {
    var block := start / size;
    assert start == block * size;
    if j < size {
      ModOfBlock(block, size, j);
    } else {
      assert start + size == (block + 1) * size;
      ModOfBlock(block + 1, size, 0);
    }
  }

  lemma EmptySlice(ids: seq<int>, from: nat, rest: seq<int>)
    requires from <= |ids|
    ensures ids[from..from] + rest == rest
  {
  }

  lemma JoinSlice(ids: seq<int>, from: nat, end: nat, rest: seq<int>)
    requires from < end <= |ids|
    ensures [ids[from]] + (ids[from + 1..end] + rest) == ids[from..end] + rest
  {
  }

  lemma {:induction false} KeptRun(ids: seq<int>, limit: nat, from: nat, end: nat)
    requires from <= end <= |ids| && forall j: nat | from <= j < end :: Shown(j, limit)
    ensures Kept(ids, limit, from) == ids[from..end] + Kept(ids, limit, end)
    decreases end - from
  {
    hide Shown;
    if from == end {
      EmptySlice(ids, from, Kept(ids, limit, end));
    } else {
      assert Shown(from, limit);
      KeptRun(ids, limit, from + 1, end);
      JoinSlice(ids, from, end, Kept(ids, limit, end));
    }
  }

  lemma KeptInBlock(ids: seq<int>, limit: nat, start: nat, end: nat)
    requires start % (limit + 1) == 0 && start <= end <= start + limit && end <= |ids|
    ensures Kept(ids, limit, start) == ids[start..end] + Kept(ids, limit, end)
  {
    forall j: nat | start <= j < end ensures Shown(j, limit) {
      ModFromStart(start, limit + 1, j - start);
    }
    KeptRun(ids, limit, start, end);
  }

  /** One whole block: its first `limit` rows are kept, its last is not. */
  lemma KeptWholeBlock(ids: seq<int>, limit: nat, start: nat)
    requires start % (limit + 1) == 0 && start + limit < |ids|
    ensures Kept(ids, limit, start) == ids[start..start + limit] + Kept(ids, limit, start + limit + 1)
  {
    KeptInBlock(ids, limit, start, start + limit);
    ModFromStart(start, limit + 1, limit);
  }

  lemma KeptTail(ids: seq<int>, limit: nat, start: nat)
    requires start % (limit + 1) == 0 && start <= |ids| <= start + limit
    ensures Kept(ids, limit, start) == ids[start..]
  {
    KeptInBlock(ids, limit, start, |ids|);
    assert ids[start..] == ids[start..|ids|];
  }

  lemma {:induction false} SkippingWalk(ids: seq<int>, cursor: Option<int>, limit: nat, start: nat)
    requires 1 <= limit && StrictlyAscending(ids)
    requires start % (limit + 1) == 0 && start == Dropped(ids, cursor)
    ensures Flat(WholeWalk(FirstNotReturned, ids, cursor, limit)) == Kept(ids, limit, start)
    decreases |ids| - start
  {
    var p := PageAt(FirstNotReturned, ids, cursor, limit);
    FlatOfWalk(FirstNotReturned, ids, cursor, limit);
    if p.next.None? {
      KeptTail(ids, limit, start);
    } else {
      NextLeavesOff(FirstNotReturned, ids, cursor, limit);
      ModFromStart(start, limit + 1, limit + 1);
      SkippingWalk(ids, p.next, limit, start + limit + 1);
      KeptWholeBlock(ids, limit, start);
    }
  }

  /** What the tenant and user lists return in all: the rows at indices i with i mod (limit + 1) != limit. */
  lemma FirstNotReturnedSkips(ids: seq<int>, limit: nat)
    requires 1 <= limit && StrictlyAscending(ids)
    ensures Flat(WholeWalk(FirstNotReturned, ids, None, limit)) == Kept(ids, limit, 0)
  {
    SkippingWalk(ids, None, limit, 0);
  }

  lemma NextBlock(from: nat, size: nat)
    requires 1 <= size
    ensures (from + 1) / size == from / size + if from % size == size - 1 then 1 else 0
  {
    var q, r := from / size, from % size;
    assert from == q * size + r;
    if r == size - 1 {
      assert from + 1 == (q + 1) * size;
      ModOfBlock(q + 1, size, 0);
      Quotient(from + 1, size, q + 1, 0);
    } else {
      Quotient(from + 1, size, q, r + 1);
    }
  }

  lemma {:induction false} KeptCount(ids: seq<int>, limit: nat, from: nat)
    requires from <= |ids|
    ensures |Kept(ids, limit, from)| == (|ids| - from) - (|ids| / (limit + 1) - from / (limit + 1))
    decreases |ids| - from
  {
    if from < |ids| {
      NextBlock(from, limit + 1);
      KeptCount(ids, limit, from + 1);
    }
  }

  /** Of every limit + 1 rows one is lost. */
  lemma SkippedCount(ids: seq<int>, limit: nat)
    requires 1 <= limit && StrictlyAscending(ids)
    ensures |Flat(WholeWalk(FirstNotReturned, ids, None, limit))| == |ids| - |ids| / (limit + 1)
  {
    FirstNotReturnedSkips(ids, limit);
    KeptCount(ids, limit, 0);
    Quotient(0, limit + 1, 0, 0);
  }

  lemma QuotientPositive(n: nat, size: nat)
    requires 1 <= size <= n
    ensures n / size >= 1
  {
  }

  /** The walk is complete if and only if all rows fit one page. */
  lemma CompleteIffOnePage(ids: seq<int>, limit: nat)
    requires 1 <= limit && StrictlyAscending(ids)
    ensures Flat(WholeWalk(FirstNotReturned, ids, None, limit)) == ids <==> |ids| <= limit
  {
    if |ids| <= limit {
      FlatOfWalk(FirstNotReturned, ids, None, limit);
    } else {
      SkippedCount(ids, limit);
      QuotientPositive(|ids|, limit + 1);
    }
  }
}
