/**
 The part of SQL the list queries use: a conjunction of clauses whose arguments
 are taken by placeholder position, ORDER BY a key, LIMIT a bound argument.
 */
module Sql {
  import opened Base
  import opened Keyset

  datatype Value = Null | Id(id: int) | Text(text: string) | Time(at: int) | Num(n: int)

  datatype Column = RowId | TenantId | Status | Email | ActorId | Action | Resource | Outcome | OccurredAt

  datatype Op = Equal | Greater | AtLeast | AtMost | Less | Like

  /** `column op $placeholder`, or `column != 'literal'`. */
  datatype Clause = Bound(column: Column, op: Op, placeholder: nat) | Differs(column: Column, literal: string)

  type Record = map<Column, Value>

  function Field(r: Record, c: Column): Value {
    if c in r then r[c] else Null
  }

  // ----- ILIKE -----

  function Lower(c: char): char {
    if 'A' <= c <= 'Z' then (c as int + 32) as char else c
  }

  function Fold(s: string): (t: string)
    ensures |t| == |s| && forall i | 0 <= i < |s| :: t[i] == Lower(s[i])
  {
    if s == [] then [] else [Lower(s[0])] + Fold(s[1..])
  }

  /** Folding changes the capitals, each to its small letter, and nothing else. */
  lemma LowerCase(k: nat, c: char)
    requires k < 26
    ensures Lower("ABCDEFGHIJKLMNOPQRSTUVWXYZ"[k]) == "abcdefghijklmnopqrstuvwxyz"[k]
    ensures !('A' <= c <= 'Z') ==> Lower(c) == c
  {
  }

  /** Pattern matching: % any string, _ any character, \ the next character literally. */
  predicate LikeMatch(text: string, pattern: string)
    decreases |text| + |pattern|
  {
    if pattern == [] then text == []
    else if pattern[0] == '%' then
      LikeMatch(text, pattern[1..]) || (text != [] && LikeMatch(text[1..], pattern))
    else if pattern[0] == '\\' && |pattern| > 1 then
      text != [] && text[0] == pattern[1] && LikeMatch(text[1..], pattern[2..])
    else
      text != [] && (pattern[0] == '_' || text[0] == pattern[0]) && LikeMatch(text[1..], pattern[1..])
  }

  predicate ILike(text: string, pattern: string) {
    LikeMatch(Fold(text), Fold(pattern))
  }

  predicate Plain(s: string) {
    '%' !in s && '_' !in s && '\\' !in s
  }

  lemma {:induction false} AnythingMatchesPercent(text: string)
    ensures LikeMatch(text, "%")
  {
    if text != [] {
      AnythingMatchesPercent(text[1..]);
    } else {
      assert LikeMatch(text, "%"[1..]);
    }
  }

  lemma {:induction false} PlainIsPrefix(text: string, q: string)
    requires Plain(q)
    ensures LikeMatch(text, q + "%") <==> q <= text
  {
    if q == [] {
      assert q + "%" == "%";
      AnythingMatchesPercent(text);
    } else {
      var pattern := q + "%";
      assert pattern[0] == q[0] && pattern[1..] == q[1..] + "%";
      assert q[0] in q;
      assert Plain(q[1..]);
      if text != [] {
        PlainIsPrefix(text[1..], q[1..]);
        assert q <= text <==> q[0] == text[0] && q[1..] <= text[1..];
      }
    }
  }

  function SearchPattern(q: string): string {
    "%" + q + "%"
  }

  ghost predicate Contains(text: string, q: string) {
    exists i :: 0 <= i <= |text| && q <= text[i..]
  }

  /** Without wildcards in it, a search finds exactly the texts that contain it. */
  lemma {:induction false} SearchIsContains(text: string, q: string)
    requires Plain(q)
    ensures LikeMatch(text, SearchPattern(q)) <==> Contains(text, q)
  {
    var pattern := SearchPattern(q);
    assert pattern[1..] == q + "%";
    PlainIsPrefix(text, q);
    assert text[0..] == text;
    if text != [] {
      SearchIsContains(text[1..], q);
      forall i | 1 <= i <= |text| ensures text[1..][i - 1..] == text[i..] {
      }
      if i :| 0 <= i <= |text[1..]| && q <= text[1..][i..] {
        assert text[1..][i..] == text[i + 1..];
      }
      if i :| 0 <= i <= |text| && q <= text[i..] {
        assert i == 0 || q <= text[1..][i - 1..];
      }
    } else {
      assert forall i | 0 <= i <= |text| :: text[i..] == text;
    }
  }

  lemma FoldOfSearch(q: string)
    ensures Fold(SearchPattern(q)) == SearchPattern(Fold(q))
  {
  }

  lemma FoldKeepsPlain(q: string)
    ensures Plain(Fold(q)) <==> Plain(q)
  {
    forall i | 0 <= i < |q| ensures Fold(q)[i] in "%_\\" <==> q[i] in "%_\\" {
    }
    if !Plain(q) {
      var i :| 0 <= i < |q| && q[i] in "%_\\";
      assert Fold(q)[i] in Fold(q);
    } else {
      forall i | 0 <= i < |q| ensures Fold(q)[i] != '%' && Fold(q)[i] != '_' && Fold(q)[i] != '\\' {
        assert q[i] in q;
      }
    }
  }

  /** A text that a query finds though it need not contain it: wildcards dropped or filled in, escapes undone. */
  function Sample(q: string): (t: string)
    ensures |t| <= |q| && (t == q ==> Plain(q))
  {
    if q == [] then []
    else if q[0] == '%' then Sample(q[1..])
    else if q[0] == '\\' then
      if |q| == 1 then "%" else [q[1]] + Sample(q[2..])
    else
      var t := [if q[0] == '_' then 'x' else q[0]] + Sample(q[1..]);
      assert t == q ==> q == [q[0]] + q[1..] && t[1..] == q[1..];
      t
  }

  lemma {:induction false} SampleMatches(q: string)
    ensures LikeMatch(Sample(q), q + "%")
  {
    var pattern := q + "%";
    if q == [] {
      assert pattern == "%";
      AnythingMatchesPercent([]);
    } else if q[0] == '\\' && |q| == 1 {
      assert pattern == "\\%" && "%"[1..] == [] && pattern[2..] == [];
    } else if q[0] == '\\' {
      assert pattern[0] == q[0] && pattern[1] == q[1] && pattern[2..] == q[2..] + "%";
      SampleMatches(q[2..]);
    } else {
      assert pattern[0] == q[0] && pattern[1..] == q[1..] + "%";
      SampleMatches(q[1..]);
    }
  }

  lemma {:induction false} SampleIsFolded(q: string)
    requires forall i | 0 <= i < |q| :: Lower(q[i]) == q[i]
    ensures forall i | 0 <= i < |Sample(q)| :: Lower(Sample(q)[i]) == Sample(q)[i]
  {
    if q != [] && (q[0] != '\\' || |q| > 1) {
      SampleIsFolded(if q[0] == '\\' then q[2..] else q[1..]);
    }
  }

  /** For a query with a wildcard or an escape in it, its sample is found and does not contain it. */
  lemma SampleRefutes(q: string) returns (text: string)
    requires !Plain(q)
    ensures ILike(text, SearchPattern(q)) && !Contains(Fold(text), Fold(q))
  {
    var folded := Fold(q);
    text := Sample(folded);
    SampleIsFolded(folded);
    assert Fold(text) == text;
    FoldKeepsPlain(q);
    SampleMatches(folded);
    FoldOfSearch(q);
    assert SearchPattern(folded)[1..] == folded + "%";
    assert text[0..] == text;
  }

  /**
   The search filter finds, letter case aside, exactly the texts that contain the query iff the query has no
   wildcard in it.
   */
  lemma SearchIsContainsIffPlain(q: string)
    ensures (forall text :: ILike(text, SearchPattern(q)) <==> Contains(Fold(text), Fold(q))) <==> Plain(q)
  {
    if Plain(q) {
      forall text ensures ILike(text, SearchPattern(q)) <==> Contains(Fold(text), Fold(q)) {
        FoldOfSearch(q);
        FoldKeepsPlain(q);
        SearchIsContains(Fold(text), Fold(q));
      }
    } else {
      var text := SampleRefutes(q);
    }
  }

  // ----- Clauses -----

  predicate Holds(op: Op, field: Value, arg: Value) {
    match op
    case Equal => field != Null && field == arg
    case Like => field.Text? && arg.Text? && ILike(field.text, arg.text)
    case Greater => field.Id? && arg.Id? && field.id > arg.id
    case AtLeast => field.Time? && arg.Time? && field.at >= arg.at
    case AtMost => field.Time? && arg.Time? && field.at <= arg.at
    case Less => field.Time? && arg.Time? && field.at < arg.at
  }

  /** A query under construction: clauses, arguments, and the number of the next placeholder. */
  datatype Query = Query(clauses: seq<Clause>, args: seq<Value>, n: nat)

  predicate ClauseHolds(c: Clause, args: seq<Value>, r: Record) {
    match c
    case Bound(column, op, placeholder) =>
      1 <= placeholder <= |args| && Holds(op, Field(r, column), args[placeholder - 1])
    case Differs(column, literal) => Field(r, column).Text? && Field(r, column).text != literal
  }

  predicate Satisfies(r: Record, q: Query) {
    forall i | 0 <= i < |q.clauses| :: ClauseHolds(q.clauses[i], q.args, r)
  }

  /** The next placeholder is one past the arguments, and every placeholder used has its argument. */
  predicate WellNumbered(q: Query) {
    && q.n == |q.args| + 1
    && forall i | 0 <= i < |q.clauses| :: q.clauses[i].Bound? ==> 1 <= q.clauses[i].placeholder <= |q.args|
  }

  function AndBound(q: Query, column: Column, op: Op, value: Value): Query {
    Query(q.clauses + [Bound(column, op, q.n)], q.args + [value], q.n + 1)
  }

  function AndDiffers(q: Query, column: Column, literal: string): Query {
    q.(clauses := q.clauses + [Differs(column, literal)])
  }

  const EMPTY: Query := Query([], [], 1)

  /** A new argument leaves the clauses already bound alone and is the one its own clause reads. */
  lemma AndBoundMeans(q: Query, column: Column, op: Op, value: Value)
    requires WellNumbered(q)
    ensures WellNumbered(AndBound(q, column, op, value))
    ensures forall r: Record :: Satisfies(r, AndBound(q, column, op, value)) <==>
              Satisfies(r, q) && Holds(op, Field(r, column), value)
  {
    var longer := AndBound(q, column, op, value);
    var k := |q.clauses|;
    forall r: Record
      ensures Satisfies(r, longer) <==> Satisfies(r, q) && Holds(op, Field(r, column), value)
    {
      forall i | 0 <= i < k
        ensures ClauseHolds(longer.clauses[i], longer.args, r) <==> ClauseHolds(q.clauses[i], q.args, r)
      {
        assert longer.clauses[i] == q.clauses[i];
      }
      assert longer.clauses[k] == Bound(column, op, q.n);
      assert longer.args[q.n - 1] == value;
      assert ClauseHolds(longer.clauses[k], longer.args, r) <==> Holds(op, Field(r, column), value);
      if Satisfies(r, longer) {
        assert forall i | 0 <= i < k :: ClauseHolds(longer.clauses[i], longer.args, r);
      }
    }
  }

  lemma AndDiffersMeans(q: Query, column: Column, literal: string)
    requires WellNumbered(q)
    ensures WellNumbered(AndDiffers(q, column, literal))
    ensures forall r: Record :: Satisfies(r, AndDiffers(q, column, literal)) <==>
              Satisfies(r, q) && Field(r, column).Text? && Field(r, column).text != literal
  {
    var longer := AndDiffers(q, column, literal);
    var k := |q.clauses|;
    forall r: Record
      ensures Satisfies(r, longer) <==>
                Satisfies(r, q) && Field(r, column).Text? && Field(r, column).text != literal
    {
      assert forall i | 0 <= i < k :: longer.clauses[i] == q.clauses[i];
      assert longer.clauses[k] == Differs(column, literal);
      if Satisfies(r, longer) {
        assert ClauseHolds(longer.clauses[k], longer.args, r);
        assert forall i | 0 <= i < k :: ClauseHolds(longer.clauses[i], longer.args, r);
      }
    }
  }

  /** A clause appended if its filter is set. */
  method AndWhen(on: bool, q: Query, column: Column, op: Op, value: Value) returns (longer: Query)
    requires WellNumbered(q)
    ensures WellNumbered(longer)
    ensures forall r: Record :: Satisfies(r, longer) <==> Satisfies(r, q) && (on ==> Holds(op, Field(r, column), value))
  {
    longer := q;
    if on {
      AndBoundMeans(q, column, op, value);
      longer := AndBound(q, column, op, value);
    }
  }

  /** LIMIT $n: the argument appended last. */
  function WithLimit(q: Query, rows: nat): Query {
    q.(args := q.args + [Num(rows)])
  }

  lemma WithLimitMeans(q: Query, rows: nat)
    requires WellNumbered(q)
    ensures WithLimit(q, rows).args[q.n - 1] == Num(rows)
    ensures forall r: Record :: Satisfies(r, WithLimit(q, rows)) <==> Satisfies(r, q)
  {
    var limited := WithLimit(q, rows);
    forall r: Record ensures Satisfies(r, limited) <==> Satisfies(r, q) {
      assert forall i | 0 <= i < |q.clauses| ::
          ClauseHolds(q.clauses[i], limited.args, r) <==> ClauseHolds(q.clauses[i], q.args, r);
    }
  }

  /** The number bound to a placeholder of a LIMIT. */
  function LimitOf(q: Query, placeholder: nat): nat {
    if 1 <= placeholder <= |q.args| && q.args[placeholder - 1].Num? && q.args[placeholder - 1].n >= 0 then
      q.args[placeholder - 1].n
    else 0
  }

  // ----- ORDER BY id -----

  ghost predicate IsAscendingOf(ids: seq<int>, s: set<int>) {
    && StrictlyAscending(ids)
    && |ids| == |s|
    && forall x :: x in ids <==> x in s
  }

  lemma {:induction false} LeastExists(s: set<int>) returns (m: int)
    requires s != {}
    ensures m in s && forall x | x in s :: m <= x
    decreases |s|
  {
    var first := Pick(s);
    m := first;
    if s != {first} {
      var n := LeastExists(s - {first});
      assert forall x | x in s :: x == first || x in s - {first};
      m := if n < first then n else first;
    }
  }

  lemma {:induction false} AscendingExists(s: set<int>) returns (ids: seq<int>)
    ensures IsAscendingOf(ids, s)
    decreases |s|
  {
    if s == {} {
      ids := [];
    } else {
      var m := LeastExists(s);
      var rest := AscendingExists(s - {m});
      assert forall i | 0 <= i < |rest| :: rest[i] in rest;
      ids := [m] + rest;
    }
  }

  lemma HeadOf(a: seq<int>, b: seq<int>)
    requires forall x :: x in b ==> x in a
    ensures b != [] ==> b[0] in a
  {
    if b != [] {
      var first := b[0];
      assert first in b;
    }
  }

  lemma {:induction false} SortedIsUnique(a: seq<int>, b: seq<int>)
    requires StrictlyAscending(a) && StrictlyAscending(b)
    requires forall x :: x in a <==> x in b
    ensures a == b
  {
    HeadOf(a, b);
    HeadOf(b, a);
    if a != [] {
      assert a[0] == b[0];
      forall x ensures x in a[1..] <==> x in b[1..] {
        assert x in a <==> x == a[0] || x in a[1..];
        assert x in b <==> x == b[0] || x in b[1..];
        assert a[0] !in a[1..] && b[0] !in b[1..];
      }
      SortedIsUnique(a[1..], b[1..]);
    }
  }

  /** The ids of a set in order. */
  ghost function Ascending(s: set<int>): (ids: seq<int>)
    ensures IsAscendingOf(ids, s)
  {
    assert exists ids :: IsAscendingOf(ids, s) by {
      var ids := AscendingExists(s);
    }
    var ids :| IsAscendingOf(ids, s);
    ids
  }

  method OrderById(s: set<int>) returns (ids: seq<int>)
    ensures ids == Ascending(s)
  {
    ids := [];
    var remaining := s;
    while remaining != {}
      invariant remaining <= s && StrictlyAscending(ids)
      invariant forall x :: x in ids <==> x in s && x !in remaining
      invariant forall x, y | x in ids && y in remaining :: x < y
      decreases |remaining|
    {
      ghost var least := LeastExists(remaining);
      var m :| m in remaining && forall x | x in remaining :: m <= x;
      assert forall i | 0 <= i < |ids| :: ids[i] in ids;
      ids, remaining := ids + [m], remaining - {m};
    }
    SortedIsUnique(ids, Ascending(s));
  }

  /** Selecting beyond a cursor drops the leading ids of the ordered selection. */
  lemma OrderedBeyond(ids: seq<int>, later: seq<int>, cursor: int)
    requires StrictlyAscending(ids) && StrictlyAscending(later)
    requires forall x :: x in later <==> x in ids && x > cursor
    ensures later == ids[Dropped(ids, Some(cursor))..]
  {
    var n := Dropped(ids, Some(cursor));
    forall i | 0 <= i < |ids| ensures i >= n <==> ids[i] > cursor {
      DroppedSplits(ids, Some(cursor), i);
    }
    SuffixHas(ids, n, cursor);
    SortedIsUnique(later, ids[n..]);
  }

  lemma SuffixHas(ids: seq<int>, n: nat, cursor: int)
    requires n <= |ids| && forall i | 0 <= i < |ids| :: i >= n <==> ids[i] > cursor
    ensures forall x :: x in ids[n..] <==> x in ids && x > cursor
  {
    forall x ensures x in ids[n..] <==> x in ids && x > cursor {
      if x in ids && x > cursor {
        var i :| 0 <= i < |ids| && ids[i] == x;
        assert ids[n..][i - n] == x;
      }
    }
  }

  // ----- SELECT -----

  function Selected(records: map<int, Record>, q: Query): set<int> {
    set id | id in records && Satisfies(records[id], q)
  }

  lemma LimitIsBound(q: Query, rows: nat)
    requires WellNumbered(q)
    ensures LimitOf(WithLimit(q, rows), q.n) == rows
  {
    assert (q.args + [Num(rows)])[q.n - 1] == Num(rows);
  }

  lemma SelectedWithLimit(records: map<int, Record>, q: Query, rows: nat)
    requires WellNumbered(q)
    ensures Selected(records, WithLimit(q, rows)) == Selected(records, q)
  {
    WithLimitMeans(q, rows);
  }

  /** SELECT ... WHERE q ORDER BY id LIMIT $placeholder, over the records of a table by id. */
  method SelectById(records: map<int, Record>, q: Query, placeholder: nat) returns (ids: seq<int>)
    ensures ids == Take(Ascending(Selected(records, q)), LimitOf(q, placeholder))
  {
    ids := OrderById(Selected(records, q));
    if |ids| > LimitOf(q, placeholder) {
      ids := ids[..LimitOf(q, placeholder)];
    }
  }

  /** WHERE id > cursor, if there is one. */
  function Beyond(base: set<int>, cursor: Option<int>): set<int> {
    set id | id in base && (cursor.Some? ==> id > cursor.value)
  }

  /** What lies beyond a cursor is, in order, what the cursor leaves of the ordered base. */
  lemma AscendingBeyond(base: set<int>, cursor: Option<int>)
    ensures Ascending(Beyond(base, cursor)) == Ascending(base)[Dropped(Ascending(base), cursor)..]
  {
    if cursor.Some? {
      OrderedBeyond(Ascending(base), Ascending(Beyond(base, cursor)), cursor.value);
    } else {
      assert Beyond(base, cursor) == base;
    }
  }
}
