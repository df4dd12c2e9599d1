/**
 Several operations of the platform read a counter, compare it with a limit and
 only later, in a separate statement, raise it. Between the two steps any number
 of other calls may run. This module states once what such a guard guarantees;
 the failure counter, the approval of a request, the verification of a challenge
 and the consumption of an authorization code are instances.
 */
module CheckThenAct {
  import opened Base

  /** A counter, and the calls that have passed the guard but not yet raised it. */
  datatype Guarded = Guarded(count: nat, inFlight: set<int>)

  ghost predicate Enters(g: Guarded, h: Guarded, limit: nat, call: int) {
    && call !in g.inFlight
    && h.inFlight == g.inFlight + {call}
    && h.count <= g.count
    && h.count < limit
  }

  ghost predicate Finishes(g: Guarded, h: Guarded, call: int) {
    && call in g.inFlight
    && h.inFlight == g.inFlight - {call}
    && h.count <= g.count + 1
  }

  ghost predicate Idles(g: Guarded, h: Guarded) {
    h.inFlight == g.inFlight && h.count <= g.count
  }

  /**
   One atomic step. A counter may also fall in any step (it is cleared, or its
   key expires while time passes); only a call in flight can raise it, by one.
   */
  ghost predicate Step(g: Guarded, h: Guarded, limit: nat) {
    || Idles(g, h)
    || (exists call :: Enters(g, h, limit, call))
    || (exists call :: Finishes(g, h, call))
  }

  ghost predicate IsRun(run: seq<Guarded>, limit: nat) {
    && run != []
    && run[0] == Guarded(0, {})
    && forall i | 0 <= i < |run| - 1 :: Step(run[i], run[i + 1], limit)
  }

  ghost predicate AtMostInFlight(run: seq<Guarded>, k: nat) {
    forall i | 0 <= i < |run| :: |run[i].inFlight| <= k
  }

  /** Each call in flight has reserved one unit above the last value that passed the guard. */
  lemma {:induction false} ReservedUnits(run: seq<Guarded>, limit: nat, k: nat, i: nat)
    requires IsRun(run, limit) && AtMostInFlight(run, k)
    requires 1 <= limit && 1 <= k && i < |run|
    ensures run[i].count + |run[i].inFlight| <= limit + k - 1
  {
    if i > 0 {
      ReservedUnits(run, limit, k, i - 1);
      var g, h := run[i - 1], run[i];
      assert Step(run[i - 1], run[i - 1 + 1], limit);
      if call :| Finishes(g, h, call) {
        assert g.inFlight == h.inFlight + {call};
      }
    }
  }

  /** The overshoot theorem: with at most k calls between check and act, limit + k - 1 is never passed. */
  lemma Overshoot(run: seq<Guarded>, limit: nat, k: nat)
    requires IsRun(run, limit) && AtMostInFlight(run, k)
    requires 1 <= limit && 1 <= k
    ensures forall i | 0 <= i < |run| :: run[i].count <= limit + k - 1
  {
    forall i | 0 <= i < |run| ensures run[i].count <= limit + k - 1 {
      ReservedUnits(run, limit, k, i);
    }
  }

  ghost predicate Reaches(run: seq<Guarded>, limit: nat, k: nat, end: Guarded) {
    IsRun(run, limit) && AtMostInFlight(run, k) && run[|run| - 1] == end
  }

  lemma Extend(run: seq<Guarded>, limit: nat, k: nat, end: Guarded) returns (longer: seq<Guarded>)
    requires IsRun(run, limit) && AtMostInFlight(run, k)
    requires Step(run[|run| - 1], end, limit) && |end.inFlight| <= k
    ensures Reaches(longer, limit, k, end)
  {
    longer := run + [end];
  }

  /** One call after the other, each finishing before the next begins. */
  lemma {:induction false} OneByOne(limit: nat, k: nat, n: nat) returns (run: seq<Guarded>)
    requires 1 <= k && n <= limit
    ensures Reaches(run, limit, k, Guarded(n, {}))
  {
    if n == 0 {
      run := [Guarded(0, {})];
    } else {
      run := OneByOne(limit, k, n - 1);
      assert Enters(run[|run| - 1], Guarded(n - 1, {0}), limit, 0);
      run := Extend(run, limit, k, Guarded(n - 1, {0}));
      assert Finishes(run[|run| - 1], Guarded(n, {}), 0);
      run := Extend(run, limit, k, Guarded(n, {}));
    }
  }

  /** j calls pass the guard on the last value below the limit before any of them acts. */
  lemma {:induction false} AllRead(limit: nat, k: nat, j: nat) returns (run: seq<Guarded>)
    requires 1 <= limit && 1 <= k && j <= k
    ensures Reaches(run, limit, k, Guarded(limit - 1, Below(j)))
  {
    if j == 0 {
      run := OneByOne(limit, k, limit - 1);
    } else {
      run := AllRead(limit, k, j - 1);
      assert Enters(run[|run| - 1], Guarded(limit - 1, Below(j)), limit, j - 1);
      run := Extend(run, limit, k, Guarded(limit - 1, Below(j)));
    }
  }

  lemma {:induction false} AllAct(limit: nat, k: nat, j: nat) returns (run: seq<Guarded>)
    requires 1 <= limit && 1 <= k && j <= k
    ensures Reaches(run, limit, k, Guarded(limit - 1 + (k - j), Below(j)))
    decreases k - j
  {
    if j == k {
      run := AllRead(limit, k, k);
    } else {
      run := AllAct(limit, k, j + 1);
      assert Below(j) == Below(j + 1) - {j};
      assert Finishes(run[|run| - 1], Guarded(limit - 1 + (k - j), Below(j)), j);
      run := Extend(run, limit, k, Guarded(limit - 1 + (k - j), Below(j)));
    }
  }

  /** The bound cannot be improved: some run with k overlapping calls reaches it. */
  lemma OvershootIsReached(limit: nat, k: nat) returns (run: seq<Guarded>)
    requires 1 <= limit && 1 <= k
    ensures IsRun(run, limit) && AtMostInFlight(run, k)
    ensures run[|run| - 1].count == limit + k - 1
  {
    run := AllAct(limit, k, 0);
  }

  /** The guard keeps its limit in every run if and only if no two calls overlap. */
  lemma LimitKeptIffAlone(limit: nat, k: nat)
    requires 1 <= limit && 1 <= k
    ensures (forall run: seq<Guarded> | IsRun(run, limit) && AtMostInFlight(run, k) ::
               forall i | 0 <= i < |run| :: run[i].count <= limit)
            <==> k == 1
  {
    if k == 1 {
      forall run: seq<Guarded> | IsRun(run, limit) && AtMostInFlight(run, k)
        ensures forall i | 0 <= i < |run| :: run[i].count <= limit
      {
        Overshoot(run, limit, k);
      }
    } else {
      var run := OvershootIsReached(limit, k);
      assert run[|run| - 1].count > limit;
    }
  }
}
