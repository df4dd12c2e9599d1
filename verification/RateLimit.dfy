/**
 The sliding-window limiter keeps, per client address, a sorted set of request
 times in milliseconds. Limiters with different limits share that set. The
 reference is the complete list of requests ever made; the pruned set is proved
 to answer every question as the complete list would.
 */
module RateLimit {
  import opened Base

  /** One request passing a limiter: the time in milliseconds and the limit in force. */
  datatype Hit = Hit(now: nat, limit: int)

  ghost predicate ClockForward(log: seq<Hit>) {
    forall i, j | 0 <= i < j < |log| :: log[i].now <= log[j].now
  }

  /** The distinct milliseconds of all requests in (now - window, now]. */
  ghost function InWindow(log: seq<Hit>, window: nat, now: nat): set<nat> {
    set i | 0 <= i < |log| && now - window < log[i].now <= now :: log[i].now
  }

  /** Whether the i-th request of the list is let through, judged on the complete list. */
  ghost predicate Admits(log: seq<Hit>, window: nat, i: nat)
    requires i < |log|
  {
    |InWindow(log[..i], window, log[i].now)| < log[i].limit
  }

  /** Key lifetime: window + 1 s, sent to the store in whole seconds. */
  function Lifetime(window: nat): (ms: nat)
    ensures window < ms <= window + 1000
  {
    (window + 1000) / 1000 * 1000
  }

  /** The stored set is the window of the complete list, as the last request left it. */
  ghost predicate Agrees(log: seq<Hit>, window: nat, members: set<nat>, deadline: nat) {
    && ClockForward(log)
    && (log == [] ==> members == {} && deadline == 0)
    && (log != [] ==>
          var last := log[|log| - 1].now;
          && deadline == last + Lifetime(window)
          && members == InWindow(log[..|log| - 1], window, last) + {last})
  }

  class SlidingLog {
    const window: nat
    var members: set<nat>
    var deadline: nat
    ghost var log: seq<Hit>

    ghost predicate Valid()
      reads this
    {
      Agrees(log, window, members, deadline)
    }

    constructor (window: nat)
      ensures Valid() && log == [] && this.window == window
    {
      this.window := window;
      members, deadline, log := {}, 0, [];
    }

    /** Drop every member scored at or below now - window. */
    method Prune(now: nat)
      modifies `members
      ensures members == set m | m in old(members) && !(m <= now - window)
    {
      members := set m | m in members && !(m <= now - window);
    }

    /** Prune, count, add, refresh the key's deadline; then decide on the count before the add. */
    method Pass(limit: int, now: nat) returns (admitted: bool, remaining: nat)
      requires Valid()
      requires log != [] ==> log[|log| - 1].now <= now
      modifies this
      ensures Valid() && log == old(log) + [Hit(now, limit)]
      ensures admitted <==> Admits(log, window, |log| - 1)
      ensures var seen := |InWindow(old(log), window, now)|;
              remaining == if seen < limit then limit - seen else 0
      ensures window > 0 ==> members == InWindow(log, window, now)
    {
      ghost var before, hit := log, Hit(now, limit);
      PrunedIsWindow(log, window, now, members, deadline);
      if now >= deadline {
        members := {};
      }
      Prune(now);
      var count := |members|;
      members := members + {now};
      deadline := now + Lifetime(window);
      remaining := if limit - count < 0 then 0 else limit - count;
      admitted := !(count >= limit);
      log := log + [hit];
      AgreesAfter(before, hit, window, members);
    }
  }

  function Larger(a: int, b: int): (c: int)
    ensures c >= a && c >= b && (c == a || c == b)
  {
    if a < b then b else a
  }

  /** Neither pruning by score nor the key's deadline ever drops a request still in the window. */
  lemma PrunedIsWindow(log: seq<Hit>, window: nat, now: nat, members: set<nat>, deadline: nat)
    requires Agrees(log, window, members, deadline)
    requires log != [] ==> log[|log| - 1].now <= now
    ensures InWindow(log, window, now)
            == if now >= deadline then {} else set m | m in members && !(m <= now - window)
  {
    if log != [] {
      var n := |log| - 1;
      forall m | m in InWindow(log, window, now) ensures m in members && now < deadline {
        var i :| 0 <= i < |log| && log[i].now == m && now - window < log[i].now;
        if i < n {
          assert log[..n][i] == log[i];
        }
      }
      forall m | m in members && m > now - window ensures m in InWindow(log, window, now) {
        if m != log[n].now {
          var i :| 0 <= i < |log[..n]| && log[..n][i].now == m;
          assert log[i].now == m;
        }
      }
    }
  }

  lemma AgreesAfter(log: seq<Hit>, hit: Hit, window: nat, members: set<nat>)
    requires ClockForward(log)
    requires log != [] ==> log[|log| - 1].now <= hit.now
    requires members == InWindow(log, window, hit.now) + {hit.now}
    ensures Agrees(log + [hit], window, members, hit.now + Lifetime(window))
    ensures (log + [hit])[..|log|] == log
    ensures window > 0 ==> members == InWindow(log + [hit], window, hit.now)
  {
    assert (log + [hit])[..|log|] == log;
    WindowOfLonger(log, hit, window, hit.now);
  }

  lemma WindowOfLonger(log: seq<Hit>, hit: Hit, window: nat, now: nat)
    requires hit.now == now
    ensures InWindow(log + [hit], window, now)
            == InWindow(log, window, now) + if window > 0 then {now} else {}
  {
    var longer := log + [hit];
    forall m | m in InWindow(log, window, now) ensures m in InWindow(longer, window, now) {
      var i :| 0 <= i < |log| && log[i].now == m && now - window < log[i].now <= now;
      assert longer[i] == log[i];
    }
    if window > 0 {
      assert longer[|log|] == hit;
      assert now in InWindow(longer, window, now);
    }
  }

  /** The requests before the i-th one that are still in its window. */
  ghost function Recent(log: seq<Hit>, window: nat, i: nat): set<int>
    requires i < |log|
  {
    set j: int | 0 <= j < i && log[i].now - window < log[j].now <= log[i].now
  }

  /**
   A request is let through if fewer than `limit` requests are still in its window,
   and only then if no two of these share a millisecond.
   */
  lemma AdmitsIff(log: seq<Hit>, window: nat, i: nat)
    requires i < |log|
    ensures |Recent(log, window, i)| < log[i].limit ==> Admits(log, window, i)
    ensures (forall j, k | j in Recent(log, window, i) && k in Recent(log, window, i) && j != k ::
               log[j].now != log[k].now) ==>
              (Admits(log, window, i) <==> |Recent(log, window, i)| < log[i].limit)
  {
    var recent, seen := Recent(log, window, i), InWindow(log[..i], window, log[i].now);
    ImageSize(log, window, i);
    if forall j, k | j in recent && k in recent && j != k :: log[j].now != log[k].now {
      forall j | j in recent ensures log[j].now in seen {
        assert log[..i][j] == log[j];
      }
      InjectiveImageSize(recent, seen, (j: int) requires 0 <= j < |log| => log[j].now);
    }
  }

  lemma ImageSize(log: seq<Hit>, window: nat, i: nat)
    requires i < |log|
    ensures |InWindow(log[..i], window, log[i].now)| <= |Recent(log, window, i)|
  {
    forall m | m in InWindow(log[..i], window, log[i].now)
      ensures exists j :: j in Recent(log, window, i) && log[j].now == m
    {
      var j :| 0 <= j < |log[..i]| && log[..i][j].now == m && log[i].now - window < log[..i][j].now <= log[i].now;
      assert log[j] == log[..i][j];
      assert j in Recent(log, window, i);
    }
    Pigeons(log, InWindow(log[..i], window, log[i].now), Recent(log, window, i));
  }

  lemma {:induction false} Pigeons(log: seq<Hit>, times: set<nat>, hits: set<int>)
    requires forall j | j in hits :: 0 <= j < |log|
    requires forall m | m in times :: exists j :: j in hits && log[j].now == m
    ensures |times| <= |hits|
    decreases |times|
  {
    if times != {} {
      var m :| m in times;
      var j :| j in hits && log[j].now == m;
      forall n | n in times - {m} ensures exists k :: k in hits - {j} && log[k].now == n {
        var k :| k in hits && log[k].now == n;
        assert k in hits - {j};
      }
      Pigeons(log, times - {m}, hits - {j});
    }
  }

  /** Requests let through by limiters of at most this limit, in the window milliseconds from start. */
  ghost function AdmittedIn(log: seq<Hit>, window: nat, limit: int, start: int): set<int> {
    set i: int |
      0 <= i < |log| && log[i].limit <= limit && start <= log[i].now < start + window && Admits(log, window, i)
  }

  ghost function AdmittedMs(log: seq<Hit>, window: nat, limit: int, start: int): set<nat> {
    set i | i in AdmittedIn(log, window, limit, start) :: log[i].now
  }

  lemma {:induction false} Latest(s: set<nat>) returns (m: nat)
    requires s != {}
    ensures m in s && forall x | x in s :: x <= m
    decreases |s|
  {
    m :| m in s;
    if s != {m} {
      var n := Latest(s - {m});
      assert forall x | x in s :: x == m || x in s - {m};
      m := if n > m then n else m;
    }
  }

  /** Everything let through before the i-th request in the same window is seen by it. */
  lemma EarlierAreSeen(log: seq<Hit>, window: nat, limit: int, start: int, i: nat, m: nat)
    requires ClockForward(log) && i < |log| && start <= log[i].now < start + window
    requires m in AdmittedMs(log, window, limit, start) && m < log[i].now
    ensures m in InWindow(log[..i], window, log[i].now)
  {
    var j :| j in AdmittedIn(log, window, limit, start) && log[j].now == m;
    assert j < i;
    assert log[..i][j] == log[j];
  }

  /** The last request let through in a window has seen fewer than `limit` milliseconds. */
  lemma LastAdmitted(log: seq<Hit>, window: nat, limit: int, start: int) returns (i: nat)
    requires AdmittedMs(log, window, limit, start) != {}
    ensures i in AdmittedIn(log, window, limit, start) && log[i].now in AdmittedMs(log, window, limit, start)
    ensures forall m | m in AdmittedMs(log, window, limit, start) :: m <= log[i].now
    ensures |InWindow(log[..i], window, log[i].now)| < limit
  {
    var last := Latest(AdmittedMs(log, window, limit, start));
    i :| i in AdmittedIn(log, window, limit, start) && log[i].now == last;
    assert Admits(log, window, i);
  }

  /** In any window, the requests let through fall in at most `limit` distinct milliseconds. */
  lemma WindowBound(log: seq<Hit>, window: nat, limit: int, start: int)
    requires ClockForward(log)
    ensures |AdmittedMs(log, window, limit, start)| <= Larger(limit, 0)
  {
    var ms := AdmittedMs(log, window, limit, start);
    if ms != {} {
      var i := LastAdmitted(log, window, limit, start);
      hide Admits, InWindow, AdmittedMs, ClockForward;
      var seen := InWindow(log[..i], window, log[i].now);
      forall m | m in ms - {log[i].now} ensures m in seen {
        EarlierAreSeen(log, window, limit, start, i, m);
      }
      SubsetSize(ms - {log[i].now}, seen);
    }
  }

  /** Does the i-th request follow another limiter's mark of the same millisecond? */
  ghost predicate MarkedBefore(log: seq<Hit>, i: nat)
    requires i < |log|
  {
    exists j :: 0 <= j < i && log[j].now == log[i].now
  }

  /** A limiter that always runs behind another one counts the request's own mark: its limit is one less. */
  lemma BoundBehindAnother(log: seq<Hit>, window: nat, limit: int, start: int)
    requires ClockForward(log)
    requires forall i: nat | i in AdmittedIn(log, window, limit, start) :: MarkedBefore(log, i)
    ensures |AdmittedMs(log, window, limit, start)| <= Larger(limit - 1, 0)
  {
    var ms := AdmittedMs(log, window, limit, start);
    if ms != {} {
      var i := LastAdmitted(log, window, limit, start);
      assert MarkedBefore(log, i);
      OwnMarkSeen(log, window, i);
      hide Admits, InWindow, AdmittedMs, ClockForward, MarkedBefore;
      var seen := InWindow(log[..i], window, log[i].now);
      forall m | m in ms ensures m in seen {
        if m < log[i].now {
          EarlierAreSeen(log, window, limit, start, i, m);
        }
      }
      SubsetSize(ms, seen);
    }
  }

  lemma OwnMarkSeen(log: seq<Hit>, window: nat, i: nat)
    requires i < |log| && MarkedBefore(log, i)
    ensures window > 0 ==> log[i].now in InWindow(log[..i], window, log[i].now)
  {
    var j :| 0 <= j < i && log[j].now == log[i].now;
    assert log[..i][j] == log[j];
  }

  /**
   If no two of those let through in a window share a millisecond, they are at most `limit`, whatever else
   shares one.
   */
  lemma RequestBound(log: seq<Hit>, window: nat, limit: int, start: int)
    requires ClockForward(log)
    requires forall i, j |
               i in AdmittedIn(log, window, limit, start) && j in AdmittedIn(log, window, limit, start) && i != j ::
               log[i].now != log[j].now
    ensures |AdmittedIn(log, window, limit, start)| <= Larger(limit, 0)
  {
    WindowBound(log, window, limit, start);
    InjectiveImageSize(AdmittedIn(log, window, limit, start), AdmittedMs(log, window, limit, start),
                       (i: int) requires 0 <= i < |log| => log[i].now);
  }

  /** A burst inside one millisecond: every request of it sees at most one member. */
  lemma BurstAdmitted(limit: int, window: nat)
    requires 2 <= limit && 1 <= window
    ensures var log := seq(limit + 1, _ => Hit(0, limit));
            ClockForward(log) && |AdmittedIn(log, window, limit, 0)| == limit + 1
  {
    var log := seq(limit + 1, _ => Hit(0, limit));
    forall i: nat | i < |log| ensures Admits(log, window, i) {
      SubsetSize(InWindow(log[..i], window, 0), {0});
    }
    assert AdmittedIn(log, window, limit, 0) == Below(limit + 1);
  }

  /** Counting requests instead of milliseconds, the limit is kept in every history iff it is at most one. */
  lemma RequestsBoundedIff(window: nat, limit: int)
    requires 1 <= window
    ensures (forall log: seq<Hit>, start: int | ClockForward(log) ::
               |AdmittedIn(log, window, limit, start)| <= Larger(limit, 0))
            <==> limit <= 1
  {
    if limit <= 1 {
      forall log: seq<Hit>, start: int | ClockForward(log)
        ensures |AdmittedIn(log, window, limit, start)| <= Larger(limit, 0)
      {
        AtMostOne(log, window, limit, start);
      }
    } else {
      BurstAdmitted(limit, window);
      var log := seq(limit + 1, _ => Hit(0, limit));
      assert ClockForward(log) && |AdmittedIn(log, window, limit, 0)| > Larger(limit, 0);
    }
  }

  lemma SeenBefore(log: seq<Hit>, window: nat, i: nat, j: nat)
    requires ClockForward(log)
    requires i < j < |log| && log[j].now - window < log[i].now
    ensures |InWindow(log[..j], window, log[j].now)| > 0
  {
    assert log[..j][i] == log[i];
    assert log[i].now in InWindow(log[..j], window, log[j].now);
  }

  lemma AtMostOne(log: seq<Hit>, window: nat, limit: int, start: int)
    requires ClockForward(log) && limit <= 1
    ensures |AdmittedIn(log, window, limit, start)| <= Larger(limit, 0)
  {
    var passed := AdmittedIn(log, window, limit, start);
    if passed != {} {
      var i :| i in passed;
      forall j | j in passed ensures j == i {
        if i < j {
          SeenBefore(log, window, i, j);
        } else if j < i {
          SeenBefore(log, window, j, i);
        }
      }
      assert passed == {i};
    }
  }

  /** After a full window of silence the next request is let through iff the limit is positive. */
  lemma SilenceAdmits(log: seq<Hit>, window: nat, next: Hit)
    requires ClockForward(log)
    requires log != [] ==> log[|log| - 1].now + window <= next.now
    ensures Admits(log + [next], window, |log|) <==> next.limit > 0
  {
    assert (log + [next])[..|log|] == log;
    assert InWindow(log, window, next.now) == {};
  }
}
