/**
 One MFA challenge and the verifications running against it. A verification reads
 the row, raises the attempt counter, asks the provider and, on a match, marks
 the challenge used: four separate statements. The provider's answer is
 arbitrary. Times are milliseconds.
 */
module Mfa {
  import opened Base
  import opened CheckThenAct

  const MAX_ATTEMPTS: nat := 5
  const VALIDITY: int := 5 * 60 * 1000

  /** What a verification has done so far: passed the checks, been counted, been matched by the provider. */
  datatype Phase = Admitted | Counted | Matched

  datatype Answer = UnknownMethod | ProviderError | Mismatch | Match

  datatype State = State(user: int, attempts: nat, used: bool, expiresAt: int,
                         calls: map<int, Phase>, asked: nat, successes: nat)

  datatype Event =
    | Begin(call: int, user: int, now: int)
    | Count(call: int)
    | Ask(call: int, answer: Answer)
    | Settle(call: int)
    | Abandon(call: int)

  datatype Admission = NotFound | TooManyAttempts | Proceed

  function Challenge(user: int, now: int): State {
    State(user, 0, false, now + VALIDITY, map[], 0, 0)
  }

  function Admit(s: State, user: int, now: int): Admission {
    if s.user != user || s.used || s.expiresAt <= now then NotFound
    else if s.attempts >= MAX_ATTEMPTS then TooManyAttempts
    else Proceed
  }

  predicate In(s: State, call: int, phase: Phase) {
    call in s.calls && s.calls[call] == phase
  }

  function Next(s: State, e: Event): State {
    match e
    case Begin(call, user, now) =>
      if call in s.calls || Admit(s, user, now) != Proceed then s
      else s.(calls := s.calls[call := Admitted])
    case Count(call) =>
      if !In(s, call, Admitted) then s
      else s.(attempts := s.attempts + 1, calls := s.calls[call := Counted])
    case Ask(call, answer) =>
      if !In(s, call, Counted) then s
      else if answer == UnknownMethod then s.(calls := s.calls - {call})
      else if answer == Match then s.(asked := s.asked + 1, calls := s.calls[call := Matched])
      else s.(asked := s.asked + 1, calls := s.calls - {call})
    case Settle(call) =>
      if !In(s, call, Matched) then s
      else s.(used := true, calls := s.calls - {call}, successes := s.successes + 1)
    case Abandon(call) =>
      s.(calls := s.calls - {call})
  }

  ghost predicate IsTrace(start: State, trace: seq<State>, events: seq<Event>) {
    && |trace| == |events| + 1
    && trace[0] == start
    && forall i | 0 <= i < |events| :: trace[i + 1] == Next(trace[i], events[i])
  }

  ghost predicate AtMostVerifying(trace: seq<State>, k: nat) {
    forall i | 0 <= i < |trace| :: |trace[i].calls.Keys| <= k
  }

  // ----- Invariants -----

  ghost function CallsIn(calls: map<int, Phase>, phase: Phase): set<int> {
    set c | c in calls && calls[c] == phase
  }

  /** Every provider verification, and every one still to come, was counted first; used means succeeded. */
  ghost predicate Accounted(s: State) {
    && s.asked + |CallsIn(s.calls, Counted)| <= s.attempts
    && s.successes + |CallsIn(s.calls, Matched)| <= s.asked
    && (s.used <==> s.successes > 0)
  }

  function InPhase(calls: map<int, Phase>, call: int, phase: Phase): nat {
    if call in calls && calls[call] == phase then 1 else 0
  }

  /** Taking one call out of the table changes only the phase it was in. */
  lemma Without(calls: map<int, Phase>, call: int, phase: Phase)
    ensures |CallsIn(calls - {call}, phase)| == |CallsIn(calls, phase)| - InPhase(calls, call, phase)
  {
    assert CallsIn(calls - {call}, phase) == CallsIn(calls, phase) - {call};
  }

  lemma NextKeepsAccounted(s: State, e: Event)
    requires Accounted(s)
    ensures Accounted(Next(s, e))
  {
    var t := Next(s, e);
    forall phase: Phase
      ensures |CallsIn(t.calls, phase)|
              == |CallsIn(s.calls, phase)| - InPhase(s.calls, e.call, phase) + InPhase(t.calls, e.call, phase)
    {
      Without(s.calls, e.call, phase);
      Without(t.calls, e.call, phase);
      assert t.calls - {e.call} == s.calls - {e.call};
    }
  }

  lemma {:induction false} AlwaysAccounted(user: int, now: int, trace: seq<State>, events: seq<Event>, i: nat)
    requires IsTrace(Challenge(user, now), trace, events) && i < |trace|
    ensures Accounted(trace[i])
  {
    if i == 0 {
      assert CallsIn(trace[0].calls, Counted) == {} && CallsIn(trace[0].calls, Matched) == {};
    } else {
      AlwaysAccounted(user, now, trace, events, i - 1);
      assert trace[i - 1 + 1] == Next(trace[i - 1], events[i - 1]);
      NextKeepsAccounted(trace[i - 1], events[i - 1]);
    }
  }

  // ----- Attempts and successes as guarded counters -----

  ghost function AttemptGuard(s: State): Guarded {
    Guarded(s.attempts, CallsIn(s.calls, Admitted))
  }

  ghost function UseGuard(s: State): Guarded {
    Guarded(s.successes, s.calls.Keys)
  }

  lemma EventIsStep(s: State, e: Event)
    requires Accounted(s)
    ensures Step(AttemptGuard(s), AttemptGuard(Next(s, e)), MAX_ATTEMPTS)
    ensures Step(UseGuard(s), UseGuard(Next(s, e)), 1)
  {
    var t := Next(s, e);
    var a, b, u, v := AttemptGuard(s), AttemptGuard(t), UseGuard(s), UseGuard(t);
    if t == s {
      assert Idles(a, b) && Idles(u, v);
    } else {
      match e
      case Begin(call, _, _) =>
        assert Enters(a, b, MAX_ATTEMPTS, call) && Enters(u, v, 1, call);
      case Count(call) =>
        assert v.inFlight == u.inFlight;
        assert Finishes(a, b, call) && Idles(u, v);
      case Ask(call, answer) =>
        assert b.inFlight == a.inFlight;
        assert answer == Match ==> v.inFlight == u.inFlight;
        assert Idles(a, b) && (Finishes(u, v, call) || Idles(u, v));
      case Settle(call) =>
        assert b.inFlight == a.inFlight;
        assert Idles(a, b) && Finishes(u, v, call);
      case Abandon(call) =>
        assert call !in a.inFlight ==> b.inFlight == a.inFlight;
        assert (Finishes(a, b, call) || Idles(a, b)) && Finishes(u, v, call);
    }
  }

  ghost function AttemptGuards(trace: seq<State>): (run: seq<Guarded>)
    ensures |run| == |trace|
    ensures forall i | 0 <= i < |run| :: run[i] == AttemptGuard(trace[i])
  {
    seq(|trace|, i requires 0 <= i < |trace| => AttemptGuard(trace[i]))
  }

  ghost function UseGuards(trace: seq<State>): (run: seq<Guarded>)
    ensures |run| == |trace|
    ensures forall i | 0 <= i < |run| :: run[i] == UseGuard(trace[i])
  {
    seq(|trace|, i requires 0 <= i < |trace| => UseGuard(trace[i]))
  }

  lemma GuardsRun(user: int, now: int, trace: seq<State>, events: seq<Event>)
    requires IsTrace(Challenge(user, now), trace, events)
    ensures IsRun(AttemptGuards(trace), MAX_ATTEMPTS) && IsRun(UseGuards(trace), 1)
  {
    var a, u := AttemptGuards(trace), UseGuards(trace);
    assert a[0] == Guarded(0, {}) && u[0] == Guarded(0, {});
    forall i | 0 <= i < |trace| - 1
      ensures Step(a[i], a[i + 1], MAX_ATTEMPTS) && Step(u[i], u[i + 1], 1)
    {
      assert trace[i + 1] == Next(trace[i], events[i]);
      AlwaysAccounted(user, now, trace, events, i);
      EventIsStep(trace[i], events[i]);
    }
  }

  /**
   With at most k verifications in flight: at most 5 + k - 1 attempts and provider verifications, and at most
   k successes.
   */
  lemma AttemptsAndSuccessesBounded(user: int, now: int, trace: seq<State>, events: seq<Event>, k: nat, i: nat)
    requires IsTrace(Challenge(user, now), trace, events) && i < |trace|
    requires 1 <= k && AtMostVerifying(trace, k)
    ensures trace[i].asked <= trace[i].attempts <= 5 + k - 1
    ensures trace[i].successes <= k
  {
    var a, u := AttemptGuards(trace), UseGuards(trace);
    GuardsRun(user, now, trace, events);
    AlwaysAccounted(user, now, trace, events, i);
    forall j | 0 <= j < |a| ensures |a[j].inFlight| <= k {
      SubsetSize(CallsIn(trace[j].calls, Admitted), trace[j].calls.Keys);
    }
    Overshoot(a, MAX_ATTEMPTS, k);
    assert AtMostInFlight(u, k);
    Overshoot(u, 1, k);
    assert a[i].count <= MAX_ATTEMPTS + k - 1 && u[i].count <= k;
  }

  // ----- The bounds are met -----

  /** Verifications 0 to n - 1; those below `moved` are in the later phase. */
  function Phases(n: nat, moved: nat, later: Phase, earlier: Phase): map<int, Phase> {
    map c | c in Below(n) :: if c < moved then later else earlier
  }

  lemma PhasesSize(n: nat, moved: nat, later: Phase, earlier: Phase)
    ensures |Phases(n, moved, later, earlier).Keys| == n
  {
    assert Phases(n, moved, later, earlier).Keys == Below(n);
  }

  lemma OneMore(n: nat, later: Phase, earlier: Phase)
    ensures n !in Phases(n, 0, later, earlier)
    ensures Phases(n, 0, later, earlier)[n := earlier] == Phases(n + 1, 0, later, earlier)
  {
  }

  lemma OneMoves(n: nat, moved: nat, later: Phase, earlier: Phase)
    requires moved < n
    ensures moved in Phases(n, moved, later, earlier) && Phases(n, moved, later, earlier)[moved] == earlier
    ensures Phases(n, moved, later, earlier)[moved := later] == Phases(n, moved + 1, later, earlier)
  {
  }

  lemma NoPhases()
    ensures Phases(0, 0, Counted, Admitted) == map[]
  {
  }

  lemma NextPhase(n: nat)
    ensures Phases(n, n, Counted, Admitted) == Phases(n, 0, Matched, Counted)
  {
  }

  lemma OneLess(n: nat, later: Phase, earlier: Phase)
    ensures n in Phases(n + 1, n + 1, later, earlier) && Phases(n + 1, n + 1, later, earlier)[n] == later
    ensures Phases(n + 1, n + 1, later, earlier) - {n} == Phases(n, n, later, earlier)
  {
  }

  /** A run with at most k verifications in flight, to this state. */
  ghost predicate Reaches(user: int, now: int, trace: seq<State>, events: seq<Event>, k: nat, s: State) {
    && IsTrace(Challenge(user, now), trace, events) && AtMostVerifying(trace, k)
    && trace[|events|] == s
  }

  lemma Extend(user: int, now: int, trace: seq<State>, events: seq<Event>, k: nat, s: State, e: Event)
    returns (trace': seq<State>, events': seq<Event>)
    requires Reaches(user, now, trace, events, k, s) && |Next(s, e).calls.Keys| <= k
    ensures Reaches(user, now, trace', events', k, Next(s, e))
  {
    trace', events' := trace + [Next(s, e)], events + [e];
  }

  function At(user: int, now: int, attempts: nat, calls: map<int, Phase>, asked: nat, successes: nat): State {
    State(user, attempts, successes > 0, now + VALIDITY, calls, asked, successes)
  }

  /** Four mismatches, then n verifications admitted. */
  function Begun(user: int, now: int, n: nat): State {
    At(user, now, MAX_ATTEMPTS - 1, Phases(n, 0, Counted, Admitted), MAX_ATTEMPTS - 1, 0)
  }

  /** Of k admitted, n counted. */
  function CountedTo(user: int, now: int, k: nat, n: nat): State {
    At(user, now, MAX_ATTEMPTS - 1 + n, Phases(k, n, Counted, Admitted), MAX_ATTEMPTS - 1, 0)
  }

  /** Of k counted, n matched by the provider. */
  function AskedTo(user: int, now: int, k: nat, n: nat): State {
    At(user, now, MAX_ATTEMPTS - 1 + k, Phases(k, n, Matched, Counted), MAX_ATTEMPTS - 1 + n, 0)
  }

  /** Of k matched, all but n settled. */
  function SettledTo(user: int, now: int, k: nat, n: nat): State
    requires n <= k
  {
    At(user, now, MAX_ATTEMPTS - 1 + k, Phases(n, n, Matched, Counted), MAX_ATTEMPTS - 1 + k, k - n)
  }

  lemma {:induction false} Mismatches(user: int, now: int, k: nat, n: nat)
    returns (trace: seq<State>, events: seq<Event>)
    requires 1 <= k && n < MAX_ATTEMPTS
    ensures Reaches(user, now, trace, events, k, At(user, now, n, map[], n, 0))
  {
    if n == 0 {
      trace, events := [Challenge(user, now)], [];
    } else {
      trace, events := Mismatches(user, now, k, n - 1);
      var s0 := At(user, now, n - 1, map[], n - 1, 0);
      var s1 := Next(s0, Begin(0, user, now));
      trace, events := Extend(user, now, trace, events, k, s0, Begin(0, user, now));
      assert s1.calls.Keys == {0};
      var s2 := Next(s1, Count(0));
      assert s2.calls.Keys == {0};
      trace, events := Extend(user, now, trace, events, k, s1, Count(0));
      trace, events := Extend(user, now, trace, events, k, s2, Ask(0, Mismatch));
    }
  }

  lemma {:induction false} AllBegin(user: int, now: int, k: nat, n: nat) returns (trace: seq<State>, events: seq<Event>)
    requires 1 <= k && n <= k
    ensures Reaches(user, now, trace, events, k, Begun(user, now, n))
  {
    hide Phases, IsTrace, AtMostVerifying;
    if n == 0 {
      trace, events := Mismatches(user, now, k, MAX_ATTEMPTS - 1);
      NoPhases();
    } else {
      trace, events := AllBegin(user, now, k, n - 1);
      OneMore(n - 1, Counted, Admitted);
      PhasesSize(n, 0, Counted, Admitted);
      trace, events := Extend(user, now, trace, events, k, Begun(user, now, n - 1), Begin(n - 1, user, now));
    }
  }

  lemma {:induction false} AllCount(user: int, now: int, k: nat, n: nat) returns (trace: seq<State>, events: seq<Event>)
    requires 1 <= k && n <= k
    ensures Reaches(user, now, trace, events, k, CountedTo(user, now, k, n))
  {
    hide Phases, IsTrace, AtMostVerifying;
    if n == 0 {
      trace, events := AllBegin(user, now, k, k);
    } else {
      trace, events := AllCount(user, now, k, n - 1);
      OneMoves(k, n - 1, Counted, Admitted);
      PhasesSize(k, n, Counted, Admitted);
      trace, events := Extend(user, now, trace, events, k, CountedTo(user, now, k, n - 1), Count(n - 1));
    }
  }

  lemma {:induction false} AllAsk(user: int, now: int, k: nat, n: nat) returns (trace: seq<State>, events: seq<Event>)
    requires 1 <= k && n <= k
    ensures Reaches(user, now, trace, events, k, AskedTo(user, now, k, n))
  {
    hide Phases, IsTrace, AtMostVerifying;
    if n == 0 {
      trace, events := AllCount(user, now, k, k);
      NextPhase(k);
    } else {
      trace, events := AllAsk(user, now, k, n - 1);
      OneMoves(k, n - 1, Matched, Counted);
      PhasesSize(k, n, Matched, Counted);
      trace, events := Extend(user, now, trace, events, k, AskedTo(user, now, k, n - 1), Ask(n - 1, Match));
    }
  }

  lemma {:induction false} AllSettle(user: int, now: int, k: nat, n: nat)
    returns (trace: seq<State>, events: seq<Event>)
    requires 1 <= k && n <= k
    ensures Reaches(user, now, trace, events, k, SettledTo(user, now, k, n))
    decreases k - n
  {
    hide Phases, IsTrace, AtMostVerifying;
    if n == k {
      trace, events := AllAsk(user, now, k, k);
    } else {
      trace, events := AllSettle(user, now, k, n + 1);
      OneLess(n, Matched, Counted);
      PhasesSize(n, n, Matched, Counted);
      trace, events := Extend(user, now, trace, events, k, SettledTo(user, now, k, n + 1), Settle(n));
    }
  }

  /**
   The bounds cannot be improved: after four mismatches, k verifications that all
   pass the checks before any is counted bring attempts and provider verifications
   to 5 + k - 1, and all k succeed.
   */
  lemma OverlappingVerificationsAllSucceed(user: int, now: int, k: nat) returns (trace: seq<State>, events: seq<Event>)
    requires 1 <= k
    ensures IsTrace(Challenge(user, now), trace, events) && AtMostVerifying(trace, k)
    ensures trace[|events|].attempts == trace[|events|].asked == 5 + k - 1
    ensures trace[|events|].successes == k
  {
    trace, events := AllSettle(user, now, k, 0);
  }

  /** A challenge succeeds at most once in every interleaving iff verifications of it never overlap. */
  lemma SingleSuccessIffNoOverlap(user: int, now: int, k: nat)
    requires 1 <= k
    ensures (forall trace: seq<State>, events: seq<Event> |
               IsTrace(Challenge(user, now), trace, events) && AtMostVerifying(trace, k) ::
               forall i | 0 <= i < |trace| :: trace[i].successes <= 1)
            <==> k == 1
  {
    if k == 1 {
      forall trace: seq<State>, events: seq<Event> |
        IsTrace(Challenge(user, now), trace, events) && AtMostVerifying(trace, k)
        ensures forall i | 0 <= i < |trace| :: trace[i].successes <= 1
      {
        forall i | 0 <= i < |trace| ensures trace[i].successes <= 1 {
          AttemptsAndSuccessesBounded(user, now, trace, events, 1, i);
        }
      }
    } else {
      var trace, events := OverlappingVerificationsAllSucceed(user, now, k);
      assert trace[|events|].successes > 1;
    }
  }

  // ----- Who can succeed -----

  lemma {:induction false} RowFixed(user: int, now: int, trace: seq<State>, events: seq<Event>, i: nat)
    requires IsTrace(Challenge(user, now), trace, events) && i < |trace|
    ensures trace[i].user == user && trace[i].expiresAt == now + VALIDITY
  {
    if i > 0 {
      RowFixed(user, now, trace, events, i - 1);
      assert trace[i - 1 + 1] == Next(trace[i - 1], events[i - 1]);
    }
  }

  /**
   Who is told what: there is no challenge for another user, nor for anyone once it
   is used or expired; otherwise too many attempts from the fifth on.
   */
  lemma AdmitIff(user: int, now: int, trace: seq<State>, events: seq<Event>, i: nat, who: int, at: int)
    requires IsTrace(Challenge(user, now), trace, events) && i < |trace|
    ensures var gone := who != user || trace[i].successes > 0 || at >= now + 5 * 60 * 1000;
            && (Admit(trace[i], who, at) == NotFound <==> gone)
            && (Admit(trace[i], who, at) == TooManyAttempts <==> !gone && trace[i].attempts >= 5)
            && (Admit(trace[i], who, at) == Proceed <==> !gone && trace[i].attempts < 5)
  {
    AlwaysAccounted(user, now, trace, events, i);
    RowFixed(user, now, trace, events, i);
  }

  /** A matched verification was counted, and matched by the provider after that. */
  lemma {:induction false} MatchedOrigin(user: int, now: int, trace: seq<State>, events: seq<Event>, call: int, i: nat)
    returns (counted: nat, matched: nat)
    requires IsTrace(Challenge(user, now), trace, events) && i < |trace| && In(trace[i], call, Matched)
    ensures counted < matched < i && events[counted] == Count(call) && events[matched] == Ask(call, Match)
    ensures forall j | counted < j <= i :: call in trace[j].calls
  {
    var s, e := trace[i - 1], events[i - 1];
    assert trace[i - 1 + 1] == Next(s, e);
    if In(s, call, Matched) {
      counted, matched := MatchedOrigin(user, now, trace, events, call, i - 1);
    } else {
      counted := CountedOrigin(user, now, trace, events, call, i - 1);
      matched := i - 1;
    }
  }

  lemma {:induction false} CountedOrigin(user: int, now: int, trace: seq<State>, events: seq<Event>, call: int, i: nat)
    returns (counted: nat)
    requires IsTrace(Challenge(user, now), trace, events) && i < |trace| && In(trace[i], call, Counted)
    ensures counted < i && events[counted] == Count(call)
    ensures forall j | counted < j <= i :: call in trace[j].calls
  {
    assert trace[i - 1 + 1] == Next(trace[i - 1], events[i - 1]);
    if In(trace[i - 1], call, Counted) {
      counted := CountedOrigin(user, now, trace, events, call, i - 1);
    } else {
      counted := i - 1;
    }
  }

  /**
   A verification in flight was begun by the challenge's user, before the expiry,
   before any recorded success and with fewer than five attempts made.
   */
  lemma {:induction false} InFlightBegan(user: int, now: int, trace: seq<State>, events: seq<Event>, call: int, i: nat)
    returns (b: nat)
    requires IsTrace(Challenge(user, now), trace, events) && i < |trace| && call in trace[i].calls
    ensures b < i && events[b].Begin? && events[b].call == call && events[b].user == user
    ensures events[b].now < now + 5 * 60 * 1000
    ensures trace[b].successes == 0 && trace[b].attempts < 5
    ensures call !in trace[b].calls && forall j | b < j <= i :: call in trace[j].calls
  {
    var s, e := trace[i - 1], events[i - 1];
    assert trace[i - 1 + 1] == Next(s, e);
    if call in s.calls {
      b := InFlightBegan(user, now, trace, events, call, i - 1);
    } else {
      b := i - 1;
      AlwaysAccounted(user, now, trace, events, b);
      RowFixed(user, now, trace, events, b);
    }
  }

  /**
   A success was begun before the expiry and before any success, counted, and then
   matched by the provider: nothing that starts later, or does not match, ever succeeds.
   */
  lemma SuccessStartedInTime(user: int, now: int, trace: seq<State>, events: seq<Event>, i: nat)
    returns (b: nat, counted: nat, matched: nat)
    requires IsTrace(Challenge(user, now), trace, events) && i < |events|
    requires trace[i + 1].successes > trace[i].successes
    ensures events[i].Settle?
    ensures b < counted < matched < i
    ensures events[b].Begin? && events[b].call == events[i].call && events[b].user == user
    ensures events[counted] == Count(events[i].call) && events[matched] == Ask(events[i].call, Match)
    ensures events[b].now < now + 5 * 60 * 1000 && trace[b].successes == 0
    ensures forall j | b < j <= i :: events[i].call in trace[j].calls
  {
    assert trace[i + 1] == Next(trace[i], events[i]);
    b := InFlightBegan(user, now, trace, events, events[i].call, i);
    counted, matched := MatchedOrigin(user, now, trace, events, events[i].call, i);
  }

  class ChallengeRow {
    const user: int
    const expiresAt: int
    var attempts: nat
    var used: bool
    var calls: map<int, Phase>
    ghost var asked: nat
    ghost var successes: nat

    ghost function Model(): State
      reads this
    {
      State(user, attempts, used, expiresAt, calls, asked, successes)
    }

    constructor (user: int, now: int)
      ensures Model() == Challenge(user, now)
    {
      this.user, expiresAt := user, now + VALIDITY;
      attempts, used, calls, asked, successes := 0, false, map[], 0, 0;
    }

    method VerifyBegin(call: int, user: int, now: int) returns (admission: Admission)
      requires call !in calls
      modifies this
      ensures Model() == Next(old(Model()), Begin(call, user, now))
      ensures admission == Admit(old(Model()), user, now)
    {
      if !(this.user == user && !used && expiresAt > now) {
        return NotFound;
      }
      if attempts >= MAX_ATTEMPTS {
        return TooManyAttempts;
      }
      calls := calls[call := Admitted];
      admission := Proceed;
    }

    method VerifyCount(call: int)
      requires In(Model(), call, Admitted)
      modifies this
      ensures Model() == Next(old(Model()), Count(call))
    {
      attempts := attempts + 1;
      calls := calls[call := Counted];
    }

    method VerifyAsk(call: int, answer: Answer)
      requires In(Model(), call, Counted)
      modifies this
      ensures Model() == Next(old(Model()), Ask(call, answer))
    {
      if answer == UnknownMethod {
        calls := calls - {call};
        return;
      }
      asked := asked + 1;
      if answer == Match {
        calls := calls[call := Matched];
      } else {
        calls := calls - {call};
      }
    }

    method VerifySettle(call: int) returns (ok: bool)
      requires In(Model(), call, Matched)
      modifies this
      ensures ok && Model() == Next(old(Model()), Settle(call))
    {
      used := true;
      calls := calls - {call};
      successes := successes + 1;
      ok := true;
    }
  }
}
