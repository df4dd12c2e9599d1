/**
 The failure guard in front of the token endpoint: a counter per client address
 that is raised on every 401 and whose key expires one window after the last
 one. The counter is read when a request arrives and raised when it has been
 answered, so requests overlap. Times are milliseconds of the store's clock.
 */
module BruteForce {
  import opened Base
  import opened CheckThenAct

  const LIMIT: nat := 10
  const WINDOW: int := 15 * 60 * 1000

  datatype Mark = Failed(at: int) | Cleared

  datatype Event =
    | Begin(call: int, now: int)
    | Finish(call: int, now: int, unauthorized: bool)
    | Clear(now: int)

  /** The stored key, the requests being answered, and every failure and clear so far. */
  datatype State = State(counter: nat, deadline: int, inFlight: set<int>, marks: seq<Mark>)

  const START: State := State(0, 0, {}, [])

  /** The value a read of the key returns; an absent key reads as zero. */
  function Live(s: State, now: int): nat {
    if now < s.deadline then s.counter else 0
  }

  predicate Blocked(s: State, now: int) {
    Live(s, now) >= LIMIT
  }

  /** One atomic step. A request whose call id is already in use, or unknown, is ignored. */
  function Next(s: State, e: Event): State {
    match e
    case Begin(call, now) =>
      if call in s.inFlight || Blocked(s, now) then s
      else s.(inFlight := s.inFlight + {call})
    case Finish(call, now, unauthorized) =>
      if call !in s.inFlight then s
      else if unauthorized then
        State(Live(s, now) + 1, now + WINDOW, s.inFlight - {call}, s.marks + [Failed(now)])
      else
        s.(inFlight := s.inFlight - {call})
    case Clear(_) =>
      State(0, 0, s.inFlight, s.marks + [Cleared])
  }

  class FailureCounter {
    var counter: nat
    var deadline: int
    var inFlight: set<int>
    ghost var marks: seq<Mark>

    ghost function Model(): State
      reads this
    {
      State(counter, deadline, inFlight, marks)
    }

    constructor ()
      ensures Model() == START
    {
      counter, deadline, inFlight, marks := 0, 0, {}, [];
    }

    method Get(now: int) returns (count: nat)
      ensures count == Live(Model(), now)
    {
      count := if now < deadline then counter else 0;
    }

    /** A request arrives; either it is answered 429 at once or the handler starts on it. */
    method Arrive(call: int, now: int) returns (served: bool)
      requires call !in inFlight
      modifies this
      ensures Model() == Next(old(Model()), Begin(call, now))
      ensures served <==> !Blocked(old(Model()), now)
    {
      var count := Get(now);
      if count >= LIMIT {
        return false;
      }
      inFlight := inFlight + {call};
      served := true;
    }

    /** The handler has written its status; only a 401 counts as a failed attempt. */
    method Answered(call: int, now: int, status: int)
      requires call in inFlight
      modifies this
      ensures Model() == Next(old(Model()), Finish(call, now, status == 401))
    {
      if status == 401 {
        var count := Get(now);
        counter := count + 1;
        deadline := now + WINDOW;
        marks := marks + [Failed(now)];
      }
      inFlight := inFlight - {call};
    }

    method RecordSuccess(now: int)
      modifies this
      ensures Model() == Next(old(Model()), Clear(now))
    {
      counter, deadline := 0, 0;
      marks := marks + [Cleared];
    }
  }

  // ----- Runs -----

  ghost predicate IsTrace(trace: seq<State>, events: seq<Event>) {
    && |trace| == |events| + 1
    && trace[0] == START
    && (forall i | 0 <= i < |events| :: trace[i + 1] == Next(trace[i], events[i]))
    && (forall i, j | 0 <= i < j < |events| :: events[i].now <= events[j].now)
    && (forall i | 0 <= i < |events| :: 0 <= events[i].now)
  }

  // ----- The counter is the length of a chain of failures -----

  /** The last k marks are failures, each less than a window before the next, the last less than a window ago. */
  ghost predicate Linked(marks: seq<Mark>, k: nat, now: int) {
    && k <= |marks|
    && (forall i | |marks| - k <= i < |marks| :: marks[i].Failed?)
    && (forall i | |marks| - k <= i < |marks| - 1 :: marks[i + 1].at - marks[i].at < WINDOW)
    && (k > 0 ==> now - marks[|marks| - 1].at < WINDOW)
  }

  function Chain(marks: seq<Mark>, now: int): nat {
    if marks == [] then 0 else
    match marks[|marks| - 1]
    case Cleared => 0
    case Failed(at) => if now - at < WINDOW then 1 + Chain(marks[..|marks| - 1], at) else 0
  }

  /** Chain is the length of the longest linked suffix. */
  lemma {:induction false} ChainIsLongest(marks: seq<Mark>, now: int, k: nat)
    ensures Linked(marks, Chain(marks, now), now)
    ensures Linked(marks, k, now) ==> k <= Chain(marks, now)
  {
    if marks != [] && marks[|marks| - 1].Failed? && now - marks[|marks| - 1].at < WINDOW {
      var shorter, at := marks[..|marks| - 1], marks[|marks| - 1].at;
      ChainIsLongest(shorter, at, if k > 0 then k - 1 else 0);
      var n := Chain(marks, now);
      forall i | |marks| - n <= i < |marks| - 1 ensures marks[i].Failed? && marks[i + 1].at - marks[i].at < WINDOW {
        assert shorter[i] == marks[i];
        if i < |marks| - 2 {
          assert shorter[i + 1] == marks[i + 1];
        }
      }
      if k > 0 && Linked(marks, k, now) {
        assert Linked(shorter, k - 1, at);
      }
    }
  }

  /** What the key holds, as a function of the marks alone. */
  ghost predicate KeyFollowsMarks(s: State) {
    if s.marks == [] || s.marks[|s.marks| - 1].Cleared? then
      s.counter == 0 && s.deadline == 0
    else
      var at := s.marks[|s.marks| - 1].at;
      s.deadline == at + WINDOW && s.counter == 1 + Chain(s.marks[..|s.marks| - 1], at)
  }

  lemma KeyIsChain(s: State, now: int)
    requires KeyFollowsMarks(s)
    ensures Live(s, now) == Chain(s.marks, now)
  {
  }

  lemma {:induction false} KeyAlwaysFollowsMarks(trace: seq<State>, events: seq<Event>, i: nat)
    requires IsTrace(trace, events) && i < |trace|
    ensures KeyFollowsMarks(trace[i])
  {
    if i > 0 {
      KeyAlwaysFollowsMarks(trace, events, i - 1);
      var s, e := trace[i - 1], events[i - 1];
      assert trace[i - 1 + 1] == Next(s, e);
      KeyIsChain(s, e.now);
      if trace[i].marks != s.marks {
        assert trace[i].marks[..|trace[i].marks| - 1] == s.marks;
      }
    }
  }

  /**
   In every interleaving, at any time, the counter is the length of the longest linked run of failures since
   the last clear.
   */
  lemma CounterIsLongestChain(trace: seq<State>, events: seq<Event>, i: nat, now: int)
    requires IsTrace(trace, events) && i < |trace|
    ensures Linked(trace[i].marks, Live(trace[i], now), now)
    ensures forall k: nat | Linked(trace[i].marks, k, now) :: k <= Live(trace[i], now)
  {
    KeyAlwaysFollowsMarks(trace, events, i);
    KeyIsChain(trace[i], now);
    forall k: nat ensures Linked(trace[i].marks, k, now) ==> k <= Live(trace[i], now) {
      ChainIsLongest(trace[i].marks, now, k);
    }
    ChainIsLongest(trace[i].marks, now, 0);
  }

  // ----- How far the counter can go -----

  /** Time of the last event before state i. */
  function At(events: seq<Event>, i: nat): int
    requires i <= |events|
  {
    if i == 0 then 0 else events[i - 1].now
  }

  ghost function Guard(s: State, now: int): Guarded {
    Guarded(Live(s, now), s.inFlight)
  }

  lemma EventIsStep(s: State, e: Event, before: int)
    requires before <= e.now
    ensures Step(Guard(s, before), Guard(Next(s, e), e.now), LIMIT)
  {
    var g, h := Guard(s, before), Guard(Next(s, e), e.now);
    match e
    case Begin(call, now) =>
      assert Enters(g, h, LIMIT, call) || Idles(g, h);
    case Finish(call, now, _) =>
      assert Finishes(g, h, call) || Idles(g, h);
    case Clear(_) =>
      assert Idles(g, h);
  }

  ghost function Guards(trace: seq<State>, events: seq<Event>): (run: seq<Guarded>)
    requires |trace| == |events| + 1
    ensures |run| == |trace|
    ensures forall i | 0 <= i < |run| :: run[i] == Guard(trace[i], At(events, i))
  {
    seq(|trace|, i requires 0 <= i < |trace| => Guard(trace[i], At(events, i)))
  }

  lemma GuardsRun(trace: seq<State>, events: seq<Event>)
    requires IsTrace(trace, events)
    ensures IsRun(Guards(trace, events), LIMIT)
  {
    var run := Guards(trace, events);
    forall i | 0 <= i < |run| - 1 ensures Step(run[i], run[i + 1], LIMIT) {
      assert trace[i + 1] == Next(trace[i], events[i]);
      assert At(events, i) <= At(events, i + 1);
      EventIsStep(trace[i], events[i], At(events, i));
    }
  }

  /** With at most k requests between check and raise, the counter never passes 10 + k - 1; 10 if none overlap. */
  lemma CounterBound(trace: seq<State>, events: seq<Event>, k: nat, i: nat, now: int)
    requires IsTrace(trace, events) && i < |trace| && At(events, i) <= now
    requires 1 <= k && forall j | 0 <= j < |trace| :: |trace[j].inFlight| <= k
    ensures Live(trace[i], now) <= 10 + k - 1
  {
    var run := Guards(trace, events);
    GuardsRun(trace, events);
    assert AtMostInFlight(run, k);
    Overshoot(run, LIMIT, k);
    assert Live(trace[i], now) <= run[i].count;
  }

  // ----- The bound is met when requests do overlap -----

  function Run(s: State, events: seq<Event>): State
    decreases |events|
  {
    if events == [] then s else Run(Next(s, events[0]), events[1..])
  }

  lemma {:induction false} RunConcat(s: State, first: seq<Event>, second: seq<Event>)
    ensures Run(s, first + second) == Run(Run(s, first), second)
    decreases |first|
  {
    if first == [] {
      assert first + second == second;
    } else {
      assert (first + second)[1..] == first[1..] + second;
      RunConcat(Next(s, first[0]), first[1..], second);
    }
  }

  function Arrivals(from: nat, k: nat, now: int): seq<Event>
    requires from <= k
    decreases k - from
  {
    if from == k then [] else [Begin(from, now)] + Arrivals(from + 1, k, now)
  }

  function Failures(k: nat, now: int): seq<Event> {
    if k == 0 then [] else [Finish(k - 1, now, true)] + Failures(k - 1, now)
  }

  lemma {:induction false} AllArrive(s: State, from: nat, k: nat, now: int)
    requires from <= k && !Blocked(s, now) && s.inFlight == Below(from)
    ensures Run(s, Arrivals(from, k, now)) == s.(inFlight := Below(k))
    decreases k - from
  {
    if from < k {
      assert Below(from + 1) == Below(from) + {from};
      AllArrive(Next(s, Begin(from, now)), from + 1, k, now);
    }
  }

  lemma {:induction false} AllFail(s: State, k: nat, now: int)
    requires s.inFlight == Below(k)
    ensures Live(Run(s, Failures(k, now)), now) == Live(s, now) + k
    decreases k
  {
    if k > 0 {
      assert Below(k) - {k - 1} == Below(k - 1);
      AllFail(Next(s, Finish(k - 1, now, true)), k - 1, now);
    }
  }

  /** One below the limit, k requests that all arrive before any is answered 401 bring the counter to 10 + k - 1. */
  lemma OverlapReachesBound(s: State, k: nat, now: int)
    requires Live(s, now) == LIMIT - 1 && s.inFlight == {}
    ensures Live(Run(s, Arrivals(0, k, now) + Failures(k, now)), now) == 10 + k - 1
  {
    RunConcat(s, Arrivals(0, k, now), Failures(k, now));
    AllArrive(s, 0, k, now);
    AllFail(s.(inFlight := Below(k)), k, now);
  }

  // ----- How long a block lasts -----

  /** No failure and no clear: requests arrive, and those in flight are answered with something else than 401. */
  ghost predicate NoneCounts(events: seq<Event>) {
    forall i | 0 <= i < |events| :: !events[i].Clear? && !(events[i].Finish? && events[i].unauthorized)
  }

  /**
   A block begun by a failure at time `at` ends exactly one window later: whatever
   arrives or is answered meanwhile leaves the key alone, and a request at time `now`
   is served if and only if the window is over. During the window none is let in.
   */
  lemma {:induction false} BlockLastsOneWindow(s: State, at: int, events: seq<Event>, now: int)
    requires KeyFollowsMarks(s) && Blocked(s, at)
    requires s.marks != [] && s.marks[|s.marks| - 1] == Failed(at)
    requires NoneCounts(events) && at <= now
    ensures Run(s, events) == s.(inFlight := Run(s, events).inFlight)
    ensures Blocked(Run(s, events), now) <==> now < at + 15 * 60 * 1000
    ensures (forall i | 0 <= i < |events| :: at <= events[i].now < at + 15 * 60 * 1000) ==>
              Run(s, events).inFlight <= s.inFlight
    decreases |events|
  {
    if events != [] {
      assert !events[0].Clear? && !(events[0].Finish? && events[0].unauthorized);
      BlockLastsOneWindow(Next(s, events[0]), at, events[1..], now);
    }
  }
}
