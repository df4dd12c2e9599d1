/**
 Just-in-time access: a request is pending until it is approved or denied.
 Approving reads the row in one statement and writes in a later transaction, so
 approvals of the same request overlap each other and a denial; denying and
 revoking are single conditional updates. Times are milliseconds; the ids of
 requests and grants are their positions in the order of insertion.
 */
module Jit {
  import opened Base
  import opened CheckThenAct
  import opened Lifetimes

  const MINUTE: int := 60000
  const MAX_MINUTES: int := 480

  datatype Status = Pending | Approved | Denied

  datatype Request = Request(tenant: int, requester: int, role: string, status: Status,
                             minutes: int, expiresAt: Option<int>)

  datatype Grant = Grant(tenant: int, request: nat, requester: int, approver: int, role: string,
                         startsAt: int, expiresAt: int, revokedAt: Option<int>)

  /** An approval that has read its request as pending and not yet committed. */
  datatype Approval = Approval(tenant: int, request: nat, requester: int, approver: int, role: string,
                               startsAt: int, expiresAt: int)

  datatype State = State(requests: seq<Request>, grants: seq<Grant>, calls: map<int, Approval>)

  const START: State := State([], [], map[])

  datatype Event =
    | Create(tenant: int, requester: int, role: string, justification: string, minutes: int)
    | Read(call: int, tenant: int, request: nat, approver: int, now: int)
    | Commit(call: int)
    | Abandon(call: int)
    | Deny(tenant: int, request: nat)
    | Revoke(tenant: int, grant: nat, now: int)

  predicate Creatable(justification: string, minutes: int) {
    !(minutes <= 0 || minutes > MAX_MINUTES) && justification != ""
  }

  /** Does the row exist for this tenant with status pending? */
  predicate IsPending(s: State, tenant: int, request: nat) {
    && request < |s.requests|
    && s.requests[request].tenant == tenant
    && s.requests[request].status == Pending
  }

  predicate IsRevocable(s: State, tenant: int, grant: nat) {
    && grant < |s.grants|
    && s.grants[grant].tenant == tenant
    && s.grants[grant].revokedAt.None?
  }

  function Next(s: State, e: Event): State {
    match e
    case Create(tenant, requester, role, justification, minutes) =>
      if !Creatable(justification, minutes) then s
      else s.(requests := s.requests + [Request(tenant, requester, role, Pending, minutes, None)])
    case Read(call, tenant, request, approver, now) =>
      if call in s.calls || !IsPending(s, tenant, request) then s
      else
        var r := s.requests[request];
        s.(calls := s.calls[call := Approval(tenant, request, r.requester, approver, r.role,
                                             now, now + r.minutes * MINUTE)])
    case Commit(call) =>
      if call !in s.calls || |s.requests| <= s.calls[call].request then s
      else
        var a := s.calls[call];
        State(s.requests[a.request := s.requests[a.request].(status := Approved, expiresAt := Some(a.expiresAt))],
              s.grants + [Grant(a.tenant, a.request, a.requester, a.approver, a.role, a.startsAt, a.expiresAt, None)],
              s.calls - {call})
    case Abandon(call) =>
      s.(calls := s.calls - {call})
    case Deny(tenant, request) =>
      if !IsPending(s, tenant, request) then s
      else s.(requests := s.requests[request := s.requests[request].(status := Denied)])
    case Revoke(tenant, grant, now) =>
      if !IsRevocable(s, tenant, grant) then s
      else s.(grants := s.grants[grant := s.grants[grant].(revokedAt := Some(now))])
  }

  ghost predicate IsTrace(start: State, trace: seq<State>, events: seq<Event>) {
    && |trace| == |events| + 1
    && trace[0] == start
    && forall i | 0 <= i < |events| :: trace[i + 1] == Next(trace[i], events[i])
  }

  // ----- What every step keeps -----

  /** The last committed grant of a request. */
  function LastGrant(grants: seq<Grant>, request: nat): Option<Grant> {
    if grants == [] then None
    else if grants[|grants| - 1].request == request then Some(grants[|grants| - 1])
    else LastGrant(grants[..|grants| - 1], request)
  }

  function GrantCount(grants: seq<Grant>, request: nat): nat {
    if grants == [] then 0
    else GrantCount(grants[..|grants| - 1], request) + if grants[|grants| - 1].request == request then 1 else 0
  }

  ghost predicate GrantMatches(s: State, g: Grant) {
    && g.request < |s.requests|
    && var r := s.requests[g.request];
    && r.status == Approved && r.tenant == g.tenant && r.requester == g.requester && r.role == g.role
    && g.expiresAt - g.startsAt == r.minutes * MINUTE
  }

  ghost predicate ApprovalMatches(s: State, a: Approval) {
    && a.request < |s.requests|
    && var r := s.requests[a.request];
    && r.tenant == a.tenant && r.requester == a.requester && r.role == a.role
    && a.expiresAt - a.startsAt == r.minutes * MINUTE
  }

  /** The status and expiry of a request tell its committed grants. */
  ghost predicate RequestMatches(s: State, request: nat)
    requires request < |s.requests|
  {
    var r, last := s.requests[request], LastGrant(s.grants, request);
    && 1 <= r.minutes <= MAX_MINUTES
    && (r.status == Approved <==> last.Some?)
    && r.expiresAt == (if last.Some? then Some(last.value.expiresAt) else None)
  }

  ghost predicate Consistent(s: State) {
    && (forall i | 0 <= i < |s.grants| :: GrantMatches(s, s.grants[i]))
    && (forall c | c in s.calls :: ApprovalMatches(s, s.calls[c]))
    && (forall r | 0 <= r < |s.requests| :: RequestMatches(s, r))
  }

  lemma {:induction false} LastGrantOfRevoked(grants: seq<Grant>, g: nat, at: Option<int>, request: nat)
    requires g < |grants|
    ensures var changed := grants[g := grants[g].(revokedAt := at)];
            && LastGrant(changed, request).Some? == LastGrant(grants, request).Some?
            && (LastGrant(grants, request).Some? ==>
                  LastGrant(changed, request).value.expiresAt == LastGrant(grants, request).value.expiresAt)
            && GrantCount(changed, request) == GrantCount(grants, request)
  {
    var n := |grants| - 1;
    var changed := grants[g := grants[g].(revokedAt := at)];
    if g < n {
      assert changed[..n] == grants[..n][g := grants[g].(revokedAt := at)];
      LastGrantOfRevoked(grants[..n], g, at, request);
    } else {
      assert changed[..n] == grants[..n];
    }
  }

  lemma {:induction false} LastGrantIsNone(grants: seq<Grant>, request: nat)
    ensures LastGrant(grants, request).None? <==> GrantCount(grants, request) == 0
    ensures LastGrant(grants, request).None? <==> forall i | 0 <= i < |grants| :: grants[i].request != request
  {
    if grants != [] {
      var n := |grants| - 1;
      LastGrantIsNone(grants[..n], request);
      assert forall i | 0 <= i < n :: grants[..n][i] == grants[i];
    }
  }

  lemma NextKeepsConsistent(s: State, e: Event)
    requires Consistent(s)
    ensures Consistent(Next(s, e))
  {
    var t := Next(s, e);
    forall i | 0 <= i < |t.grants| ensures GrantMatches(t, t.grants[i]) {
      if i < |s.grants| {
        assert GrantMatches(s, s.grants[i]);
      }
    }
    forall c | c in t.calls ensures ApprovalMatches(t, t.calls[c]) {
      if c in s.calls {
        assert ApprovalMatches(s, s.calls[c]);
      }
    }
    forall r | 0 <= r < |t.requests| ensures RequestMatches(t, r) {
      RequestStaysMatched(s, e, r);
    }
  }

  lemma RequestStaysMatched(s: State, e: Event, r: nat)
    requires Consistent(s) && r < |Next(s, e).requests|
    ensures RequestMatches(Next(s, e), r)
  {
    var t := Next(s, e);
    if r < |s.requests| {
      assert RequestMatches(s, r);
    } else {
      LastGrantIsNone(s.grants, r);
      assert forall i | 0 <= i < |s.grants| :: GrantMatches(s, s.grants[i]);
    }
    if e.Commit? && t != s {
      assert t.grants[..|t.grants| - 1] == s.grants;
    } else if e.Revoke? && t != s {
      LastGrantOfRevoked(s.grants, e.grant, Some(e.now), r);
    }
  }

  lemma {:induction false} AlwaysConsistent(trace: seq<State>, events: seq<Event>, i: nat)
    requires IsTrace(START, trace, events) && i < |trace|
    ensures Consistent(trace[i])
  {
    if i > 0 {
      AlwaysConsistent(trace, events, i - 1);
      assert trace[i - 1 + 1] == Next(trace[i - 1], events[i - 1]);
      NextKeepsConsistent(trace[i - 1], events[i - 1]);
    }
  }

  /**
   In every interleaving each grant belongs to an approved request of the same tenant, requester and role, for
   1 to 480 minutes.
   */
  lemma EveryGrantIsApproved(trace: seq<State>, events: seq<Event>, i: nat, g: nat)
    requires IsTrace(START, trace, events) && i < |trace| && g < |trace[i].grants|
    ensures var s, grant := trace[i], trace[i].grants[g];
            && grant.request < |s.requests|
            && var request := s.requests[grant.request];
            && request.status == Approved && request.tenant == grant.tenant
            && request.requester == grant.requester && request.role == grant.role
            && grant.expiresAt == grant.startsAt + request.minutes * 60 * 1000 && 1 <= request.minutes <= 480
  {
    AlwaysConsistent(trace, events, i);
    assert GrantMatches(trace[i], trace[i].grants[g]);
    assert RequestMatches(trace[i], trace[i].grants[g].request);
  }

  /** A request is approved iff it has a grant, and then expires with its last committed one; a denied one has none. */
  lemma StatusTellsGrants(trace: seq<State>, events: seq<Event>, i: nat, r: nat)
    requires IsTrace(START, trace, events) && i < |trace| && r < |trace[i].requests|
    ensures var s := trace[i];
            && (s.requests[r].status == Approved <==> GrantCount(s.grants, r) > 0)
            && (s.requests[r].status == Approved ==>
                  && LastGrant(s.grants, r).Some?
                  && s.requests[r].expiresAt == Some(LastGrant(s.grants, r).value.expiresAt))
            && (s.requests[r].status == Denied ==> forall g | 0 <= g < |s.grants| :: s.grants[g].request != r)
  {
    AlwaysConsistent(trace, events, i);
    assert RequestMatches(trace[i], r);
    LastGrantIsNone(trace[i].grants, r);
  }

  lemma {:induction false} ApprovedIsNeverLeft(start: State, trace: seq<State>, events: seq<Event>, r: nat, i: nat)
    requires IsTrace(start, trace, events) && i < |trace|
    requires r < |start.requests| && start.requests[r].status == Approved
    ensures r < |trace[i].requests| && trace[i].requests[r].status == Approved
  {
    if i > 0 {
      ApprovedIsNeverLeft(start, trace, events, r, i - 1);
      assert trace[i - 1 + 1] == Next(trace[i - 1], events[i - 1]);
    }
  }

  // ----- Where grants come from -----

  lemma {:induction false} ApprovalOrigin(trace: seq<State>, events: seq<Event>, call: int, i: nat) returns (b: nat)
    requires IsTrace(START, trace, events) && i < |trace| && call in trace[i].calls
    ensures b < i && events[b].Read? && events[b].call == call
    ensures var a, e := trace[i].calls[call], events[b];
            && e.tenant == a.tenant && e.request == a.request && e.approver == a.approver && e.now == a.startsAt
            && e.request < |trace[b].requests|
            && trace[b].requests[e.request].status == Pending && trace[b].requests[e.request].tenant == e.tenant
  {
    assert trace[i - 1 + 1] == Next(trace[i - 1], events[i - 1]);
    if call in trace[i - 1].calls {
      b := ApprovalOrigin(trace, events, call, i - 1);
    } else {
      b := i - 1;
    }
  }

  predicate IsRevocation(e: Event, tenant: int, g: nat) {
    e.Revoke? && e.tenant == tenant && e.grant == g
  }

  /**
   Every grant starts when its approver read its request as pending, and was
   committed later by the same call; it is unrevoked unless its tenant asked for
   its revocation since.
   */
  lemma {:induction false} GrantOrigin(trace: seq<State>, events: seq<Event>, i: nat, g: nat)
    returns (read: nat, commit: nat)
    requires IsTrace(START, trace, events) && i < |trace| && g < |trace[i].grants|
    ensures read < commit < i && |trace[commit].grants| == g
    ensures events[read].Read? && events[commit] == Commit(events[read].call)
    ensures var grant, e := trace[i].grants[g], events[read];
            && e.tenant == grant.tenant && e.request == grant.request
            && e.approver == grant.approver && e.now == grant.startsAt
            && e.request < |trace[read].requests|
            && trace[read].requests[e.request].status == Pending && trace[read].requests[e.request].tenant == e.tenant
    ensures trace[i].grants[g].revokedAt == None <==>
              forall j | commit < j < i :: !IsRevocation(events[j], trace[i].grants[g].tenant, g)
  {
    assert trace[i - 1 + 1] == Next(trace[i - 1], events[i - 1]);
    if g < |trace[i - 1].grants| {
      read, commit := GrantOrigin(trace, events, i - 1, g);
    } else {
      read := ApprovalOrigin(trace, events, events[i - 1].call, i - 1);
      commit := i - 1;
    }
  }

  /**
   Every request was created, with what it still asks for, by someone who gave a duration in range and a
   justification.
   */
  lemma {:induction false} RequestOrigin(trace: seq<State>, events: seq<Event>, i: nat, r: nat) returns (b: nat)
    requires IsTrace(START, trace, events) && i < |trace| && r < |trace[i].requests|
    ensures b < i && events[b].Create? && events[b].justification != "" && 1 <= events[b].minutes <= 480
    ensures |trace[b].requests| == r
    ensures var request := trace[i].requests[r];
            && request.tenant == events[b].tenant && request.requester == events[b].requester
            && request.role == events[b].role && request.minutes == events[b].minutes
  {
    assert trace[i - 1 + 1] == Next(trace[i - 1], events[i - 1]);
    if r < |trace[i - 1].requests| {
      b := RequestOrigin(trace, events, i - 1, r);
    } else {
      b := i - 1;
    }
  }

  /** Which requests are accepted: a duration of 1 to 480 minutes and a justification. */
  lemma CreationIff(s: State, e: Event)
    requires e.Create?
    ensures |Next(s, e).requests| > |s.requests| <==> 1 <= e.minutes <= 480 && e.justification != ""
  {
  }

  /** A denied request was denied by its own tenant while it was pending. */
  lemma {:induction false} DenialOrigin(trace: seq<State>, events: seq<Event>, i: nat, r: nat) returns (b: nat)
    requires IsTrace(START, trace, events) && i < |trace| && r < |trace[i].requests|
    requires trace[i].requests[r].status == Denied
    ensures b < i && events[b].Deny? && events[b].request == r
    ensures events[b].tenant == trace[i].requests[r].tenant
    ensures r < |trace[b].requests| && trace[b].requests[r].status == Pending
  {
    assert trace[i - 1 + 1] == Next(trace[i - 1], events[i - 1]);
    if r < |trace[i - 1].requests| && trace[i - 1].requests[r].status == Denied {
      b := DenialOrigin(trace, events, i - 1, r);
    } else {
      b := i - 1;
    }
  }

  // ----- How many grants one request can get -----

  ghost function Overlap(s: State, r: nat): set<int> {
    set c | c in s.calls && s.calls[c].request == r
  }

  ghost function Guard(s: State, r: nat): Guarded {
    Guarded(GrantCount(s.grants, r), Overlap(s, r))
  }

  lemma ReadIsStep(s: State, e: Event, r: nat)
    requires Consistent(s) && e.Read?
    ensures Step(Guard(s, r), Guard(Next(s, e), r), 1)
  {
    var t := Next(s, e);
    var g, h := Guard(s, r), Guard(t, r);
    if t != s && e.request == r {
      assert RequestMatches(s, r);
      LastGrantIsNone(s.grants, r);
      assert Enters(g, h, 1, e.call);
    } else {
      assert h.inFlight == g.inFlight;
      assert Idles(g, h);
    }
  }

  lemma CommitIsStep(s: State, e: Event, r: nat)
    requires Consistent(s) && e.Commit?
    ensures Step(Guard(s, r), Guard(Next(s, e), r), 1)
  {
    var t := Next(s, e);
    var g, h := Guard(s, r), Guard(t, r);
    if t == s {
      assert Idles(g, h);
    } else {
      assert t.grants[..|t.grants| - 1] == s.grants;
      if s.calls[e.call].request == r {
        assert Finishes(g, h, e.call);
      } else {
        assert h.inFlight == g.inFlight;
        assert Idles(g, h);
      }
    }
  }

  lemma AbandonIsStep(s: State, e: Event, r: nat)
    requires e.Abandon?
    ensures Step(Guard(s, r), Guard(Next(s, e), r), 1)
  {
    var g, h := Guard(s, r), Guard(Next(s, e), r);
    if e.call in g.inFlight {
      assert Finishes(g, h, e.call);
    } else {
      assert h.inFlight == g.inFlight;
      assert Idles(g, h);
    }
  }

  lemma RevokeIsStep(s: State, e: Event, r: nat)
    requires e.Revoke?
    ensures Step(Guard(s, r), Guard(Next(s, e), r), 1)
  {
    if Next(s, e) != s {
      LastGrantOfRevoked(s.grants, e.grant, Some(e.now), r);
    }
    assert Idles(Guard(s, r), Guard(Next(s, e), r));
  }

  lemma RequestsOnlyIsStep(s: State, e: Event, r: nat)
    requires e.Create? || e.Deny?
    ensures Step(Guard(s, r), Guard(Next(s, e), r), 1)
  {
    assert Idles(Guard(s, r), Guard(Next(s, e), r));
  }

  lemma EventIsStep(s: State, e: Event, r: nat)
    requires Consistent(s)
    ensures Step(Guard(s, r), Guard(Next(s, e), r), 1)
  {
    hide Next, Guard, Step, Consistent;
    match e
    case Create(_, _, _, _, _) => RequestsOnlyIsStep(s, e, r);
    case Read(_, _, _, _, _) => ReadIsStep(s, e, r);
    case Commit(_) => CommitIsStep(s, e, r);
    case Abandon(_) => AbandonIsStep(s, e, r);
    case Deny(_, _) => RequestsOnlyIsStep(s, e, r);
    case Revoke(_, _, _) => RevokeIsStep(s, e, r);
  }

  ghost function Guards(trace: seq<State>, r: nat): (run: seq<Guarded>)
    ensures |run| == |trace|
    ensures forall i | 0 <= i < |run| :: run[i] == Guard(trace[i], r)
  {
    seq(|trace|, i requires 0 <= i < |trace| => Guard(trace[i], r))
  }

  lemma GuardsRun(trace: seq<State>, events: seq<Event>, r: nat)
    requires IsTrace(START, trace, events)
    ensures IsRun(Guards(trace, r), 1)
  {
    var run := Guards(trace, r);
    assert run[0] == Guarded(0, {});
    forall i | 0 <= i < |run| - 1 ensures Step(run[i], run[i + 1], 1) {
      assert trace[i + 1] == Next(trace[i], events[i]);
      AlwaysConsistent(trace, events, i);
      EventIsStep(trace[i], events[i], r);
    }
  }

  ghost predicate AtMostOverlapping(trace: seq<State>, r: nat, k: nat) {
    forall j | 0 <= j < |trace| :: |Overlap(trace[j], r)| <= k
  }

  /** At most k grants per request when at most k approvals of it overlap. */
  lemma GrantBound(trace: seq<State>, events: seq<Event>, r: nat, k: nat, i: nat)
    requires IsTrace(START, trace, events) && i < |trace|
    requires 1 <= k && AtMostOverlapping(trace, r, k)
    ensures GrantCount(trace[i].grants, r) <= k
  {
    var run := Guards(trace, r);
    GuardsRun(trace, events, r);
    assert AtMostInFlight(run, k);
    Overshoot(run, 1, k);
    assert run[i].count <= k;
  }

  /** Exactly one grant per approved request when no two approvals of it overlap. */
  lemma OneGrantPerApproval(trace: seq<State>, events: seq<Event>, r: nat, i: nat)
    requires IsTrace(START, trace, events) && i < |trace| && r < |trace[i].requests|
    requires AtMostOverlapping(trace, r, 1)
    ensures GrantCount(trace[i].grants, r) == if trace[i].requests[r].status == Approved then 1 else 0
  {
    GrantBound(trace, events, r, 1, i);
    StatusTellsGrants(trace, events, i, r);
  }

  // ----- The bound is met -----

  const APPROVAL: Approval := Approval(1, 0, 2, 3, "admin", 0, 60 * MINUTE)

  /** One request for an hour, the approvals 0 to n - 1 of it in flight, and so many grants. */
  ghost predicate At(s: State, n: nat, granted: nat) {
    && |s.requests| == 1
    && s.requests[0].tenant == 1 && s.requests[0].requester == 2 && s.requests[0].role == "admin"
    && s.requests[0].minutes == 60 && (granted == 0 ==> s.requests[0].status == Pending)
    && s.calls.Keys == Below(n) && (forall c | c in s.calls :: s.calls[c] == APPROVAL)
    && GrantCount(s.grants, 0) == granted
  }

  lemma OneReads(s: State, n: nat)
    requires At(s, n, 0)
    ensures At(Next(s, Read(n, 1, 0, 3, 0)), n + 1, 0)
  {
    assert Next(s, Read(n, 1, 0, 3, 0)).calls.Keys == Below(n + 1);
  }

  lemma OneCommits(s: State, n: nat, granted: nat)
    requires At(s, n + 1, granted)
    ensures At(Next(s, Commit(n)), n, granted + 1)
  {
    var t := Next(s, Commit(n));
    assert t.calls.Keys == Below(n);
    assert t.grants[..|t.grants| - 1] == s.grants;
  }

  lemma Extend(trace: seq<State>, events: seq<Event>, k: nat, e: Event)
    returns (trace': seq<State>, events': seq<Event>)
    requires IsTrace(START, trace, events) && AtMostOverlapping(trace, 0, k)
    requires |Next(trace[|events|], e).calls.Keys| <= k
    ensures IsTrace(START, trace', events') && AtMostOverlapping(trace', 0, k)
    ensures trace'[|events'|] == Next(trace[|events|], e)
  {
    hide Next;
    var t := Next(trace[|events|], e);
    SubsetSize(Overlap(t, 0), t.calls.Keys);
    trace', events' := trace + [t], events + [e];
  }

  lemma OneRequest(k: nat) returns (trace: seq<State>, events: seq<Event>)
    ensures IsTrace(START, trace, events) && AtMostOverlapping(trace, 0, k) && At(trace[|events|], 0, 0)
  {
    trace, events := [START], [];
    assert Overlap(START, 0) == {};
    trace, events := Extend(trace, events, k, Create(1, 2, "admin", "incident", 60));
  }

  lemma {:induction false} AllRead(k: nat, n: nat) returns (trace: seq<State>, events: seq<Event>)
    requires n <= k
    ensures IsTrace(START, trace, events) && AtMostOverlapping(trace, 0, k) && At(trace[|events|], n, 0)
  {
    hide Next, AtMostOverlapping;
    if n == 0 {
      trace, events := OneRequest(k);
    } else {
      trace, events := AllRead(k, n - 1);
      OneReads(trace[|events|], n - 1);
      trace, events := Extend(trace, events, k, Read(n - 1, 1, 0, 3, 0));
    }
  }

  lemma {:induction false} AllCommit(k: nat, n: nat) returns (trace: seq<State>, events: seq<Event>)
    requires n <= k
    ensures IsTrace(START, trace, events) && AtMostOverlapping(trace, 0, k) && At(trace[|events|], n, k - n)
    decreases k - n
  {
    hide Next, AtMostOverlapping;
    if n == k {
      trace, events := AllRead(k, k);
    } else {
      trace, events := AllCommit(k, n + 1);
      OneCommits(trace[|events|], n, k - n - 1);
      trace, events := Extend(trace, events, k, Commit(n));
    }
  }

  /** The bound cannot be improved: k approvals that all read the request as pending leave it with k grants. */
  lemma OverlappingApprovalsAllGrant(k: nat) returns (trace: seq<State>, events: seq<Event>)
    ensures IsTrace(START, trace, events) && AtMostOverlapping(trace, 0, k)
    ensures GrantCount(trace[|events|].grants, 0) == k
  {
    trace, events := AllCommit(k, 0);
  }

  /** Every request gets at most one grant in every interleaving iff approvals of it never overlap. */
  lemma OneGrantIffNoOverlap(k: nat)
    requires 1 <= k
    ensures (forall trace: seq<State>, events: seq<Event>, r: nat |
               IsTrace(START, trace, events) && AtMostOverlapping(trace, r, k) ::
               forall i | 0 <= i < |trace| :: GrantCount(trace[i].grants, r) <= 1)
            <==> k == 1
  {
    if k == 1 {
      forall trace: seq<State>, events: seq<Event>, r: nat |
        IsTrace(START, trace, events) && AtMostOverlapping(trace, r, k)
        ensures forall i | 0 <= i < |trace| :: GrantCount(trace[i].grants, r) <= 1
      {
        forall i | 0 <= i < |trace| ensures GrantCount(trace[i].grants, r) <= 1 {
          GrantBound(trace, events, r, 1, i);
        }
      }
    } else {
      var trace, events := OverlappingApprovalsAllGrant(k);
      assert GrantCount(trace[|events|].grants, 0) > 1;
    }
  }

  // ----- Whether a denial is final -----

  /** No approval of the request is in flight. */
  ghost predicate Quiet(s: State, r: nat) {
    forall c | c in s.calls :: s.calls[c].request != r
  }

  lemma {:induction false} DenialStays(start: State, trace: seq<State>, events: seq<Event>, r: nat, i: nat)
    requires IsTrace(start, trace, events) && i < |trace|
    requires r < |start.requests| && start.requests[r].status == Denied && Quiet(start, r)
    ensures r < |trace[i].requests| && trace[i].requests[r].status == Denied && Quiet(trace[i], r)
  {
    if i > 0 {
      DenialStays(start, trace, events, r, i - 1);
      var s, e := trace[i - 1], events[i - 1];
      assert trace[i - 1 + 1] == Next(s, e);
    }
  }

  /**
   Approving and denying both ask for a pending request, as if a denial were final.
   It is, in every continuation, if and only if no approval of the request was in
   flight when it was denied: such an approval commits whatever the status is by then.
   */
  lemma DenialIsFinalIff(s: State, r: nat)
    requires Consistent(s) && r < |s.requests| && s.requests[r].status == Denied
    ensures (forall trace: seq<State>, events: seq<Event> | IsTrace(s, trace, events) ::
               r < |trace[|events|].requests| && trace[|events|].requests[r].status == Denied)
            <==> Quiet(s, r)
  {
    if Quiet(s, r) {
      forall trace: seq<State>, events: seq<Event> | IsTrace(s, trace, events)
        ensures r < |trace[|events|].requests| && trace[|events|].requests[r].status == Denied
      {
        DenialStays(s, trace, events, r, |events|);
      }
    } else {
      var call :| call in s.calls && s.calls[call].request == r;
      assert ApprovalMatches(s, s.calls[call]);
      var trace, events := [s, Next(s, Commit(call))], [Commit(call)];
      assert IsTrace(s, trace, events);
      assert trace[|events|].requests[r].status == Approved;
    }
  }

  /**
   From the start: a request read by an approver, then denied, then approved all the same by that approver's
   commit.
   */
  lemma DenialOvertaken() returns (trace: seq<State>, events: seq<Event>)
    ensures IsTrace(START, trace, events) && |events| == 4
    ensures |trace[3].requests| == |trace[4].requests| == 1
    ensures trace[3].requests[0].status == Denied && trace[4].requests[0].status == Approved && |trace[4].grants| == 1
  {
    events := [Create(1, 2, "admin", "incident", 60), Read(0, 1, 0, 3, 0), Deny(1, 0), Commit(0)];
    var s1 := Next(START, events[0]);
    var s2 := Next(s1, events[1]);
    var s3 := Next(s2, events[2]);
    trace := [START, s1, s2, s3, Next(s3, events[3])];
  }

  // ----- When a grant is in force -----

  function TermOf(s: State, g: nat): Option<Term> {
    if g < |s.grants| then
      Some(Term(s.grants[g].startsAt, Some(s.grants[g].expiresAt), s.grants[g].revokedAt.Some?))
    else None
  }

  ghost function Terms(trace: seq<State>, g: nat): (h: seq<Option<Term>>)
    ensures |h| == |trace|
    ensures forall i | 0 <= i < |h| :: h[i] == TermOf(trace[i], g)
  {
    seq(|trace|, i requires 0 <= i < |trace| => TermOf(trace[i], g))
  }

  ghost predicate RevokesNow(s: State, e: Event, g: nat) {
    e.Revoke? && e.grant == g && IsRevocable(s, e.tenant, g)
  }

  ghost function Revocations(trace: seq<State>, events: seq<Event>, g: nat): (wins: seq<bool>)
    requires |trace| == |events| + 1
    ensures |wins| == |events|
    ensures forall i | 0 <= i < |wins| :: wins[i] <==> RevokesNow(trace[i], events[i], g)
  {
    seq(|events|, i requires 0 <= i < |events| => RevokesNow(trace[i], events[i], g))
  }

  lemma GrantHistory(trace: seq<State>, events: seq<Event>, g: nat)
    requires IsTrace(START, trace, events)
    ensures RevokedBy(Terms(trace, g), Revocations(trace, events, g))
  {
    var h, wins := Terms(trace, g), Revocations(trace, events, g);
    forall i | 0 <= i < |h| - 1
      ensures Evolves(h[i], h[i + 1])
      ensures wins[i] <==> BecomesRevoked(h[i], h[i + 1])
    {
      assert trace[i + 1] == Next(trace[i], events[i]);
    }
  }

  /** The times at which a grant is in force form one interval, whatever the interleaving. */
  lemma GrantHasOneInterval(trace: seq<State>, events: seq<Event>, g: nat, i: nat, j: nat, m: nat,
                            from: int, between: int, to: int)
    requires IsTrace(START, trace, events) && i <= j <= m < |trace| && from <= between <= to
    requires Effective(TermOf(trace[i], g), from) && Effective(TermOf(trace[m], g), to)
    ensures Effective(TermOf(trace[j], g), between)
  {
    GrantHistory(trace, events, g);
    OneInterval(Terms(trace, g), i, j, m, from, between, to);
  }

  /** Once anyone has tried to revoke an existing grant of his tenant, exactly one revocation has ever succeeded. */
  lemma OneRevocationSucceeds(trace: seq<State>, events: seq<Event>, g: nat, i: nat) returns (winner: nat)
    requires IsTrace(START, trace, events) && i < |events|
    requires events[i].Revoke? && events[i].grant == g < |trace[i].grants|
    requires events[i].tenant == trace[i].grants[g].tenant
    ensures winner <= i && RevokesNow(trace[winner], events[winner], g)
    ensures forall j | 0 <= j < |events| && RevokesNow(trace[j], events[j], g) :: j == winner
  {
    GrantHistory(trace, events, g);
    winner := ExactlyOneRevocation(Terms(trace, g), Revocations(trace, events, g), i);
  }

  /** The time a grant records for its revocation is that of the revocation that succeeded. */
  lemma {:induction false} RevocationOrigin(trace: seq<State>, events: seq<Event>, g: nat, i: nat) returns (b: nat)
    requires IsTrace(START, trace, events) && i < |trace| && g < |trace[i].grants|
    requires trace[i].grants[g].revokedAt.Some?
    ensures b < i && RevokesNow(trace[b], events[b], g)
    ensures events[b].tenant == trace[i].grants[g].tenant && trace[i].grants[g].revokedAt == Some(events[b].now)
  {
    assert trace[i - 1 + 1] == Next(trace[i - 1], events[i - 1]);
    if g < |trace[i - 1].grants| && trace[i - 1].grants[g].revokedAt.Some? {
      b := RevocationOrigin(trace, events, g, i - 1);
    } else {
      b := i - 1;
    }
  }

  /**
   A grant is in force exactly from the moment its request was read, for the minutes
   asked for, unless its tenant asked for its revocation since it was committed.
   */
  lemma EffectiveIff(trace: seq<State>, events: seq<Event>, i: nat, g: nat, now: int) returns (read: nat, commit: nat)
    requires IsTrace(START, trace, events) && i < |trace| && g < |trace[i].grants|
    ensures read < commit < i && |trace[commit].grants| == g
    ensures events[read].Read? && events[commit] == Commit(events[read].call)
    ensures events[read].request < |trace[i].requests|
    ensures Effective(TermOf(trace[i], g), now) <==>
              && events[read].now <= now
              && now < events[read].now + trace[i].requests[events[read].request].minutes * 60 * 1000
              && forall j | commit < j < i :: !IsRevocation(events[j], events[read].tenant, g)
  {
    EveryGrantIsApproved(trace, events, i, g);
    read, commit := GrantOrigin(trace, events, i, g);
  }

  function Ends(grants: seq<Grant>): seq<int> {
    seq(|grants|, i requires 0 <= i < |grants| => grants[i].expiresAt)
  }

  // ----- The service -----

  class Service {
    var requests: seq<Request>
    var grants: seq<Grant>
    var calls: map<int, Approval>

    ghost function Model(): State
      reads this
    {
      State(requests, grants, calls)
    }

    ghost predicate Valid()
      reads this
    {
      Consistent(Model())
    }

    constructor ()
      ensures Valid() && Model() == START
    {
      requests, grants, calls := [], [], map[];
    }

    method CreateRequest(tenant: int, requester: int, role: string, justification: string, minutes: int)
      returns (id: Option<nat>)
      requires Valid()
      modifies this
      ensures Valid() && Model() == Next(old(Model()), Create(tenant, requester, role, justification, minutes))
      ensures id == if Creatable(justification, minutes) then Some(old(|requests|)) else None
    {
      NextKeepsConsistent(Model(), Create(tenant, requester, role, justification, minutes));
      if minutes <= 0 || minutes > MAX_MINUTES {
        return None;
      }
      if justification == "" {
        return None;
      }
      id := Some(|requests|);
      requests := requests + [Request(tenant, requester, role, Pending, minutes, None)];
    }

    /** First half of Approve: read the row, refuse unless pending, compute the term. */
    method ApproveRead(call: int, tenant: int, request: nat, approver: int, now: int) returns (ok: bool)
      requires Valid() && call !in calls
      modifies this
      ensures Valid() && Model() == Next(old(Model()), Read(call, tenant, request, approver, now))
      ensures ok <==> IsPending(old(Model()), tenant, request)
    {
      NextKeepsConsistent(Model(), Read(call, tenant, request, approver, now));
      if request >= |requests| || requests[request].tenant != tenant {
        return false;
      }
      var r := requests[request];
      if r.status != Pending {
        return false;
      }
      calls := calls[call := Approval(tenant, request, r.requester, approver, r.role, now, now + r.minutes * MINUTE)];
      ok := true;
    }

    /** Second half: the transaction that updates the request and inserts the grant. */
    method ApproveCommit(call: int) returns (grant: Grant)
      requires Valid() && call in calls
      modifies this
      ensures Valid() && Model() == Next(old(Model()), Commit(call))
      ensures |grants| == |old(grants)| + 1 && grants[|old(grants)|] == grant
    {
      NextKeepsConsistent(Model(), Commit(call));
      var a := calls[call];
      assert ApprovalMatches(Model(), a);
      requests := requests[a.request := requests[a.request].(status := Approved, expiresAt := Some(a.expiresAt))];
      grant := Grant(a.tenant, a.request, a.requester, a.approver, a.role, a.startsAt, a.expiresAt, None);
      grants := grants + [grant];
      calls := calls - {call};
    }

    method ApproveAbandon(call: int)
      requires Valid()
      modifies this
      ensures Valid() && Model() == Next(old(Model()), Abandon(call))
    {
      NextKeepsConsistent(Model(), Abandon(call));
      calls := calls - {call};
    }

    method DenyRequest(tenant: int, request: nat) returns (ok: bool)
      requires Valid()
      modifies this
      ensures Valid() && Model() == Next(old(Model()), Deny(tenant, request))
      ensures ok <==> IsPending(old(Model()), tenant, request)
    {
      NextKeepsConsistent(Model(), Deny(tenant, request));
      ok := request < |requests| && requests[request].tenant == tenant && requests[request].status == Pending;
      if ok {
        requests := requests[request := requests[request].(status := Denied)];
      }
    }

    method RevokeGrant(tenant: int, grant: nat, now: int) returns (ok: bool)
      requires Valid()
      modifies this
      ensures Valid() && Model() == Next(old(Model()), Revoke(tenant, grant, now))
      ensures ok <==> RevokesNow(old(Model()), Revoke(tenant, grant, now), grant)
    {
      NextKeepsConsistent(Model(), Revoke(tenant, grant, now));
      ok := grant < |grants| && grants[grant].tenant == tenant && grants[grant].revokedAt.None?;
      if ok {
        grants := grants[grant := grants[grant].(revokedAt := Some(now))];
      }
    }

    /** The ids of the grants in force for a requester: all of them, each once, by expiry. */
    method GetActiveGrants(tenant: int, requester: int, now: int) returns (active: seq<nat>)
      requires Valid()
      ensures forall g: nat :: g in active <==>
                && g < |grants| && grants[g].tenant == tenant && grants[g].requester == requester
                && Effective(TermOf(Model(), g), now)
      ensures forall x, y | 0 <= x < y < |active| :: active[x] != active[y]
      ensures forall x | 0 <= x < |active| :: active[x] < |grants|
      ensures forall x, y | 0 <= x < y < |active| :: grants[active[x]].expiresAt <= grants[active[y]].expiresAt
    {
      var found := set g: nat | g < |grants| && grants[g].tenant == tenant && grants[g].requester == requester
                              && grants[g].startsAt <= now && grants[g].expiresAt > now && grants[g].revokedAt.None?;
      var ids := OrderBy(found, Ends(grants));
      active := [];
      for i := 0 to |ids|
        invariant active == ids[..i]
      {
        active := active + [ids[i]];
      }
      assert active == ids;
    }
  }
}
