/**
 Delegations: active on creation, effective between their bounds, revoked by a
 single conditional update. Ids are positions in the order of insertion.
 */
module Delegation {
  import opened Base
  import opened Lifetimes

  datatype Row = Row(tenant: int, delegator: int, delegate: int, roles: seq<string>, active: bool,
                     startsAt: int, expiresAt: Option<int>, revokedBy: Option<int>, revokedAt: Option<int>)

  datatype Event =
    | Create(tenant: int, delegator: int, delegate: int, roles: seq<string>,
             startsAt: Option<int>, expiresAt: Option<int>, now: int)
    | Revoke(tenant: int, id: nat, revoker: int, now: int)

  /** Refused: no role, or an expiry before an explicitly given start. */
  predicate Creatable(roles: seq<string>, startsAt: Option<int>, expiresAt: Option<int>) {
    && roles != []
    && !(startsAt.Some? && expiresAt.Some? && expiresAt.value < startsAt.value)
  }

  function NewRow(e: Event): Row
    requires e.Create?
  {
    Row(e.tenant, e.delegator, e.delegate, e.roles, true,
        if e.startsAt.Some? then e.startsAt.value else e.now, e.expiresAt, None, None)
  }

  predicate IsRevocable(rows: seq<Row>, tenant: int, id: nat) {
    id < |rows| && rows[id].tenant == tenant && rows[id].active
  }

  function Next(rows: seq<Row>, e: Event): seq<Row> {
    match e
    case Create(_, _, _, roles, startsAt, expiresAt, _) =>
      if Creatable(roles, startsAt, expiresAt) then rows + [NewRow(e)] else rows
    case Revoke(tenant, id, revoker, now) =>
      if IsRevocable(rows, tenant, id) then
        rows[id := rows[id].(active := false, revokedBy := Some(revoker), revokedAt := Some(now))]
      else rows
  }

  ghost predicate IsTrace(trace: seq<seq<Row>>, events: seq<Event>) {
    && |trace| == |events| + 1
    && trace[0] == []
    && forall i | 0 <= i < |events| :: trace[i + 1] == Next(trace[i], events[i])
  }

  function TermOf(rows: seq<Row>, id: nat): Option<Term> {
    if id < |rows| then Some(Term(rows[id].startsAt, rows[id].expiresAt, !rows[id].active)) else None
  }

  ghost function Terms(trace: seq<seq<Row>>, id: nat): (h: seq<Option<Term>>)
    ensures |h| == |trace|
    ensures forall i | 0 <= i < |h| :: h[i] == TermOf(trace[i], id)
  {
    seq(|trace|, i requires 0 <= i < |trace| => TermOf(trace[i], id))
  }

  ghost predicate RevokesNow(rows: seq<Row>, e: Event, id: nat) {
    e.Revoke? && e.id == id && IsRevocable(rows, e.tenant, id)
  }

  ghost function Revocations(trace: seq<seq<Row>>, events: seq<Event>, id: nat): (wins: seq<bool>)
    requires |trace| == |events| + 1
    ensures |wins| == |events|
    ensures forall i | 0 <= i < |wins| :: wins[i] <==> RevokesNow(trace[i], events[i], id)
  {
    seq(|events|, i requires 0 <= i < |events| => RevokesNow(trace[i], events[i], id))
  }

  lemma DelegationHistory(trace: seq<seq<Row>>, events: seq<Event>, id: nat)
    requires IsTrace(trace, events)
    ensures RevokedBy(Terms(trace, id), Revocations(trace, events, id))
  {
    var h, wins := Terms(trace, id), Revocations(trace, events, id);
    forall i | 0 <= i < |h| - 1
      ensures Evolves(h[i], h[i + 1])
      ensures wins[i] <==> BecomesRevoked(h[i], h[i + 1])
    {
      assert trace[i + 1] == Next(trace[i], events[i]);
    }
  }

  /** The times at which a delegation is effective form one interval; revocation and expiry are final. */
  lemma DelegationHasOneInterval(trace: seq<seq<Row>>, events: seq<Event>, id: nat, i: nat, j: nat, m: nat,
                                 from: int, between: int, to: int)
    requires IsTrace(trace, events) && i <= j <= m < |trace| && from <= between <= to
    requires Effective(TermOf(trace[i], id), from) && Effective(TermOf(trace[m], id), to)
    ensures Effective(TermOf(trace[j], id), between)
  {
    DelegationHistory(trace, events, id);
    OneInterval(Terms(trace, id), i, j, m, from, between, to);
  }

  /**
   Once anyone has tried to revoke an existing delegation of his tenant, exactly one revocation has ever
   succeeded.
   */
  lemma OneRevocationSucceeds(trace: seq<seq<Row>>, events: seq<Event>, id: nat, i: nat) returns (winner: nat)
    requires IsTrace(trace, events) && i < |events|
    requires events[i].Revoke? && events[i].id == id < |trace[i]|
    requires events[i].tenant == trace[i][id].tenant
    ensures winner <= i && RevokesNow(trace[winner], events[winner], id)
    ensures forall j | 0 <= j < |events| && RevokesNow(trace[j], events[j], id) :: j == winner
  {
    DelegationHistory(trace, events, id);
    winner := ExactlyOneRevocation(Terms(trace, id), Revocations(trace, events, id), i);
  }

  predicate IsRevocation(e: Event, tenant: int, id: nat) {
    e.Revoke? && e.tenant == tenant && e.id == id
  }

  /** A row keeps what it was created with, by someone who gave a role; its start, if none was given, is that moment. */
  lemma {:induction false} RowOrigin(trace: seq<seq<Row>>, events: seq<Event>, id: nat, i: nat) returns (b: nat)
    requires IsTrace(trace, events) && i < |trace| && id < |trace[i]|
    ensures b < i && events[b].Create? && events[b].roles != [] && |trace[b]| == id
    ensures var row, e := trace[i][id], events[b];
            && row.tenant == e.tenant && row.delegator == e.delegator && row.delegate == e.delegate
            && row.roles == e.roles && row.expiresAt == e.expiresAt
            && (e.startsAt.Some? ==> e.startsAt == Some(row.startsAt))
            && (e.startsAt.Some? && e.expiresAt.Some? ==> e.startsAt.value <= e.expiresAt.value)
            && (e.startsAt.None? ==> row.startsAt == e.now)
    ensures trace[i][id].active <==> forall j | b < j < i :: !IsRevocation(events[j], events[b].tenant, id)
  {
    assert trace[i - 1 + 1] == Next(trace[i - 1], events[i - 1]);
    if id < |trace[i - 1]| {
      b := RowOrigin(trace, events, id, i - 1);
    } else {
      b := i - 1;
    }
  }

  /**
   A delegation is effective exactly from its start, or its creation if none was
   given, up to but not at its expiry, unless its tenant asked for its revocation before.
   */
  lemma EffectiveIff(trace: seq<seq<Row>>, events: seq<Event>, id: nat, i: nat, now: int) returns (b: nat)
    requires IsTrace(trace, events) && i < |trace| && id < |trace[i]|
    ensures b < i && events[b].Create? && |trace[b]| == id
    ensures Effective(TermOf(trace[i], id), now) <==>
              && (if events[b].startsAt.Some? then events[b].startsAt.value else events[b].now) <= now
              && (events[b].expiresAt == None || now < events[b].expiresAt.value)
              && forall j | b < j < i :: !IsRevocation(events[j], events[b].tenant, id)
  {
    b := RowOrigin(trace, events, id, i);
  }

  /** Which delegations are accepted: some role, and no expiry before a start that is given. */
  lemma CreationIff(rows: seq<Row>, e: Event)
    requires e.Create?
    ensures |Next(rows, e)| > |rows| <==>
              && e.roles != []
              && (e.startsAt == None || e.expiresAt == None || e.startsAt.value <= e.expiresAt.value)
  {
  }

  /** A row is inactive only by a revocation that succeeded on it, and records who revoked it and when. */
  lemma {:induction false} RevocationOrigin(trace: seq<seq<Row>>, events: seq<Event>, id: nat, i: nat) returns (b: nat)
    requires IsTrace(trace, events) && i < |trace| && id < |trace[i]|
    ensures trace[i][id].active ==> trace[i][id].revokedBy.None? && trace[i][id].revokedAt.None?
    ensures !trace[i][id].active ==>
              && b < i && RevokesNow(trace[b], events[b], id) && events[b].tenant == trace[i][id].tenant
              && trace[i][id].revokedBy == Some(events[b].revoker) && trace[i][id].revokedAt == Some(events[b].now)
  {
    b := 0;
    assert trace[i - 1 + 1] == Next(trace[i - 1], events[i - 1]);
    if id < |trace[i - 1]| {
      b := RevocationOrigin(trace, events, id, i - 1);
      if trace[i - 1][id].active && !trace[i][id].active {
        b := i - 1;
      }
    }
  }

  /**
   Not every accepted delegation can ever be effective: one whose expiry equals
   its start, or precedes a defaulted start, never is. Exactly the others are.
   */
  lemma EffectiveSometimeIff(rows: seq<Row>, e: Event)
    requires e.Create? && Creatable(e.roles, e.startsAt, e.expiresAt)
    ensures (exists now :: Effective(TermOf(Next(rows, e), |rows|), now))
            <==> (e.expiresAt.Some? ==> (if e.startsAt.Some? then e.startsAt.value else e.now) < e.expiresAt.value)
  {
    var term := TermOf(Next(rows, e), |rows|);
    if e.expiresAt.Some? ==> term.value.startsAt < e.expiresAt.value {
      assert Effective(term, term.value.startsAt);
    }
  }

  /** Accepted without a start at moment 10, with an expiry at 5: never effective. */
  lemma AcceptedNeverEffective(rows: seq<Row>)
    ensures var e := Create(1, 2, 3, ["admin"], None, Some(5), 10);
            && Creatable(e.roles, e.startsAt, e.expiresAt) && |Next(rows, e)| == |rows| + 1
            && forall now :: !Effective(TermOf(Next(rows, e), |rows|), now)
  {
    EffectiveSometimeIff(rows, Create(1, 2, 3, ["admin"], None, Some(5), 10));
  }

  function Starts(rows: seq<Row>): seq<int> {
    seq(|rows|, i requires 0 <= i < |rows| => rows[i].startsAt)
  }

  class Service {
    var rows: seq<Row>

    constructor ()
      ensures rows == []
    {
      rows := [];
    }

    method CreateDelegation(tenant: int, delegator: int, delegate: int, roles: seq<string>,
                            startsAt: Option<int>, expiresAt: Option<int>, now: int) returns (id: Option<nat>)
      modifies this
      ensures rows == Next(old(rows), Create(tenant, delegator, delegate, roles, startsAt, expiresAt, now))
      ensures id == if Creatable(roles, startsAt, expiresAt) then Some(|old(rows)|) else None
    {
      if |roles| == 0 {
        return None;
      }
      if startsAt.Some? && expiresAt.Some? && expiresAt.value < startsAt.value {
        return None;
      }
      var start := now;
      if startsAt.Some? {
        start := startsAt.value;
      }
      id := Some(|rows|);
      rows := rows + [Row(tenant, delegator, delegate, roles, true, start, expiresAt, None, None)];
    }

    method RevokeDelegation(tenant: int, id: nat, revoker: int, now: int) returns (ok: bool)
      modifies this
      ensures rows == Next(old(rows), Revoke(tenant, id, revoker, now))
      ensures ok <==> RevokesNow(old(rows), Revoke(tenant, id, revoker, now), id)
    {
      ok := id < |rows| && rows[id].tenant == tenant && rows[id].active;
      if ok {
        rows := rows[id := rows[id].(active := false, revokedBy := Some(revoker), revokedAt := Some(now))];
      }
    }

    /** The ids of the delegations a user holds now: all of them, each once, by start. */
    method GetEffectiveDelegations(tenant: int, delegate: int, now: int) returns (held: seq<nat>)
      ensures forall d: nat :: d in held <==>
                && d < |rows| && rows[d].tenant == tenant && rows[d].delegate == delegate
                && Effective(TermOf(rows, d), now)
      ensures forall x, y | 0 <= x < y < |held| :: held[x] != held[y]
      ensures forall x | 0 <= x < |held| :: held[x] < |rows|
      ensures forall x, y | 0 <= x < y < |held| :: rows[held[x]].startsAt <= rows[held[y]].startsAt
    {
      var found := set d: nat | d < |rows| && rows[d].tenant == tenant && rows[d].delegate == delegate && rows[d].active
                              && rows[d].startsAt <= now && (rows[d].expiresAt.None? || rows[d].expiresAt.value > now);
      var ids := OrderBy(found, Starts(rows));
      held := [];
      for i := 0 to |ids|
        invariant held == ids[..i]
      {
        held := held + [ids[i]];
      }
      assert held == ids;
    }
  }
}
