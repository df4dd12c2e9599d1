/**
 A right that starts, may expire and may be revoked by one conditional update:
 what delegations and just-in-time grants have in common. A history records the
 right after every step of a run; None before it exists.
 */
module Lifetimes {
  import opened Base

  datatype Term = Term(startsAt: int, expiresAt: Option<int>, revoked: bool)

  predicate Effective(t: Option<Term>, now: int) {
    && t.Some?
    && !t.value.revoked
    && t.value.startsAt <= now
    && (t.value.expiresAt.Some? ==> now < t.value.expiresAt.value)
  }

  /** Bounds never change, and a right, once revoked, stays revoked. */
  ghost predicate Evolves(before: Option<Term>, after: Option<Term>) {
    match before
    case None => after.Some? ==> !after.value.revoked
    case Some(t) =>
      && after.Some?
      && after.value.startsAt == t.startsAt
      && after.value.expiresAt == t.expiresAt
      && (t.revoked ==> after.value.revoked)
  }

  ghost predicate IsHistory(h: seq<Option<Term>>) {
    && h != [] && h[0].None?
    && forall i | 0 <= i < |h| - 1 :: Evolves(h[i], h[i + 1])
  }

  lemma {:induction false} Later(h: seq<Option<Term>>, i: nat, j: nat)
    requires IsHistory(h) && i <= j < |h| && h[i].Some?
    ensures Evolves(h[i], h[j])
    decreases j - i
  {
    if i < j {
      Later(h, i, j - 1);
      assert Evolves(h[j - 1], h[j - 1 + 1]);
    }
  }

  /** The moments at which a right is effective form one interval: it never resumes. */
  lemma OneInterval(h: seq<Option<Term>>, i: nat, j: nat, m: nat, from: int, between: int, to: int)
    requires IsHistory(h) && i <= j <= m < |h|
    requires from <= between <= to
    requires Effective(h[i], from) && Effective(h[m], to)
    ensures Effective(h[j], between)
  {
    Later(h, i, j);
    Later(h, j, m);
  }

  predicate BecomesRevoked(before: Option<Term>, after: Option<Term>) {
    before.Some? && !before.value.revoked && after.Some? && after.value.revoked
  }

  /** wins[i]: step i is a revocation that reported success. */
  ghost predicate RevokedBy(h: seq<Option<Term>>, wins: seq<bool>) {
    && IsHistory(h) && |wins| == |h| - 1
    && forall i | 0 <= i < |wins| ::
         wins[i] <==> BecomesRevoked(h[i], h[i + 1])
  }

  lemma {:induction false} RevokedEarlier(h: seq<Option<Term>>, wins: seq<bool>, i: nat) returns (j: nat)
    requires RevokedBy(h, wins) && i < |h| && h[i].Some? && h[i].value.revoked
    ensures j < i && wins[j]
  {
    assert Evolves(h[i - 1], h[i - 1 + 1]);
    j := i - 1;
    if !wins[j] {
      j := RevokedEarlier(h, wins, i - 1);
    }
  }

  lemma WonOnce(h: seq<Option<Term>>, wins: seq<bool>, i: nat, j: nat)
    requires RevokedBy(h, wins) && i < j < |wins|
    ensures !(wins[i] && wins[j])
  {
    if wins[i] {
      assert BecomesRevoked(h[i], h[i + 1]);
      Later(h, i + 1, j);
      assert !BecomesRevoked(h[j], h[j + 1]);
    }
  }

  /** If step i could revoke unless that has been done, exactly one revocation ever succeeds, at i or earlier. */
  lemma ExactlyOneRevocation(h: seq<Option<Term>>, wins: seq<bool>, i: nat) returns (winner: nat)
    requires RevokedBy(h, wins) && i < |wins|
    requires h[i].Some? && (wins[i] || h[i].value.revoked)
    ensures winner <= i && wins[winner]
    ensures forall j | 0 <= j < |wins| && wins[j] :: j == winner
  {
    winner := i;
    if !wins[i] {
      winner := RevokedEarlier(h, wins, i);
    }
    forall j | 0 <= j < |wins| && wins[j] ensures j == winner {
      if j < winner {
        WonOnce(h, wins, j, winner);
      } else if winner < j {
        WonOnce(h, wins, winner, j);
      }
    }
  }

  // ----- ORDER BY a time -----

  predicate Distinct(ids: seq<nat>) {
    forall x, y | 0 <= x < y < |ids| :: ids[x] != ids[y]
  }

  /** Rows listed by their keys. */
  predicate Ordered(ids: seq<nat>, key: seq<int>) {
    && (forall x | 0 <= x < |ids| :: ids[x] < |key|)
    && forall x, y | 0 <= x < y < |ids| :: key[ids[x]] <= key[ids[y]]
  }

  lemma {:induction false} EarliestExists(found: set<nat>, key: seq<int>) returns (m: nat)
    requires found != {} && forall x | x in found :: x < |key|
    ensures m in found && forall x | x in found :: key[m] <= key[x]
    decreases |found|
  {
    var first := Pick(found);
    m := first;
    if found != {first} {
      var other := EarliestExists(found - {first}, key);
      assert forall x | x in found :: x == first || x in found - {first};
      m := if key[other] < key[first] then other else first;
    }
  }

  /** The found rows, each once, by their keys; rows of one key come in any order. */
  method OrderBy(found: set<nat>, key: seq<int>) returns (ids: seq<nat>)
    requires forall x | x in found :: x < |key|
    ensures forall x :: x in ids <==> x in found
    ensures Distinct(ids) && Ordered(ids, key)
  {
    ids := [];
    var remaining := found;
    while remaining != {}
      invariant remaining <= found && Distinct(ids) && Ordered(ids, key)
      invariant forall x :: x in ids <==> x in found && x !in remaining
      invariant forall x | 0 <= x < |ids| :: ids[x] in found && ids[x] !in remaining
      invariant forall x, r | 0 <= x < |ids| && r in remaining :: key[ids[x]] <= key[r]
      decreases |remaining|
    {
      ghost var earliest := EarliestExists(remaining, key);
      var m :| m in remaining && forall x | x in remaining :: key[m] <= key[x];
      ids, remaining := ids + [m], remaining - {m};
    }
  }
}
