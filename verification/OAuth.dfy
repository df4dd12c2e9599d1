/**
 The authorization-code grant at the token endpoint. An exchange checks the form
 and the client, looks the code up, marks it used in a second statement, and only
 then compares redirect URI and code verifier and answers. Codes are keyed by
 themselves: their hashes are taken as distinct. `s256` stands for the S256
 transform of a verifier. Times are milliseconds.
 */
module OAuth {
  import opened Base
  import opened CheckThenAct

  const VALIDITY: int := 5 * 60 * 1000

  datatype Client = Client(id: int, confidential: bool, hasSecret: bool)

  datatype Row = Row(client: int, user: int, tenant: int, redirect: string, scopes: seq<string>,
                     challenge: string, nonce: string, used: bool, expiresAt: int)

  datatype Form = Form(code: string, redirect: string, client: string, verifier: string)

  datatype Exchange = Exchange(form: Form, client: Client, row: Row, consumed: bool)

  /** What a token response carries, and the form it answers. */
  datatype Token = Token(form: Form, client: int, user: int, tenant: int, scopes: seq<string>, nonce: string)

  datatype Refusal = InvalidRequest | InvalidClient | InvalidGrant | ServerError

  datatype Reply = Refused(why: Refusal) | Granted(token: Token)

  datatype State = State(codes: map<string, Row>, calls: map<int, Exchange>, tokens: seq<Token>,
                         uses: multiset<string>)

  const START: State := State(map[], map[], [], multiset{})

  datatype Event =
    | Issue(code: string, row: Row, now: int)
    | Lookup(call: int, form: Form, found: Option<Client>, secretOk: bool, now: int)
    | Mark(call: int)
    | Respond(call: int, userFound: bool)
    | Abandon(call: int)

  /** Checks made before the code is touched. */
  function Precheck(form: Form, found: Option<Client>, secretOk: bool): Option<Refusal> {
    if form.code == "" || form.redirect == "" || form.client == "" || form.verifier == "" then Some(InvalidRequest)
    else if found.None? then Some(InvalidClient)
    else if found.value.confidential && found.value.hasSecret && !secretOk then Some(InvalidClient)
    else None
  }

  predicate Usable(s: State, code: string, now: int) {
    code in s.codes && !s.codes[code].used && s.codes[code].expiresAt > now
  }

  /** Checks made after the code has been consumed, in order. */
  function Answer(s256: string -> string, x: Exchange, userFound: bool): Reply {
    if x.row.redirect != x.form.redirect then Refused(InvalidGrant)
    else if s256(x.form.verifier) != x.row.challenge then Refused(InvalidGrant)
    else if !userFound then Refused(ServerError)
    else Granted(Token(x.form, x.client.id, x.row.user, x.row.tenant, x.row.scopes, x.row.nonce))
  }

  function Next(s256: string -> string, s: State, e: Event): State {
    match e
    case Issue(code, row, now) =>
      if code in s.codes then s
      else s.(codes := s.codes[code := row.(used := false, expiresAt := now + VALIDITY)])
    case Lookup(call, form, found, secretOk, now) =>
      if call in s.calls || Precheck(form, found, secretOk).Some? || !Usable(s, form.code, now) then s
      else s.(calls := s.calls[call := Exchange(form, found.value, s.codes[form.code], false)])
    case Mark(call) =>
      if call !in s.calls || s.calls[call].consumed || s.calls[call].form.code !in s.codes then s
      else
        var x := s.calls[call];
        s.(codes := s.codes[x.form.code := s.codes[x.form.code].(used := true)],
           calls := s.calls[call := x.(consumed := true)],
           uses := s.uses + multiset{x.form.code})
    case Respond(call, userFound) =>
      if call !in s.calls || !s.calls[call].consumed then s
      else
        var reply := Answer(s256, s.calls[call], userFound);
        s.(calls := s.calls - {call}, tokens := if reply.Granted? then s.tokens + [reply.token] else s.tokens)
    case Abandon(call) =>
      s.(calls := s.calls - {call})
  }

  ghost predicate Continues(s256: string -> string, start: State, trace: seq<State>, events: seq<Event>) {
    && |trace| == |events| + 1
    && trace[0] == start
    && forall i | 0 <= i < |events| :: trace[i + 1] == Next(s256, trace[i], events[i])
  }

  ghost predicate IsTrace(s256: string -> string, trace: seq<State>, events: seq<Event>) {
    Continues(s256, START, trace, events)
  }

  // ----- Invariants -----

  ghost function CallsOn(calls: map<int, Exchange>, code: string, consumed: bool): set<int> {
    set c | c in calls && calls[c].form.code == code && calls[c].consumed == consumed
  }

  function TokensFor(tokens: seq<Token>, code: string): nat {
    if tokens == [] then 0
    else TokensFor(tokens[..|tokens| - 1], code) + if tokens[|tokens| - 1].form.code == code then 1 else 0
  }

  ghost predicate SameButUsed(a: Row, b: Row) {
    a == b.(used := a.used)
  }

  ghost predicate ExchangeSound(s: State, x: Exchange) {
    && x.form.code in s.codes
    && SameButUsed(x.row, s.codes[x.form.code])
  }

  /** The token carries what was stored with the code, and the form passed both checks. */
  ghost predicate TokenSound(s256: string -> string, s: State, t: Token) {
    && t.form.code in s.codes
    && var row := s.codes[t.form.code];
    && t.scopes == row.scopes && t.user == row.user && t.tenant == row.tenant && t.nonce == row.nonce
    && t.form.redirect == row.redirect
    && s256(t.form.verifier) == row.challenge
  }

  ghost predicate UsesSound(s: State, code: string) {
    && ((code in s.codes && s.codes[code].used) <==> s.uses[code] > 0)
    && TokensFor(s.tokens, code) + |CallsOn(s.calls, code, true)| <= s.uses[code]
  }

  ghost predicate Sound(s256: string -> string, s: State) {
    && (forall c | c in s.calls :: ExchangeSound(s, s.calls[c]))
    && (forall i | 0 <= i < |s.tokens| :: TokenSound(s256, s, s.tokens[i]))
    && (forall code :: UsesSound(s, code))
  }

  function InGroup(calls: map<int, Exchange>, call: int, code: string, consumed: bool): nat {
    if call in calls && calls[call].form.code == code && calls[call].consumed == consumed then 1 else 0
  }

  lemma Without(calls: map<int, Exchange>, call: int, code: string, consumed: bool)
    ensures |CallsOn(calls - {call}, code, consumed)|
            == |CallsOn(calls, code, consumed)| - InGroup(calls, call, code, consumed)
  {
    assert CallsOn(calls - {call}, code, consumed) == CallsOn(calls, code, consumed) - {call};
  }

  lemma CallsElsewhere(before: map<int, Exchange>, after: map<int, Exchange>, call: int, code: string)
    requires before - {call} == after - {call}
    ensures |CallsOn(after, code, true)|
            == |CallsOn(before, code, true)| - InGroup(before, call, code, true) + InGroup(after, call, code, true)
  {
    Without(before, call, code, true);
    Without(after, call, code, true);
  }

  lemma LookupOrAbandonStaysSound(s256: string -> string, s: State, e: Event, code: string)
    requires UsesSound(s, code) && (e.Lookup? || e.Abandon?)
    ensures UsesSound(Next(s256, s, e), code)
  {
    var t := Next(s256, s, e);
    assert t.calls - {e.call} == s.calls - {e.call};
    CallsElsewhere(s.calls, t.calls, e.call, code);
  }

  lemma MarkStaysSound(s256: string -> string, s: State, e: Event, code: string)
    requires UsesSound(s, code) && e.Mark?
    ensures UsesSound(Next(s256, s, e), code)
  {
    var t := Next(s256, s, e);
    assert t.calls - {e.call} == s.calls - {e.call};
    CallsElsewhere(s.calls, t.calls, e.call, code);
  }

  lemma RespondStaysSound(s256: string -> string, s: State, e: Event, code: string)
    requires UsesSound(s, code) && e.Respond?
    ensures UsesSound(Next(s256, s, e), code)
  {
    var t := Next(s256, s, e);
    assert t.calls - {e.call} == s.calls - {e.call};
    CallsElsewhere(s.calls, t.calls, e.call, code);
    if t.tokens != s.tokens {
      assert t.tokens[..|t.tokens| - 1] == s.tokens;
    }
  }

  lemma IssueStaysSound(s256: string -> string, s: State, e: Event, code: string)
    requires UsesSound(s, code) && e.Issue?
    ensures UsesSound(Next(s256, s, e), code)
  {
  }

  lemma UsesStaySound(s256: string -> string, s: State, e: Event, code: string)
    requires UsesSound(s, code)
    ensures UsesSound(Next(s256, s, e), code)
  {
    hide Next, UsesSound;
    match e
    case Issue(_, _, _) => IssueStaysSound(s256, s, e, code);
    case Lookup(_, _, _, _, _) => LookupOrAbandonStaysSound(s256, s, e, code);
    case Mark(_) => MarkStaysSound(s256, s, e, code);
    case Respond(_, _) => RespondStaysSound(s256, s, e, code);
    case Abandon(_) => LookupOrAbandonStaysSound(s256, s, e, code);
  }

  lemma NextKeepsSound(s256: string -> string, s: State, e: Event)
    requires Sound(s256, s)
    ensures Sound(s256, Next(s256, s, e))
  {
    var t := Next(s256, s, e);
    forall c | c in t.calls ensures ExchangeSound(t, t.calls[c]) {
      if c in s.calls {
        assert ExchangeSound(s, s.calls[c]);
      }
    }
    forall i | 0 <= i < |t.tokens| ensures TokenSound(s256, t, t.tokens[i]) {
      if i < |s.tokens| {
        assert TokenSound(s256, s, s.tokens[i]);
      } else {
        assert ExchangeSound(s, s.calls[e.call]);
      }
    }
    forall code ensures UsesSound(t, code) {
      UsesStaySound(s256, s, e, code);
    }
  }

  lemma {:induction false} AlwaysSound(s256: string -> string, trace: seq<State>, events: seq<Event>, i: nat)
    requires IsTrace(s256, trace, events) && i < |trace|
    ensures Sound(s256, trace[i])
  {
    if i == 0 {
      forall code ensures UsesSound(START, code) {
        assert CallsOn(START.calls, code, true) == {};
      }
    } else {
      AlwaysSound(s256, trace, events, i - 1);
      assert trace[i - 1 + 1] == Next(s256, trace[i - 1], events[i - 1]);
      NextKeepsSound(s256, trace[i - 1], events[i - 1]);
    }
  }

  // ----- Which requests are refused -----

  predicate Complete(form: Form) {
    form.code != "" && form.redirect != "" && form.client != "" && form.verifier != ""
  }

  /** A client is authenticated unless it is confidential, has a secret, and the one presented is wrong. */
  predicate Authenticated(found: Option<Client>, secretOk: bool) {
    found.Some? && (found.value.confidential && found.value.hasSecret ==> secretOk)
  }

  /** An incomplete form is refused first, then a client that is unknown or not authenticated; nothing else is, yet. */
  lemma PrecheckIff(form: Form, found: Option<Client>, secretOk: bool)
    ensures Precheck(form, found, secretOk) == Some(InvalidRequest) <==> !Complete(form)
    ensures Precheck(form, found, secretOk) == Some(InvalidClient) <==>
              Complete(form) && !Authenticated(found, secretOk)
    ensures Precheck(form, found, secretOk) == None <==> Complete(form) && Authenticated(found, secretOk)
  {
  }

  /** After consumption: a mismatch first, then a missing user; tokens, on what was read, only if all is well. */
  lemma AnswerIff(s256: string -> string, x: Exchange, userFound: bool)
    ensures var reply := Answer(s256, x, userFound);
            var matches := x.form.redirect == x.row.redirect && s256(x.form.verifier) == x.row.challenge;
            && (reply == Refused(InvalidGrant) <==> !matches)
            && (reply == Refused(ServerError) <==> matches && !userFound)
            && (reply.Granted? <==> matches && userFound)
            && (reply.Granted? ==>
                  && reply.token.form == x.form && reply.token.client == x.client.id
                  && reply.token.user == x.row.user && reply.token.tenant == x.row.tenant
                  && reply.token.scopes == x.row.scopes && reply.token.nonce == x.row.nonce)
  {
  }

  // ----- Single use -----

  ghost function Guard(s: State, code: string): Guarded {
    Guarded(s.uses[code], CallsOn(s.calls, code, false))
  }

  lemma EventIsStep(s256: string -> string, s: State, e: Event, code: string)
    requires UsesSound(s, code)
    ensures Step(Guard(s, code), Guard(Next(s256, s, e), code), 1)
  {
    var t := Next(s256, s, e);
    var g, h := Guard(s, code), Guard(t, code);
    if t == s || e.Issue? {
      assert Idles(g, h);
    } else if e.Lookup? && e.form.code == code {
      assert Enters(g, h, 1, e.call);
    } else if e.call in g.inFlight {
      assert Finishes(g, h, e.call);
    } else {
      assert h.inFlight == g.inFlight;
      assert Idles(g, h);
    }
  }

  ghost function Guards(trace: seq<State>, code: string): (run: seq<Guarded>)
    ensures |run| == |trace|
    ensures forall i | 0 <= i < |run| :: run[i] == Guard(trace[i], code)
  {
    seq(|trace|, i requires 0 <= i < |trace| => Guard(trace[i], code))
  }

  lemma GuardsRun(s256: string -> string, trace: seq<State>, events: seq<Event>, code: string)
    requires IsTrace(s256, trace, events)
    ensures IsRun(Guards(trace, code), 1)
  {
    var run := Guards(trace, code);
    assert run[0] == Guarded(0, {});
    forall i | 0 <= i < |run| - 1 ensures Step(run[i], run[i + 1], 1) {
      assert trace[i + 1] == Next(s256, trace[i], events[i]);
      AlwaysSound(s256, trace, events, i);
      assert UsesSound(trace[i], code);
      EventIsStep(s256, trace[i], events[i], code);
    }
  }

  ghost predicate AtMostConsuming(trace: seq<State>, code: string, k: nat) {
    forall j | 0 <= j < |trace| :: |CallsOn(trace[j].calls, code, false)| <= k
  }

  /**
   With at most k consumptions of a code in flight it is consumed at most k times
   and answered with tokens at most k times: once if no two overlap.
   */
  lemma CodeUseBound(s256: string -> string, trace: seq<State>, events: seq<Event>, code: string, k: nat, i: nat)
    requires IsTrace(s256, trace, events) && i < |trace|
    requires 1 <= k && AtMostConsuming(trace, code, k)
    ensures TokensFor(trace[i].tokens, code) <= trace[i].uses[code] <= k
  {
    var run := Guards(trace, code);
    GuardsRun(s256, trace, events, code);
    AlwaysSound(s256, trace, events, i);
    assert UsesSound(trace[i], code);
    assert AtMostInFlight(run, k);
    Overshoot(run, 1, k);
    assert run[i].count <= k;
  }

  // ----- The bound is met -----

  const FORM: Form := Form("c", "r", "id", "v")

  function StoredRow(s256: string -> string, used: bool): Row {
    Row(1, 2, 3, "r", [], s256("v"), "", used, VALIDITY)
  }

  function Started(s256: string -> string, consumed: bool): Exchange {
    Exchange(FORM, Client(1, false, false), StoredRow(s256, false), consumed)
  }

  /** The exchanges 0 to n - 1 on one code; those below `marked` have consumed it. */
  function Exchanges(s256: string -> string, n: nat, marked: nat): map<int, Exchange> {
    map c | c in Below(n) :: Started(s256, c < marked)
  }

  ghost predicate At(s256: string -> string, s: State, calls: map<int, Exchange>, used: bool, uses: nat, tokens: nat) {
    && s.calls == calls && s.codes == map["c" := StoredRow(s256, used)]
    && s.uses["c"] == uses && TokensFor(s.tokens, "c") == tokens
  }

  lemma OneMore(s256: string -> string, n: nat)
    ensures n !in Exchanges(s256, n, 0)
    ensures Exchanges(s256, n, 0)[n := Started(s256, false)] == Exchanges(s256, n + 1, 0)
  {
  }

  lemma OneMarked(s256: string -> string, k: nat, n: nat)
    requires n < k
    ensures n in Exchanges(s256, k, n) && Exchanges(s256, k, n)[n] == Started(s256, false)
    ensures Exchanges(s256, k, n)[n := Started(s256, true)] == Exchanges(s256, k, n + 1)
  {
  }

  lemma OneLess(s256: string -> string, n: nat)
    ensures n in Exchanges(s256, n + 1, n + 1) && Exchanges(s256, n + 1, n + 1)[n] == Started(s256, true)
    ensures Exchanges(s256, n + 1, n + 1) - {n} == Exchanges(s256, n, n)
  {
  }

  lemma OneLooksUp(s256: string -> string, s: State, n: nat)
    requires At(s256, s, Exchanges(s256, n, 0), false, 0, 0)
    ensures At(s256, Next(s256, s, Lookup(n, FORM, Some(Client(1, false, false)), true, 0)),
               Exchanges(s256, n + 1, 0), false, 0, 0)
  {
    hide Exchanges;
    OneMore(s256, n);
  }

  lemma OneMarks(s256: string -> string, s: State, k: nat, n: nat)
    requires n < k && At(s256, s, Exchanges(s256, k, n), n > 0, n, 0)
    ensures At(s256, Next(s256, s, Mark(n)), Exchanges(s256, k, n + 1), true, n + 1, 0)
  {
    hide Exchanges;
    OneMarked(s256, k, n);
  }

  lemma OneResponds(s256: string -> string, s: State, k: nat, n: nat)
    requires n < k && At(s256, s, Exchanges(s256, n + 1, n + 1), true, k, k - n - 1)
    ensures At(s256, Next(s256, s, Respond(n, true)), Exchanges(s256, n, n), true, k, k - n)
  {
    hide Exchanges;
    OneLess(s256, n);
    var t := Next(s256, s, Respond(n, true));
    assert t.tokens[..|t.tokens| - 1] == s.tokens;
  }

  lemma UnmarkedAtMost(s256: string -> string, n: nat, marked: nat)
    ensures |CallsOn(Exchanges(s256, n, marked), "c", false)| <= n
  {
    SubsetSize(CallsOn(Exchanges(s256, n, marked), "c", false), Below(n));
  }

  lemma Extend(s256: string -> string, trace: seq<State>, events: seq<Event>, k: nat, e: Event)
    returns (trace': seq<State>, events': seq<Event>)
    requires IsTrace(s256, trace, events) && AtMostConsuming(trace, "c", k)
    requires |CallsOn(Next(s256, trace[|events|], e).calls, "c", false)| <= k
    ensures IsTrace(s256, trace', events') && AtMostConsuming(trace', "c", k)
    ensures trace'[|events'|] == Next(s256, trace[|events|], e)
  {
    trace', events' := trace + [Next(s256, trace[|events|], e)], events + [e];
  }

  lemma Issued(s256: string -> string, k: nat) returns (trace: seq<State>, events: seq<Event>)
    ensures IsTrace(s256, trace, events) && AtMostConsuming(trace, "c", k)
    ensures At(s256, trace[|events|], Exchanges(s256, 0, 0), false, 0, 0)
  {
    events := [Issue("c", StoredRow(s256, false), 0)];
    trace := [START, Next(s256, START, events[0])];
    assert CallsOn(map[], "c", false) == {};
    assert trace[1].calls == Exchanges(s256, 0, 0);
  }

  lemma {:induction false} AllLookUp(s256: string -> string, k: nat, n: nat)
    returns (trace: seq<State>, events: seq<Event>)
    requires n <= k
    ensures IsTrace(s256, trace, events) && AtMostConsuming(trace, "c", k)
    ensures At(s256, trace[|events|], Exchanges(s256, n, 0), false, 0, 0)
  {
    hide Next, Exchanges, CallsOn, AtMostConsuming;
    if n == 0 {
      trace, events := Issued(s256, k);
    } else {
      trace, events := AllLookUp(s256, k, n - 1);
      OneLooksUp(s256, trace[|events|], n - 1);
      UnmarkedAtMost(s256, n, 0);
      trace, events := Extend(s256, trace, events, k, Lookup(n - 1, FORM, Some(Client(1, false, false)), true, 0));
    }
  }

  lemma {:induction false} AllMark(s256: string -> string, k: nat, n: nat)
    returns (trace: seq<State>, events: seq<Event>)
    requires n <= k
    ensures IsTrace(s256, trace, events) && AtMostConsuming(trace, "c", k)
    ensures At(s256, trace[|events|], Exchanges(s256, k, n), n > 0, n, 0)
  {
    hide Next, Exchanges, CallsOn, AtMostConsuming;
    if n == 0 {
      trace, events := AllLookUp(s256, k, k);
    } else {
      trace, events := AllMark(s256, k, n - 1);
      OneMarks(s256, trace[|events|], k, n - 1);
      UnmarkedAtMost(s256, k, n);
      trace, events := Extend(s256, trace, events, k, Mark(n - 1));
    }
  }

  lemma {:induction false} AllRespond(s256: string -> string, k: nat, n: nat)
    returns (trace: seq<State>, events: seq<Event>)
    requires n <= k && k > 0
    ensures IsTrace(s256, trace, events) && AtMostConsuming(trace, "c", k)
    ensures At(s256, trace[|events|], Exchanges(s256, n, n), true, k, k - n)
    decreases k - n
  {
    hide Next, Exchanges, CallsOn, AtMostConsuming;
    if n == k {
      trace, events := AllMark(s256, k, k);
    } else {
      trace, events := AllRespond(s256, k, n + 1);
      OneResponds(s256, trace[|events|], k, n);
      UnmarkedAtMost(s256, n, n);
      trace, events := Extend(s256, trace, events, k, Respond(n, true));
    }
  }

  /**
   The bound cannot be improved: k exchanges that all look a code up before any marks it get k token responses
   from it.
   */
  lemma OverlappingLookupsAllGetTokens(s256: string -> string, k: nat) returns (trace: seq<State>, events: seq<Event>)
    requires 1 <= k
    ensures IsTrace(s256, trace, events) && AtMostConsuming(trace, "c", k)
    ensures trace[|events|].uses["c"] == TokensFor(trace[|events|].tokens, "c") == k
  {
    trace, events := AllRespond(s256, k, 0);
  }

  /**
   Codes are single-use in every interleaving, as section 4.1.2 of RFC 6749 asks, iff consumptions of a code
   never overlap.
   */
  lemma SingleUseIffNoOverlap(s256: string -> string, k: nat)
    requires 1 <= k
    ensures (forall trace: seq<State>, events: seq<Event>, code: string |
               IsTrace(s256, trace, events) && AtMostConsuming(trace, code, k) ::
               forall i | 0 <= i < |trace| :: trace[i].uses[code] <= 1)
            <==> k == 1
  {
    if k == 1 {
      forall trace: seq<State>, events: seq<Event>, code: string |
        IsTrace(s256, trace, events) && AtMostConsuming(trace, code, k)
        ensures forall i | 0 <= i < |trace| :: trace[i].uses[code] <= 1
      {
        forall i | 0 <= i < |trace| ensures trace[i].uses[code] <= 1 {
          CodeUseBound(s256, trace, events, code, 1, i);
        }
      }
    } else {
      var trace, events := OverlappingLookupsAllGetTokens(s256, k);
      assert trace[|events|].uses["c"] > 1;
    }
  }

  // ----- Expiry -----

  /**
   An exchange in flight looked its code up while the code was stored, unused and unexpired, after all earlier
   checks.
   */
  lemma {:induction false} InFlightLookedUp(s256: string -> string, trace: seq<State>, events: seq<Event>, call: int,
                                            i: nat)
    returns (b: nat)
    requires IsTrace(s256, trace, events) && i < |trace| && call in trace[i].calls
    ensures b < i && events[b].Lookup? && events[b].call == call && events[b].form == trace[i].calls[call].form
    ensures Precheck(events[b].form, events[b].found, events[b].secretOk).None?
    ensures Usable(trace[b], events[b].form.code, events[b].now)
  {
    var s, e := trace[i - 1], events[i - 1];
    assert trace[i - 1 + 1] == Next(s256, s, e);
    if call in s.calls {
      b := InFlightLookedUp(s256, trace, events, call, i - 1);
    } else {
      b := i - 1;
    }
  }

  /** Stored with an expiry five minutes after issue, a row keeps everything but its used flag, which never falls. */
  lemma {:induction false} RowKept(s256: string -> string, trace: seq<State>, events: seq<Event>, code: string,
                                   i: nat, j: nat)
    requires IsTrace(s256, trace, events) && i <= j < |trace| && code in trace[i].codes
    ensures code in trace[j].codes && SameButUsed(trace[i].codes[code], trace[j].codes[code])
    ensures trace[i].codes[code].used ==> trace[j].codes[code].used
    decreases j - i
  {
    if i < j {
      RowKept(s256, trace, events, code, i, j - 1);
      assert trace[j - 1 + 1] == Next(s256, trace[j - 1], events[j - 1]);
    }
  }

  lemma {:induction false} IssuedBefore(s256: string -> string, trace: seq<State>, events: seq<Event>, code: string,
                                        i: nat)
    returns (b: nat)
    requires IsTrace(s256, trace, events) && i < |trace| && code in trace[i].codes
    ensures b < i && events[b].Issue? && events[b].code == code
    ensures trace[i].codes[code].expiresAt == events[b].now + VALIDITY
    ensures SameButUsed(trace[i].codes[code], events[b].row.(expiresAt := events[b].now + VALIDITY))
  {
    assert trace[i - 1 + 1] == Next(s256, trace[i - 1], events[i - 1]);
    if code in trace[i - 1].codes {
      b := IssuedBefore(s256, trace, events, code, i - 1);
    } else {
      b := i - 1;
    }
  }

  /** A code is found exactly within five minutes of its issue and before any consumption. */
  lemma UsableIff(s256: string -> string, trace: seq<State>, events: seq<Event>, code: string, i: nat, now: int)
    returns (issue: nat)
    requires IsTrace(s256, trace, events) && i < |trace| && code in trace[i].codes
    ensures issue < i && events[issue].Issue? && events[issue].code == code
    ensures Usable(trace[i], code, now) <==> now < events[issue].now + 5 * 60 * 1000 && trace[i].uses[code] == 0
  {
    issue := IssuedBefore(s256, trace, events, code, i);
    AlwaysSound(s256, trace, events, i);
    assert UsesSound(trace[i], code);
  }

  /**
   A code is only ever consumed by an exchange that looked it up within five minutes of its issue, before any
   consumption.
   */
  lemma ConsumedInTime(s256: string -> string, trace: seq<State>, events: seq<Event>, code: string, i: nat)
    returns (lookup: nat, issue: nat)
    requires IsTrace(s256, trace, events) && i < |events|
    requires trace[i + 1].uses[code] > trace[i].uses[code]
    ensures issue < lookup < i
    ensures events[issue].Issue? && events[issue].code == code
    ensures events[lookup].Lookup? && events[lookup].form.code == code
    ensures events[lookup].now < events[issue].now + 5 * 60 * 1000
    ensures trace[lookup].uses[code] == 0
  {
    assert trace[i + 1] == Next(s256, trace[i], events[i]);
    lookup := InFlightLookedUp(s256, trace, events, events[i].call, i);
    issue := IssuedBefore(s256, trace, events, code, lookup);
    AlwaysSound(s256, trace, events, lookup);
    assert UsesSound(trace[lookup], code);
  }

  // ----- Answers -----

  /** Every token response carries the scopes, user and nonce stored with its code and follows both checks. */
  lemma TokensFollowChecks(s256: string -> string, trace: seq<State>, events: seq<Event>, i: nat, t: nat)
    requires IsTrace(s256, trace, events) && i < |trace| && t < |trace[i].tokens|
    ensures var s, token := trace[i], trace[i].tokens[t];
            && token.form.code in s.codes
            && var row := s.codes[token.form.code];
            && row.used
            && token.scopes == row.scopes && token.user == row.user
            && token.tenant == row.tenant && token.nonce == row.nonce
            && token.form.redirect == row.redirect && s256(token.form.verifier) == row.challenge
  {
    AlwaysSound(s256, trace, events, i);
    var code := trace[i].tokens[t].form.code;
    assert UsesSound(trace[i], code) && TokenSound(s256, trace[i], trace[i].tokens[t]);
    TokenCounted(trace[i].tokens, t);
  }

  /** An exchange in flight is that of a complete form and an authenticated client. */
  lemma {:induction false} ExchangeOrigin(s256: string -> string, trace: seq<State>, events: seq<Event>,
                                          call: int, i: nat) returns (b: nat)
    requires IsTrace(s256, trace, events) && i < |trace| && call in trace[i].calls
    ensures b < i && events[b].Lookup? && events[b].call == call
    ensures events[b].form == trace[i].calls[call].form && Complete(events[b].form)
    ensures events[b].found == Some(trace[i].calls[call].client) && Authenticated(events[b].found, events[b].secretOk)
  {
    var s, e := trace[i - 1], events[i - 1];
    assert trace[i - 1 + 1] == Next(s256, s, e);
    if call in s.calls {
      b := ExchangeOrigin(s256, trace, events, call, i - 1);
    } else {
      PrecheckIff(e.form, e.found, e.secretOk);
      b := i - 1;
    }
  }

  /** Every token goes back to a complete form of the authenticated client it is for, and to a user who was found. */
  lemma {:induction false} TokenOrigin(s256: string -> string, trace: seq<State>, events: seq<Event>, i: nat, t: nat)
    returns (b: nat, r: nat)
    requires IsTrace(s256, trace, events) && i < |trace| && t < |trace[i].tokens|
    ensures b < r < i && events[b].Lookup? && events[b].form == trace[i].tokens[t].form && Complete(events[b].form)
    ensures Authenticated(events[b].found, events[b].secretOk) && events[b].found.value.id == trace[i].tokens[t].client
    ensures events[r].Respond? && events[r].call == events[b].call && events[r].userFound
  {
    var s, e := trace[i - 1], events[i - 1];
    assert trace[i - 1 + 1] == Next(s256, s, e);
    if t < |s.tokens| {
      b, r := TokenOrigin(s256, trace, events, i - 1, t);
    } else {
      AnswerIff(s256, s.calls[e.call], e.userFound);
      b := ExchangeOrigin(s256, trace, events, e.call, i - 1);
      r := i - 1;
    }
  }

  lemma {:induction false} TokenCounted(tokens: seq<Token>, t: nat)
    requires t < |tokens|
    ensures TokensFor(tokens, tokens[t].form.code) > 0
  {
    var n := |tokens| - 1;
    if t < n {
      TokenCounted(tokens[..n], t);
      assert tokens[..n][t] == tokens[t];
    }
  }

  /** Whatever is answered once a code is consumed, a mismatch included, the code is never usable again. */
  lemma AnswerBurns(s256: string -> string, trace: seq<State>, events: seq<Event>, i: nat, j: nat, now: int)
    requires IsTrace(s256, trace, events) && i < |events| && i < j < |trace|
    requires events[i].Respond? && events[i].call in trace[i].calls && trace[i].calls[events[i].call].consumed
    ensures var code := trace[i].calls[events[i].call].form.code;
            code in trace[j].codes && trace[j].codes[code].used && !Usable(trace[j], code, now)
  {
    var call := events[i].call;
    var code := trace[i].calls[call].form.code;
    AlwaysSound(s256, trace, events, i);
    assert ExchangeSound(trace[i], trace[i].calls[call]) && UsesSound(trace[i], code);
    assert call in CallsOn(trace[i].calls, code, true);
    RowKept(s256, trace, events, code, i, j);
  }

  // ----- Whose code it is -----

  /** Step e answers this call with tokens for another client than the one its code was issued to. */
  ghost predicate GrantsToOther(s256: string -> string, s: State, e: Event, call: int) {
    && e.Respond? && e.call == call && call in s.calls && s.calls[call].consumed
    && s.calls[call].form.code in s.codes
    && var reply := Answer(s256, s.calls[call], e.userFound);
    && reply.Granted? && reply.token.client != s.codes[s.calls[call].form.code].client
  }

  /** While a call stays in flight it is the same exchange, on the same code row but for its used flag. */
  lemma {:induction false} ExchangeKept(s256: string -> string, s: State, trace: seq<State>, events: seq<Event>,
                                        call: int, i: nat)
    requires Continues(s256, s, trace, events) && i < |trace|
    requires forall j | 0 <= j <= i :: call in trace[j].calls
    requires ExchangeSound(s, s.calls[call])
    ensures trace[i].calls[call] == s.calls[call].(consumed := trace[i].calls[call].consumed)
    ensures ExchangeSound(trace[i], trace[i].calls[call])
  {
    if i > 0 {
      ExchangeKept(s256, s, trace, events, call, i - 1);
      assert trace[i - 1 + 1] == Next(s256, trace[i - 1], events[i - 1]);
    }
  }

  /** The presenting client is the code's own, or a later check refuses the exchange anyway. */
  predicate BoundOrRefused(s256: string -> string, x: Exchange) {
    || x.client.id == x.row.client
    || x.row.redirect != x.form.redirect
    || s256(x.form.verifier) != x.row.challenge
  }

  /** The run that answers a call at once: marked if it is not yet, then answered. */
  lemma AnswerNow(s256: string -> string, s: State, call: int) returns (trace: seq<State>, events: seq<Event>, i: nat)
    requires call in s.calls && ExchangeSound(s, s.calls[call]) && !BoundOrRefused(s256, s.calls[call])
    ensures Continues(s256, s, trace, events) && i < |events|
    ensures forall j | 0 <= j <= i :: call in trace[j].calls
    ensures GrantsToOther(s256, trace[i], events[i], call)
  {
    if s.calls[call].consumed {
      events, i := [Respond(call, true)], 0;
      trace := [s, Next(s256, s, events[0])];
    } else {
      events, i := [Mark(call), Respond(call, true)], 1;
      var marked := Next(s256, s, events[0]);
      trace := [s, marked, Next(s256, marked, events[1])];
    }
  }

  /**
   Section 4.1.3 of RFC 6749 asks that a code be issued to the client presenting it.
   Nothing checks that: an exchange in flight is never answered, in any continuation,
   with tokens for another client than the code's own if and only if the client
   is the code's own already, or the redirect or the verifier does not match.
   */
  lemma OwnClientIff(s256: string -> string, s: State, call: int)
    requires Sound(s256, s) && call in s.calls
    ensures (forall trace: seq<State>, events: seq<Event>, i: nat |
               && Continues(s256, s, trace, events) && i < |events|
               && (forall j | 0 <= j <= i :: call in trace[j].calls) ::
               !GrantsToOther(s256, trace[i], events[i], call))
            <==> BoundOrRefused(s256, s.calls[call])
  {
    assert ExchangeSound(s, s.calls[call]);
    if BoundOrRefused(s256, s.calls[call]) {
      forall trace: seq<State>, events: seq<Event>, i: nat |
        Continues(s256, s, trace, events) && i < |events| && (forall j | 0 <= j <= i :: call in trace[j].calls)
        ensures !GrantsToOther(s256, trace[i], events[i], call)
      {
        ExchangeKept(s256, s, trace, events, call, i);
      }
    } else {
      var trace, events, i := AnswerNow(s256, s, call);
    }
  }

  /**
   A code issued to client 1 and presented by client 9, with redirect and verifier right, gets client 9 its
   tokens.
   */
  lemma OtherClientGetsTokens(s256: string -> string) returns (trace: seq<State>, events: seq<Event>)
    ensures IsTrace(s256, trace, events)
    ensures |trace[|events|].tokens| == 1 && trace[|events|].tokens[0].client == 9
    ensures "c" in trace[|events|].codes && trace[|events|].codes["c"].client == 1
  {
    events := [Issue("c", StoredRow(s256, false), 0), Lookup(0, FORM, Some(Client(9, false, false)), true, 0),
               Mark(0), Respond(0, true)];
    var s1 := Next(s256, START, events[0]);
    var s2 := Next(s256, s1, events[1]);
    var s3 := Next(s256, s2, events[2]);
    trace := [START, s1, s2, s3, Next(s256, s3, events[3])];
  }

  class TokenEndpoint {
    const s256: string -> string
    var codes: map<string, Row>
    var calls: map<int, Exchange>
    var tokens: seq<Token>
    ghost var uses: multiset<string>

    ghost function Model(): State
      reads this
    {
      State(codes, calls, tokens, uses)
    }

    ghost predicate Valid()
      reads this
    {
      Sound(s256, Model())
    }

    constructor (s256: string -> string)
      ensures Valid() && Model() == START && this.s256 == s256
    {
      this.s256 := s256;
      codes, calls, tokens, uses := map[], map[], [], multiset{};
      new;
      forall code ensures UsesSound(Model(), code) {
        assert CallsOn(calls, code, true) == {};
      }
    }

    method CreateCode(code: string, row: Row, now: int)
      requires Valid() && code !in codes
      modifies this
      ensures Valid() && Model() == Next(s256, old(Model()), Issue(code, row, now))
    {
      NextKeepsSound(s256, Model(), Issue(code, row, now));
      codes := codes[code := row.(used := false, expiresAt := now + VALIDITY)];
    }

    /** Up to and including the SELECT of Consume; None means the exchange goes on. */
    method Begin(call: int, form: Form, found: Option<Client>, secretOk: bool, now: int)
      returns (refusal: Option<Refusal>)
      requires Valid() && call !in calls
      modifies this
      ensures Valid() && Model() == Next(s256, old(Model()), Lookup(call, form, found, secretOk, now))
      ensures refusal == if !Complete(form) then Some(InvalidRequest)
                         else if !Authenticated(found, secretOk) then Some(InvalidClient)
                         else if !Usable(old(Model()), form.code, now) then Some(InvalidGrant)
                         else None
    {
      PrecheckIff(form, found, secretOk);
      NextKeepsSound(s256, Model(), Lookup(call, form, found, secretOk, now));
      if form.code == "" || form.redirect == "" || form.client == "" || form.verifier == "" {
        return Some(InvalidRequest);
      }
      if found.None? {
        return Some(InvalidClient);
      }
      if found.value.confidential {
        if found.value.hasSecret && !secretOk {
          return Some(InvalidClient);
        }
      }
      if form.code !in codes || codes[form.code].used || codes[form.code].expiresAt <= now {
        return Some(InvalidGrant);
      }
      calls := calls[call := Exchange(form, found.value, codes[form.code], false)];
      refusal := None;
    }

    /** The UPDATE of Consume. */
    method MarkUsed(call: int)
      requires Valid() && call in calls && !calls[call].consumed
      modifies this
      ensures Valid() && Model() == Next(s256, old(Model()), Mark(call))
    {
      NextKeepsSound(s256, Model(), Mark(call));
      var x := calls[call];
      assert ExchangeSound(Model(), x);
      codes := codes[x.form.code := codes[x.form.code].(used := true)];
      calls := calls[call := x.(consumed := true)];
      uses := uses + multiset{x.form.code};
    }

    /** Redirect check, verifier check, user lookup, then the tokens. */
    method Finish(call: int, userFound: bool) returns (reply: Reply)
      requires Valid() && call in calls && calls[call].consumed
      modifies this
      ensures Valid() && Model() == Next(s256, old(Model()), Respond(call, userFound))
      ensures reply == Answer(s256, old(calls)[call], userFound)
    {
      NextKeepsSound(s256, Model(), Respond(call, userFound));
      var x := calls[call];
      calls := calls - {call};
      if x.row.redirect != x.form.redirect {
        return Refused(InvalidGrant);
      }
      if s256(x.form.verifier) != x.row.challenge {
        return Refused(InvalidGrant);
      }
      if !userFound {
        return Refused(ServerError);
      }
      var token := Token(x.form, x.client.id, x.row.user, x.row.tenant, x.row.scopes, x.row.nonce);
      tokens := tokens + [token];
      reply := Granted(token);
    }
  }
}
