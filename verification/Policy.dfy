/**
 The policy engine: a deny-overrides loop over a tenant's active policies, with
 role-based permissions as the fallback. `fmt` stands for the text a value is
 formatted as, `parse` for reading a user id.
 */
module Policy {
  import opened Base
  import Rbac

  datatype Value = Nil | Str(text: string) | Number(n: real) | Flag(on: bool) | List(items: seq<Value>)
                 | Object(fields: map<string, Value>)

  datatype Condition = Condition(attribute: string, operator: string, value: Value)

  datatype Policy = Policy(id: int, tenant: int, effect: string, priority: int,
                           users: seq<string>, roles: seq<string>, groups: seq<string>,
                           actions: seq<string>, types: seq<string>, conditions: seq<Condition>, active: bool)

  datatype Request = Request(userId: string, roles: seq<string>, subject: Option<map<string, Value>>, action: string,
                             resourceType: string, resource: Option<map<string, Value>>,
                             ipAddress: string, networkZone: string, env: Option<map<string, Value>>)

  datatype Decision = Decision(allowed: bool, decision: string, reason: string, matched: seq<int>)

  // ----- Splitting at a separator -----

  /** The parts before and after the first separator. */
  function Split(s: string, sep: char): Option<(string, string)> {
    if s == [] then None
    else if s[0] == sep then Some(([], s[1..]))
    else match Split(s[1..], sep)
         case None => None
         case Some(parts) => Some(([s[0]] + parts.0, parts.1))
  }

  /** Splitting at the first separator and joining again is the identity, on every text that has one. */
  lemma {:induction false} SplitJoins(s: string, sep: char)
    ensures Split(s, sep).Some? <==> sep in s
    ensures Split(s, sep).Some? ==>
              Split(s, sep).value.0 + [sep] + Split(s, sep).value.1 == s && sep !in Split(s, sep).value.0
  {
    if s != [] && s[0] != sep {
      SplitJoins(s[1..], sep);
    }
  }

  /** And joining a separator-free text to any other is undone by splitting. */
  lemma {:induction false} JoinSplits(before: string, after: string, sep: char)
    requires sep !in before
    ensures Split(before + [sep] + after, sep) == Some((before, after))
  {
    var s := before + [sep] + after;
    if before == [] {
      assert s[1..] == after;
    } else {
      assert s[0] == before[0] && s[0] in before;
      assert s[1..] == before[1..] + [sep] + after;
      JoinSplits(before[1..], after, sep);
      assert [s[0]] + before[1..] == before;
    }
  }

  // ----- Does a policy apply? -----

  predicate MatchesSubject(p: Policy, req: Request) {
    || (p.users == [] && p.roles == [] && p.groups == [])
    || (exists u | u in p.users :: u == req.userId || u == "*")
    || (exists pr | pr in p.roles :: exists sr | sr in req.roles :: pr == sr || pr == "*")
  }

  predicate MatchesAction(p: Policy, req: Request) {
    exists a | a in p.actions :: a == req.action || a == "*"
  }

  predicate MatchesResource(p: Policy, req: Request) {
    p.types == [] || exists t | t in p.types :: t == req.resourceType || t == "*"
  }

  function Attribute(attributes: Option<map<string, Value>>, name: string): Value {
    if attributes.Some? && name in attributes.value then attributes.value[name] else Nil
  }

  function Resolve(attribute: string, req: Request): Value {
    match Split(attribute, '.')
    case None => Nil
    case Some((source, name)) =>
      if source == "subject" then Attribute(req.subject, name)
      else if source == "resource" then Attribute(req.resource, name)
      else if source == "environment" || source == "env" then
        if name == "networkZone" then Str(req.networkZone)
        else if name == "ipAddress" then Str(req.ipAddress)
        else Attribute(req.env, name)
      else Nil
  }

  /**
   Only the first dot separates: names may contain dots themselves. "env" and
   "environment" are the same; there, zone and address hide attributes of that name.
   */
  lemma AttributeNames(name: string, req: Request, env: Option<map<string, Value>>)
    ensures Resolve("subject." + name, req)
            == if req.subject.Some? && name in req.subject.value then req.subject.value[name] else Nil
    ensures Resolve("resource." + name, req)
            == if req.resource.Some? && name in req.resource.value then req.resource.value[name] else Nil
    ensures Resolve("env." + name, req) == Resolve("environment." + name, req)
    ensures name in {"networkZone", "ipAddress"} ==>
              Resolve("env." + name, req.(env := env)) == Resolve("env." + name, req)
    ensures name !in {"networkZone", "ipAddress"} ==>
              Resolve("env." + name, req)
              == if req.env.Some? && name in req.env.value then req.env.value[name] else Nil
  {
    assert "subject." + name == "subject" + ['.'] + name && "resource." + name == "resource" + ['.'] + name;
    assert "env." + name == "env" + ['.'] + name && "environment." + name == "environment" + ['.'] + name;
    JoinSplits("subject", name, '.');
    JoinSplits("resource", name, '.');
    JoinSplits("env", name, '.');
    JoinSplits("environment", name, '.');
  }

  /** The zone and the address are the request's own. */
  lemma ZoneAndAddress(req: Request)
    ensures Resolve("env.networkZone", req) == Str(req.networkZone)
    ensures Resolve("env.ipAddress", req) == Str(req.ipAddress)
  {
    assert "env.networkZone" == "env" + ['.'] + "networkZone" && "env.ipAddress" == "env" + ['.'] + "ipAddress";
    JoinSplits("env", "networkZone", '.');
    JoinSplits("env", "ipAddress", '.');
  }

  /** An attribute without a dot, or of a source that is none of the four, is nil. */
  lemma OtherAttributesAreNil(source: string, name: string, req: Request)
    requires '.' !in source
    ensures Resolve(source, req) == Nil
    ensures source !in {"subject", "resource", "environment", "env"} ==> Resolve(source + "." + name, req) == Nil
  {
    SplitJoins(source, '.');
    JoinSplits(source, name, '.');
    assert source + "." + name == source + ['.'] + name;
  }

  predicate Holds(fmt: Value -> string, operator: string, actual: Value, expected: Value) {
    if operator == "eq" then fmt(actual) == fmt(expected)
    else if operator == "neq" then fmt(actual) != fmt(expected)
    else if operator == "in" then
      expected.List? && exists i :: 0 <= i < |expected.items| && fmt(actual) == fmt(expected.items[i])
    else if operator == "contains" then
      exists i :: 0 <= i <= |fmt(actual)| && fmt(expected) <= fmt(actual)[i..]
    else false
  }

  predicate ConditionsHold(fmt: Value -> string, p: Policy, req: Request) {
    forall i | 0 <= i < |p.conditions| ::
      Holds(fmt, p.conditions[i].operator, Resolve(p.conditions[i].attribute, req), p.conditions[i].value)
  }

  predicate Applies(fmt: Value -> string, p: Policy, req: Request) {
    MatchesSubject(p, req) && MatchesAction(p, req) && MatchesResource(p, req) && ConditionsHold(fmt, p, req)
  }

  /**
   Whom a policy is about: everyone if it names no one; groups alone name no one; a role, even "*", needs the
   subject to have one.
   */
  lemma SubjectMatchIff(p: Policy, req: Request)
    ensures MatchesSubject(p, req) <==>
              || (p.users == [] && p.roles == [] && p.groups == [])
              || req.userId in p.users
              || "*" in p.users
              || ("*" in p.roles && req.roles != [])
              || (exists i :: 0 <= i < |p.roles| && p.roles[i] in req.roles)
  {
    if "*" in p.roles && req.roles != [] {
      assert req.roles[0] in req.roles;
    }
    if i :| 0 <= i < |p.roles| && p.roles[i] in req.roles {
      assert p.roles[i] in p.roles;
    }
    if pr :| pr in p.roles && exists sr | sr in req.roles :: pr == sr || pr == "*" {
      var i :| 0 <= i < |p.roles| && p.roles[i] == pr;
      assert p.roles[i] in req.roles || pr == "*";
    }
  }

  /** Is q found in the text? */
  ghost predicate Occurs(q: string, text: string) {
    exists before, after :: text == before + q + after
  }

  lemma OccursAt(q: string, text: string)
    ensures Occurs(q, text) <==> exists i :: 0 <= i <= |text| && q <= text[i..]
  {
    if i :| 0 <= i <= |text| && q <= text[i..] {
      assert text == text[..i] + q + text[i..][|q|..];
    }
    if before, after :| text == before + q + after {
      assert text[|before|..] == q + after;
    }
  }

  /** When a condition is met, by the texts of the attribute's value and of the condition's. */
  lemma HoldsIff(fmt: Value -> string, operator: string, actual: Value, expected: Value)
    ensures Holds(fmt, operator, actual, expected) <==>
              || (operator == "eq" && fmt(actual) == fmt(expected))
              || (operator == "neq" && fmt(actual) != fmt(expected))
              || (operator == "in" && expected.List? && exists x | x in expected.items :: fmt(x) == fmt(actual))
              || (operator == "contains" && Occurs(fmt(expected), fmt(actual)))
  {
    OccursAt(fmt(expected), fmt(actual));
    if operator == "in" && expected.List? {
      if x :| x in expected.items && fmt(x) == fmt(actual) {
        var i :| 0 <= i < |expected.items| && expected.items[i] == x;
      }
      if i :| 0 <= i < |expected.items| && fmt(actual) == fmt(expected.items[i]) {
        assert expected.items[i] in expected.items;
      }
    }
  }

  /** Is a condition met, by the texts of the attribute's value and of its own? */
  ghost predicate Met(fmt: Value -> string, c: Condition, req: Request) {
    var actual := Resolve(c.attribute, req);
    || (c.operator == "eq" && fmt(actual) == fmt(c.value))
    || (c.operator == "neq" && fmt(actual) != fmt(c.value))
    || (c.operator == "in" && c.value.List? && exists x | x in c.value.items :: fmt(x) == fmt(actual))
    || (c.operator == "contains" && Occurs(fmt(c.value), fmt(actual)))
  }

  /**
   When a policy applies, spelled out: it is about the subject, lists the action,
   lists the resource's type or none, and each of its conditions is met.
   */
  lemma AppliesIff(fmt: Value -> string, p: Policy, req: Request)
    ensures Applies(fmt, p, req) <==>
              && (|| (p.users == [] && p.roles == [] && p.groups == [])
                  || req.userId in p.users
                  || "*" in p.users
                  || ("*" in p.roles && req.roles != [])
                  || (exists i :: 0 <= i < |p.roles| && p.roles[i] in req.roles))
              && (req.action in p.actions || "*" in p.actions)
              && (p.types == [] || req.resourceType in p.types || "*" in p.types)
              && (forall c | c in p.conditions :: Met(fmt, c, req))
  {
    SubjectMatchIff(p, req);
    ConditionsHoldIff(fmt, p, req);
    hide Met, ConditionsHold, MatchesSubject;
  }

  lemma ConditionsHoldIff(fmt: Value -> string, p: Policy, req: Request)
    ensures ConditionsHold(fmt, p, req) <==> forall c | c in p.conditions :: Met(fmt, c, req)
  {
    hide Holds, Occurs, Resolve;
    forall c | c in p.conditions
      ensures Holds(fmt, c.operator, Resolve(c.attribute, req), c.value) <==> Met(fmt, c, req)
    {
      HoldsIff(fmt, c.operator, Resolve(c.attribute, req), c.value);
    }
    assert forall i | 0 <= i < |p.conditions| :: p.conditions[i] in p.conditions;
  }

  /** A policy about everyone and everything, under one condition on an attribute its subject has. */
  lemma SubjectConditionIff(fmt: Value -> string, p: Policy, req: Request,
                            name: string, operator: string, expected: Value)
    requires p.users == [] && p.roles == [] && p.groups == [] && p.types == [] && p.actions == ["*"]
    requires p.conditions == [Condition("subject." + name, operator, expected)]
    requires req.subject.Some? && name in req.subject.value
    ensures var actual := req.subject.value[name];
            && (operator == "eq" ==> (Applies(fmt, p, req) <==> fmt(actual) == fmt(expected)))
            && (operator == "neq" ==> (Applies(fmt, p, req) <==> fmt(actual) != fmt(expected)))
            && (operator == "in" ==>
                  (Applies(fmt, p, req) <==> expected.List? && exists x | x in expected.items :: fmt(x) == fmt(actual)))
            && (operator == "contains" ==>
                  (Applies(fmt, p, req) <==> exists before, after :: fmt(actual) == before + fmt(expected) + after))
  {
    hide Resolve, Holds, MatchesSubject, Applies;
    AppliesIff(fmt, p, req);
    AttributeNames(name, req, None);
    assert p.conditions[0] in p.conditions && p.actions[0] in p.actions;
  }

  /** A policy applies iff it does with each of its conditions alone. */
  lemma ConditionsConjoin(fmt: Value -> string, p: Policy, req: Request)
    requires p.conditions != []
    ensures Applies(fmt, p, req) <==> forall c | c in p.conditions :: Applies(fmt, p.(conditions := [c]), req)
  {
    hide Met, Applies;
    AppliesIff(fmt, p, req);
    AppliesIff(fmt, p.(conditions := []), req);
    forall c | c in p.conditions
      ensures Applies(fmt, p.(conditions := [c]), req) <==> Applies(fmt, p.(conditions := []), req) && Met(fmt, c, req)
    {
      AppliesIff(fmt, p.(conditions := [c]), req);
      assert [c][0] in [c];
    }
    assert p.conditions[0] in p.conditions;
  }

  /** A policy one of whose conditions uses an operator the engine does not know never applies. */
  lemma UnknownOperatorNeverApplies(fmt: Value -> string, p: Policy, req: Request, i: nat)
    requires i < |p.conditions| && p.conditions[i].operator !in {"eq", "neq", "in", "contains"}
    ensures !Applies(fmt, p, req)
  {
    assert !Holds(fmt, p.conditions[i].operator, Resolve(p.conditions[i].attribute, req), p.conditions[i].value);
  }

  /** Any effect but "permit" denies. */
  predicate Permits(p: Policy) {
    p.effect == "permit"
  }

  // ----- What a decision means -----

  ghost predicate SomePolicy(ps: seq<Policy>, fmt: Value -> string, req: Request, permit: bool) {
    exists p | p in ps :: Applies(fmt, p, req) && Permits(p) == permit
  }

  /** The user id reads as one, and the action itself is among the user's effective permissions. */
  ghost predicate RbacAllows(t: Rbac.Tables, parse: string -> Option<int>, tenant: int, req: Request, now: int) {
    && ':' in req.action
    && parse(req.userId).Some?
    && Rbac.Effective(t, parse(req.userId).value, tenant, now, req.action)
  }

  /** Deny overrides permit; role-based permissions decide only if no policy does. */
  ghost predicate Allowed(ps: seq<Policy>, fmt: Value -> string, t: Rbac.Tables, parse: string -> Option<int>,
                          tenant: int, req: Request, now: int) {
    && !SomePolicy(ps, fmt, req, false)
    && (SomePolicy(ps, fmt, req, true) || RbacAllows(t, parse, tenant, req, now))
  }

  /** The ids of the applying policies of one effect, in order. */
  function Winners(ps: seq<Policy>, fmt: Value -> string, req: Request, permit: bool): seq<int> {
    if ps == [] then []
    else
      var last := ps[|ps| - 1];
      Winners(ps[..|ps| - 1], fmt, req, permit)
      + if Applies(fmt, last, req) && Permits(last) == permit then [last.id] else []
  }

  lemma {:induction false} WinnersExist(ps: seq<Policy>, fmt: Value -> string, req: Request, permit: bool)
    ensures Winners(ps, fmt, req, permit) != [] <==> SomePolicy(ps, fmt, req, permit)
  {
    if ps != [] {
      var n := |ps| - 1;
      WinnersExist(ps[..n], fmt, req, permit);
      assert forall p :: p in ps <==> p in ps[..n] || p == ps[n];
    }
  }

  /** The listed ids are exactly those of the applying policies of that effect. */
  lemma {:induction false} WinnersAreMatching(ps: seq<Policy>, fmt: Value -> string, req: Request, permit: bool,
                                              id: int)
    ensures id in Winners(ps, fmt, req, permit)
            <==> exists p | p in ps :: p.id == id && Applies(fmt, p, req) && Permits(p) == permit
  {
    if ps != [] {
      var n := |ps| - 1;
      WinnersAreMatching(ps[..n], fmt, req, permit, id);
      assert forall p :: p in ps <==> p in ps[..n] || p == ps[n];
    }
  }

  // ----- Order independence -----

  lemma {:induction false} WinnersJoin(a: seq<Policy>, b: seq<Policy>, fmt: Value -> string, req: Request, permit: bool)
    ensures Winners(a + b, fmt, req, permit) == Winners(a, fmt, req, permit) + Winners(b, fmt, req, permit)
    decreases |b|
  {
    if b == [] {
      assert a + b == a;
    } else {
      var n := |b| - 1;
      assert (a + b)[..|a + b| - 1] == a + b[..n];
      WinnersJoin(a, b[..n], fmt, req, permit);
    }
  }

  lemma TakingOut<T>(s: seq<T>, i: nat)
    requires i < |s|
    ensures multiset(s[..i] + s[i + 1..]) == multiset(s) - multiset{s[i]}
    ensures multiset(s) == multiset(s[..i] + s[i + 1..]) + multiset{s[i]}
    ensures forall x | x in s[..i] + s[i + 1..] :: x in s
  {
    assert s == s[..i] + [s[i]] + s[i + 1..];
  }

  lemma WinnersTakingOut(ps: seq<Policy>, i: nat, rest: seq<Policy>, fmt: Value -> string, req: Request, permit: bool)
    requires i < |ps| && rest == ps[..i] + ps[i + 1..]
    ensures multiset(Winners(ps, fmt, req, permit))
            == multiset(Winners(rest, fmt, req, permit)) + multiset(Winners([ps[i]], fmt, req, permit))
  {
    assert ps == ps[..i] + [ps[i]] + ps[i + 1..];
    WinnersJoin(ps[..i] + [ps[i]], ps[i + 1..], fmt, req, permit);
    WinnersJoin(ps[..i], [ps[i]], fmt, req, permit);
    WinnersJoin(ps[..i], ps[i + 1..], fmt, req, permit);
  }

  lemma {:induction false} WinnersOfPermutation(a: seq<Policy>, b: seq<Policy>, fmt: Value -> string, req: Request,
                                                permit: bool)
    requires multiset(a) == multiset(b)
    ensures multiset(Winners(a, fmt, req, permit)) == multiset(Winners(b, fmt, req, permit))
    decreases |a|
  {
    if a == [] {
      assert |multiset(b)| == 0;
    } else {
      var i := HeadIn(a, b);
      var others := b[..i] + b[i + 1..];
      WinnersOfPermutation(a[1..], others, fmt, req, permit);
      WinnersTakingOut(a, 0, a[1..], fmt, req, permit);
      WinnersTakingOut(b, i, others, fmt, req, permit);
    }
  }

  lemma TakingHead<T>(s: seq<T>)
    requires s != []
    ensures multiset(s) == multiset(s[1..]) + multiset{s[0]}
  {
    assert s == [s[0]] + s[1..];
  }

  lemma HeadIn<T>(a: seq<T>, b: seq<T>) returns (i: nat)
    requires a != [] && multiset(a) == multiset(b)
    ensures i < |b| && b[i] == a[0] && multiset(a[1..]) == multiset(b[..i] + b[i + 1..])
  {
    assert a[0] in multiset(b);
    i :| 0 <= i < |b| && b[i] == a[0];
    TakingOut(b, i);
    TakingHead(a);
  }

  lemma SameMembers<T>(a: seq<T>, b: seq<T>)
    requires multiset(a) == multiset(b)
    ensures forall x :: x in a <==> x in b
  {
    forall x ensures x in a <==> x in b {
      assert x in a <==> x in multiset(a);
      assert x in b <==> x in multiset(b);
    }
  }

  /** What the loop and the branches after it produce from policies in the order they were loaded. */
  ghost function Decide(ps: seq<Policy>, fmt: Value -> string, rbac: bool, req: Request): Decision {
    var denies, permits := Winners(ps, fmt, req, false), Winners(ps, fmt, req, true);
    if denies != [] then Decision(false, "deny", "explicit deny policy matched", denies)
    else if permits != [] then Decision(true, "permit", "permit policy matched", permits)
    else if rbac then Decision(true, "permit", "RBAC: role-based permission", [])
    else Decision(false, "deny", "implicit deny: no matching policy", [])
  }

  /** However the store orders the policies, decision and reason are the same and the same ids are listed. */
  lemma OrderDoesNotMatter(a: seq<Policy>, b: seq<Policy>, fmt: Value -> string, rbac: bool, req: Request)
    requires multiset(a) == multiset(b)
    ensures var x, y := Decide(a, fmt, rbac, req), Decide(b, fmt, rbac, req);
            && x.allowed == y.allowed && x.decision == y.decision && x.reason == y.reason
            && multiset(x.matched) == multiset(y.matched)
  {
    SameMembers(a, b);
    forall permit: bool
      ensures multiset(Winners(a, fmt, req, permit)) == multiset(Winners(b, fmt, req, permit))
      ensures Winners(a, fmt, req, permit) == [] <==> Winners(b, fmt, req, permit) == []
    {
      WinnersOfPermutation(a, b, fmt, req, permit);
      WinnersExist(a, fmt, req, permit);
      WinnersExist(b, fmt, req, permit);
    }
  }

  /** What a decision says about the policies it was made on, in whatever order they were seen. */
  ghost predicate IsDecision(d: Decision, ps: seq<Policy>, fmt: Value -> string, rbac: bool, req: Request) {
    && (d.allowed <==> !SomePolicy(ps, fmt, req, false) && (SomePolicy(ps, fmt, req, true) || rbac))
    && d.decision == (if d.allowed then "permit" else "deny")
    && (SomePolicy(ps, fmt, req, false) ==>
          && d.reason == "explicit deny policy matched"
          && multiset(d.matched) == multiset(Winners(ps, fmt, req, false)))
    && (!SomePolicy(ps, fmt, req, false) && SomePolicy(ps, fmt, req, true) ==>
          && d.reason == "permit policy matched"
          && multiset(d.matched) == multiset(Winners(ps, fmt, req, true)))
    && (!SomePolicy(ps, fmt, req, false) && !SomePolicy(ps, fmt, req, true) ==>
          && d.reason == (if rbac then "RBAC: role-based permission" else "implicit deny: no matching policy")
          && d.matched == [])
  }

  /** The decision on the policies as loaded means what it should on the policies as stored. */
  lemma DecideMeans(loaded: seq<Policy>, stored: seq<Policy>, fmt: Value -> string, rbac: bool, req: Request)
    requires multiset(loaded) == multiset(stored)
    ensures IsDecision(Decide(loaded, fmt, rbac, req), stored, fmt, rbac, req)
  {
    OrderDoesNotMatter(loaded, stored, fmt, rbac, req);
    WinnersExist(stored, fmt, req, true);
    WinnersExist(stored, fmt, req, false);
  }

  // ----- The store -----

  /** The rows a tenant's evaluations load: its active policies. */
  function Load(rows: seq<Policy>, tenant: int): seq<Policy> {
    if rows == [] then []
    else
      var last := rows[|rows| - 1];
      Load(rows[..|rows| - 1], tenant) + if last.tenant == tenant && last.active then [last] else []
  }

  function Created(rows: seq<Policy>, tenant: int, id: int, body: Policy): seq<Policy> {
    rows + [body.(id := id, tenant := tenant, active := true)]
  }

  /** An update without the flag activates. */
  function UpdatedRow(p: Policy, tenant: int, id: int, body: Policy, active: Option<bool>): Policy {
    if p.id == id && p.tenant == tenant then
      body.(id := id, tenant := tenant, active := if active.Some? then active.value else true)
    else p
  }

  function Updated(rows: seq<Policy>, tenant: int, id: int, body: Policy, active: Option<bool>): seq<Policy> {
    if rows == [] then []
    else
      var last := rows[|rows| - 1];
      Updated(rows[..|rows| - 1], tenant, id, body, active) + [UpdatedRow(last, tenant, id, body, active)]
  }

  function Deleted(rows: seq<Policy>, tenant: int, id: int): seq<Policy> {
    if rows == [] then []
    else
      var last := rows[|rows| - 1];
      Deleted(rows[..|rows| - 1], tenant, id) + if last.id == id && last.tenant == tenant then [] else [last]
  }

  lemma LoadJoins(rows: seq<Policy>, p: Policy, tenant: int)
    ensures Load(rows + [p], tenant) == Load(rows, tenant) + if p.tenant == tenant && p.active then [p] else []
  {
    assert (rows + [p])[..|rows|] == rows;
  }

  /** Deactivating a policy, whatever else the update says, loads as deleting it: every decision is the same. */
  lemma {:induction false} DeactivatingIsDeleting(rows: seq<Policy>, tenant: int, id: int, body: Policy, of: int)
    ensures Load(Updated(rows, tenant, id, body, Some(false)), of) == Load(Deleted(rows, tenant, id), of)
  {
    if rows != [] {
      var n := |rows| - 1;
      DeactivatingIsDeleting(rows[..n], tenant, id, body, of);
      LoadJoins(Updated(rows[..n], tenant, id, body, Some(false)),
                UpdatedRow(rows[n], tenant, id, body, Some(false)), of);
      LoadJoins(Deleted(rows[..n], tenant, id), rows[n], of);
      assert Deleted(rows[..n], tenant, id) + [] == Deleted(rows[..n], tenant, id);
    }
  }

  /** Nothing one tenant does to policies changes what another tenant loads. */
  lemma {:induction false} OtherTenantsUnaffected(rows: seq<Policy>, tenant: int, id: int, body: Policy,
                                                  active: Option<bool>, of: int)
    requires of != tenant
    ensures Load(Created(rows, tenant, id, body), of) == Load(rows, of)
    ensures Load(Updated(rows, tenant, id, body, active), of) == Load(rows, of)
    ensures Load(Deleted(rows, tenant, id), of) == Load(rows, of)
  {
    LoadJoins(rows, body.(id := id, tenant := tenant, active := true), of);
    if rows != [] {
      var n := |rows| - 1;
      OtherTenantsUnaffected(rows[..n], tenant, id, body, active, of);
      LoadJoins(Updated(rows[..n], tenant, id, body, active), UpdatedRow(rows[n], tenant, id, body, active), of);
      LoadJoins(Deleted(rows[..n], tenant, id), rows[n], of);
      assert Deleted(rows[..n], tenant, id) + [] == Deleted(rows[..n], tenant, id);
    }
  }

  lemma {:induction false} LoadMembers(rows: seq<Policy>, tenant: int, p: Policy)
    ensures p in Load(rows, tenant) <==> p in rows && p.tenant == tenant && p.active
  {
    if rows != [] {
      var n := |rows| - 1;
      LoadMembers(rows[..n], tenant, p);
      assert p in rows <==> p in rows[..n] || p == rows[n];
    }
  }

  /** What evaluations load after a creation: what they did, and the new policy in its own tenant. */
  lemma LoadedAfterCreate(rows: seq<Policy>, tenant: int, id: int, body: Policy, of: int)
    ensures multiset(Load(Created(rows, tenant, id, body), of))
            == multiset(Load(rows, of))
               + if of == tenant then multiset{body.(id := id, tenant := tenant, active := true)} else multiset{}
  {
    LoadJoins(rows, body.(id := id, tenant := tenant, active := true), of);
  }

  /** How often a policy is among those a tenant's evaluations load. */
  function TimesLoaded(rows: seq<Policy>, of: int, p: Policy): nat {
    multiset(Load(rows, of))[p]
  }

  lemma LoadNone(of: int, p: Policy)
    ensures TimesLoaded([], of, p) == 0
  {
  }

  lemma LoadCount(rows: seq<Policy>, last: Policy, of: int, p: Policy)
    ensures TimesLoaded(rows + [last], of, p)
            == TimesLoaded(rows, of, p) + if last.tenant == of && last.active && last == p then 1 else 0
  {
    LoadJoins(rows, last, of);
  }

  /** After a deletion every policy is loaded as often as before, the tenant's own of that id not at all. */
  lemma {:induction false} LoadedAfterDelete(rows: seq<Policy>, tenant: int, id: int, of: int, p: Policy)
    ensures TimesLoaded(Deleted(rows, tenant, id), of, p)
            == if p.id == id && p.tenant == tenant then 0 else TimesLoaded(rows, of, p)
  {
    hide TimesLoaded;
    if rows == [] {
      LoadNone(of, p);
    } else {
      var n := |rows| - 1;
      LoadedAfterDelete(rows[..n], tenant, id, of, p);
      LoadCount(Deleted(rows[..n], tenant, id), rows[n], of, p);
      LoadCount(rows[..n], rows[n], of, p);
      assert rows == rows[..n] + [rows[n]];
      assert Deleted(rows[..n], tenant, id) + [] == Deleted(rows[..n], tenant, id);
    }
  }

  /** After an update every policy but the tenant's own of that id is loaded as before. */
  lemma {:induction false} OthersAfterUpdate(rows: seq<Policy>, tenant: int, id: int, body: Policy,
                                             active: Option<bool>, of: int, p: Policy)
    requires !(p.id == id && p.tenant == tenant)
    ensures TimesLoaded(Updated(rows, tenant, id, body, active), of, p) == TimesLoaded(rows, of, p)
  {
    hide TimesLoaded;
    if rows != [] {
      var n := |rows| - 1;
      OthersAfterUpdate(rows[..n], tenant, id, body, active, of, p);
      LoadCount(Updated(rows[..n], tenant, id, body, active), UpdatedRow(rows[n], tenant, id, body, active), of, p);
      LoadCount(rows[..n], rows[n], of, p);
      assert rows == rows[..n] + [rows[n]];
    }
  }

  lemma {:induction false} UpdatedMembers(rows: seq<Policy>, tenant: int, id: int, body: Policy,
                                          active: Option<bool>, p: Policy)
    ensures p in Updated(rows, tenant, id, body, active) <==>
              exists q | q in rows :: p == UpdatedRow(q, tenant, id, body, active)
  {
    if rows != [] {
      var n := |rows| - 1;
      UpdatedMembers(rows[..n], tenant, id, body, active, p);
      assert forall q :: q in rows <==> q in rows[..n] || q == rows[n];
    }
  }

  /** That one is loaded with the new body iff it exists and the flag is absent or set; an absent flag activates. */
  lemma OwnAfterUpdate(rows: seq<Policy>, tenant: int, id: int, body: Policy, active: Option<bool>, of: int, p: Policy)
    requires p.id == id && p.tenant == tenant
    ensures p in Load(Updated(rows, tenant, id, body, active), of) <==>
              && of == tenant && active != Some(false)
              && p == body.(id := id, tenant := tenant, active := true)
              && exists q | q in rows :: q.id == id && q.tenant == tenant
  {
    LoadMembers(Updated(rows, tenant, id, body, active), of, p);
    UpdatedMembers(rows, tenant, id, body, active, p);
  }

  /** The decision in terms of the stored rows: an active applying row of the tenant, or the fallback. */
  lemma StoredDecision(rows: seq<Policy>, fmt: Value -> string, t: Rbac.Tables, parse: string -> Option<int>,
                       tenant: int, req: Request, now: int)
    ensures Allowed(Load(rows, tenant), fmt, t, parse, tenant, req, now) <==>
              && (forall p | p in rows ::
                    p.tenant == tenant && p.active && Applies(fmt, p, req) ==> p.effect == "permit")
              && ((exists p | p in rows :: p.tenant == tenant && p.active && Applies(fmt, p, req))
                  || (':' in req.action && parse(req.userId).Some?
                      && Rbac.Effective(t, parse(req.userId).value, tenant, now, req.action)))
  {
    forall p ensures p in Load(rows, tenant) <==> p in rows && p.tenant == tenant && p.active {
      LoadMembers(rows, tenant, p);
    }
  }

  /** Adding a deny policy never enlarges what is allowed; adding a permit policy never shrinks it. */
  lemma AddingIsMonotone(rows: seq<Policy>, creator: int, id: int, body: Policy, fmt: Value -> string,
                         t: Rbac.Tables, parse: string -> Option<int>, tenant: int, req: Request, now: int)
    ensures var before := Allowed(Load(rows, tenant), fmt, t, parse, tenant, req, now);
            var after := Allowed(Load(Created(rows, creator, id, body), tenant), fmt, t, parse, tenant, req, now);
            && (!Permits(body) && after ==> before)
            && (Permits(body) && before ==> after)
  {
    var p := body.(id := id, tenant := creator, active := true);
    LoadJoins(rows, p, tenant);
    var earlier, enlarged := Load(rows, tenant), Load(Created(rows, creator, id, body), tenant);
    assert forall q | q in earlier :: q in enlarged;
    assert forall q | q in enlarged :: q in earlier || q == p;
  }

  // ----- Over time -----

  /** With rows and request fixed a permitted request was permitted at every earlier moment. */
  lemma DecisionOnlyFalls(ps: seq<Policy>, fmt: Value -> string, t: Rbac.Tables, parse: string -> Option<int>,
                          tenant: int, req: Request, now: int, later: int)
    requires now <= later && Allowed(ps, fmt, t, parse, tenant, req, later)
    ensures Allowed(ps, fmt, t, parse, tenant, req, now)
  {
    if RbacAllows(t, parse, tenant, req, later) {
      Rbac.EffectiveShrinks(t, parse(req.userId).value, tenant, now, later, req.action);
    }
  }

  /** Over any moments in order the decision flips at most once, from permit to deny. */
  lemma {:induction false} DecisionFlipsOnce(ps: seq<Policy>, fmt: Value -> string, t: Rbac.Tables,
                                             parse: string -> Option<int>,
                                             tenant: int, req: Request, times: seq<int>) returns (flip: nat)
    requires forall i, j | 0 <= i < j < |times| :: times[i] <= times[j]
    ensures flip <= |times|
    ensures forall i | 0 <= i < |times| :: Allowed(ps, fmt, t, parse, tenant, req, times[i]) <==> i < flip
  {
    if times == [] {
      flip := 0;
    } else {
      var n := |times| - 1;
      flip := DecisionFlipsOnce(ps, fmt, t, parse, tenant, req, times[..n]);
      assert forall i | 0 <= i < n :: times[..n][i] == times[i];
      if Allowed(ps, fmt, t, parse, tenant, req, times[n]) {
        forall i | 0 <= i < n ensures Allowed(ps, fmt, t, parse, tenant, req, times[i]) {
          DecisionOnlyFalls(ps, fmt, t, parse, tenant, req, times[i], times[n]);
        }
        flip := n + 1;
      }
    }
  }

  // ----- The engine -----

  ghost predicate HighestFirst(ps: seq<Policy>) {
    forall i, j | 0 <= i < j < |ps| :: ps[i].priority >= ps[j].priority
  }

  lemma Sorted(ps: seq<Policy>, p: Policy)
    requires HighestFirst(ps) && forall q | q in ps :: q.priority >= p.priority
    ensures HighestFirst(ps + [p])
  {
  }

  lemma {:induction false} HighestExists(ps: seq<Policy>) returns (k: nat)
    requires ps != []
    ensures k < |ps| && forall q | q in ps :: ps[k].priority >= q.priority
  {
    var n := |ps| - 1;
    if n == 0 {
      k := 0;
    } else {
      k := HighestExists(ps[..n]);
      assert forall q | q in ps :: q in ps[..n] || q == ps[n];
      if ps[n].priority > ps[k].priority {
        k := n;
      }
    }
  }

  method TakeHighest(found: seq<Policy>) returns (top: Policy, rest: seq<Policy>)
    requires found != []
    ensures multiset(found) == multiset(rest) + multiset{top} && |rest| < |found|
    ensures top in found && forall q | q in found :: top.priority >= q.priority
    ensures forall q | q in rest :: q in found
  {
    ghost var highest := HighestExists(found);
    var k :| 0 <= k < |found| && forall q | q in found :: found[k].priority >= q.priority;
    TakingOut(found, k);
    top, rest := found[k], found[..k] + found[k + 1..];
  }

  /** ORDER BY priority DESC; policies of one priority come in any order. */
  method OrderByPriority(all: seq<Policy>) returns (sorted: seq<Policy>)
    ensures multiset(sorted) == multiset(all) && HighestFirst(sorted)
  {
    var found := all;
    sorted := [];
    while found != []
      invariant multiset(sorted) + multiset(found) == multiset(all)
      invariant HighestFirst(sorted)
      invariant forall p, q | p in sorted && q in found :: p.priority >= q.priority
      decreases |found|
    {
      var top, rest := TakeHighest(found);
      Sorted(sorted, top);
      sorted, found := sorted + [top], rest;
    }
  }

  method Collect(policies: seq<Policy>, fmt: Value -> string, req: Request)
    returns (permits: seq<int>, denies: seq<int>)
    ensures permits == Winners(policies, fmt, req, true) && denies == Winners(policies, fmt, req, false)
  {
    permits, denies := [], [];
    for i := 0 to |policies|
      invariant permits == Winners(policies[..i], fmt, req, true)
      invariant denies == Winners(policies[..i], fmt, req, false)
    {
      assert policies[..i + 1][..i] == policies[..i];
      var p := policies[i];
      if !MatchesSubject(p, req) { continue; }
      if !MatchesAction(p, req) { continue; }
      if !MatchesResource(p, req) { continue; }
      if !ConditionsHold(fmt, p, req) { continue; }
      if p.effect == "permit" {
        permits := permits + [p.id];
      } else {
        denies := denies + [p.id];
      }
    }
    assert policies[..|policies|] == policies;
  }

  /** The ids collected from the loaded policies, in terms of the stored rows. */
  lemma CollectedIff(rows: seq<Policy>, tenant: int, loaded: seq<Policy>, fmt: Value -> string, req: Request)
    requires multiset(loaded) == multiset(Load(rows, tenant))
    ensures forall id, permit :: id in Winners(loaded, fmt, req, permit) <==>
              exists p | p in rows ::
                && p.id == id && p.tenant == tenant && p.active
                && Applies(fmt, p, req) && (p.effect == "permit") == permit
  {
    SameMembers(loaded, Load(rows, tenant));
    hide Winners, Applies, Load;
    forall id, permit
      ensures id in Winners(loaded, fmt, req, permit) <==>
                exists p | p in rows ::
                  && p.id == id && p.tenant == tenant && p.active
                  && Applies(fmt, p, req) && (p.effect == "permit") == permit
    {
      WinnersAreMatching(loaded, fmt, req, permit, id);
      forall p ensures p in loaded <==> p in rows && p.tenant == tenant && p.active {
        LoadMembers(rows, tenant, p);
      }
    }
  }

  class Engine {
    const fmt: Value -> string
    const parse: string -> Option<int>
    const rbac: Rbac.Service
    var rows: seq<Policy>

    constructor (fmt: Value -> string, parse: string -> Option<int>, rbac: Rbac.Service)
      ensures rows == [] && this.fmt == fmt && this.parse == parse && this.rbac == rbac
    {
      this.fmt, this.parse, this.rbac := fmt, parse, rbac;
      rows := [];
    }

    method CreatePolicy(tenant: int, id: int, body: Policy)
      requires forall p | p in rows :: p.id != id
      modifies this
      ensures rows == Created(old(rows), tenant, id, body)
    {
      var p := body.(id := id, tenant := tenant, active := true);
      rows := rows + [p];
    }

    method UpdatePolicy(tenant: int, id: int, body: Policy, active: Option<bool>)
      modifies this
      ensures rows == Updated(old(rows), tenant, id, body, active)
    {
      var flag := true;
      if active.Some? {
        flag := active.value;
      }
      var updated := [];
      for i := 0 to |rows|
        invariant rows == old(rows)
        invariant updated == Updated(rows[..i], tenant, id, body, active)
      {
        assert rows[..i + 1][..i] == rows[..i];
        var p := rows[i];
        if p.id == id && p.tenant == tenant {
          p := body.(id := id, tenant := tenant, active := flag);
        }
        updated := updated + [p];
      }
      assert rows[..|rows|] == rows;
      rows := updated;
    }

    method DeletePolicy(tenant: int, id: int)
      modifies this
      ensures rows == Deleted(old(rows), tenant, id)
    {
      var kept := [];
      for i := 0 to |rows|
        invariant rows == old(rows)
        invariant kept == Deleted(rows[..i], tenant, id)
      {
        assert rows[..i + 1][..i] == rows[..i];
        if !(rows[i].id == id && rows[i].tenant == tenant) {
          kept := kept + [rows[i]];
        }
      }
      assert rows[..|rows|] == rows;
      rows := kept;
    }

    /** WHERE tenant AND active ORDER BY priority DESC. */
    method LoadPolicies(tenant: int) returns (loaded: seq<Policy>)
      ensures multiset(loaded) == multiset(Load(rows, tenant))
      ensures HighestFirst(loaded)
    {
      loaded := OrderByPriority(Load(rows, tenant));
    }

    /**
     Collect the applying policies by effect; deny first, then permit, then the
     fallback. The source also asks for the permission first and drops the answer.
     */
    method Evaluate(tenant: int, req: Request, now: int) returns (d: Decision)
      ensures IsDecision(d, Load(rows, tenant), fmt, RbacAllows(rbac.Model(), parse, tenant, req, now), req)
      ensures d.allowed <==> Allowed(Load(rows, tenant), fmt, rbac.Model(), parse, tenant, req, now)
      ensures forall id :: id in d.matched <==>
                exists p | p in rows ::
                  && p.id == id && p.tenant == tenant && p.active
                  && Applies(fmt, p, req) && (p.effect == "permit") == d.allowed
    {
      var policies := LoadPolicies(tenant);
      var permits, denies := Collect(policies, fmt, req);
      CollectedIff(rows, tenant, policies, fmt, req);
      DecideMeans(policies, Load(rows, tenant), fmt, RbacAllows(rbac.Model(), parse, tenant, req, now), req);
      if |denies| > 0 {
        return Decision(false, "deny", "explicit deny policy matched", denies);
      }
      if |permits| > 0 {
        return Decision(true, "permit", "permit policy matched", permits);
      }
      var permitted := RbacPermits(tenant, req, now);
      if permitted {
        return Decision(true, "permit", "RBAC: role-based permission", []);
      }
      d := Decision(false, "deny", "implicit deny: no matching policy", []);
    }

    /** The fallback: split the action at its first ':', ask for the pair. */
    method RbacPermits(tenant: int, req: Request, now: int) returns (permitted: bool)
      ensures permitted <==> ':' in req.action && parse(req.userId).Some?
                             && Rbac.Effective(rbac.Model(), parse(req.userId).value, tenant, now, req.action)
    {
      SplitJoins(req.action, ':');
      var parts := Split(req.action, ':');
      permitted := false;
      if parts.Some? && parse(req.userId).Some? {
        permitted := rbac.HasPermission(parse(req.userId).value, tenant, now, parts.value.0, parts.value.1);
      }
    }
  }
}
