# Verified model of the IAM platform's backend protocols

A Dafny model of the stateful cores of the backend, with proofs of what they guarantee over whole
runs and under arbitrary interleavings. `dafny verify dfyconfig.toml` checks all of it.

Tables and keys are fields of classes; time is a parameter; a call that takes several statements is a
record that moves through phases, so that any number of calls can be in flight. The components whose calls
overlap (`BruteForce`, `Jit`, `Mfa`, `OAuth`), and `Delegation`, have a total function `Next` from states and
events to states; the methods of their classes, written as the source's statements, are proved to do exactly
one step of `Next`, and the theorems are about every sequence of steps. In the others (`RateLimit`,
`Directory`, `AuditLog`, `Rbac`, `Policy`, `Totp`) the methods are proved against functions and relations of
the stored rows or of the history, and the theorems are about those.

| files | what they model |
|---|---|
| `CheckThenAct.dfy` | the guard "read a counter, compare, raise it later", once and for all |
| `BruteForce.dfy`, `Jit.dfy`, `Mfa.dfy`, `OAuth.dfy` | its four users: failure counter, approval of access requests, MFA challenge, authorization code |
| `Lifetimes.dfy`, `Delegation.dfy` (and `Jit.dfy`) | rights with a start, an expiry and one conditional revocation |
| `RateLimit.dfy` | the sliding-window limiter against the complete list of requests |
| `Sql.dfy`, `Keyset.dfy`, `Directory.dfy`, `AuditLog.dfy` | query builders and cursor pagination: tenants, users, audit events |
| `Rbac.dfy`, `Policy.dfy` | effective permissions and the deny-overrides engine |
| `Digits.dfy`, `Base32.dfy`, `Totp.dfy` | one-time codes |
| `Base.dfy` | options, set cardinalities, division |

## Results that differ from what is documented or intended

The model follows the code. Where a property its documentation, a standard or its own checks suggest does
not hold of every input, the exact condition under which it holds is proved; those entries are in bold. The
others are plain differences between what is documented and what is evaluated or stored.

- **A denial is not final.** Approving and denying both ask for a pending request, but the approving
  transaction updates the row whatever its status has become. A denied request stays denied in every
  continuation if and only if no approval of it was in flight (`Jit.DenialIsFinalIff`); `Jit.DenialOvertaken`
  is a run from the empty store that undoes one.
- **Single use holds only without overlap.** Grants per request, uses of an authorization code and
  successes of a challenge are each at most one in every run if and only if calls on the same row do not
  overlap. With at most k overlapping, k is the exact bound: it is never passed, and for every k a run of the
  component itself reaches it (`Jit.OverlappingApprovalsAllGrant`, `OAuth.OverlappingLookupsAllGetTokens`,
  `Mfa.OverlappingVerificationsAllSucceed`, the last with 5 + k - 1 attempts as well).
- **Tenant and user lists lose rows.** The next cursor is the first row not returned, and the next page
  starts after it: of every n + 1 rows one is never shown. The lists are complete exactly when everything
  fits one page (`Keyset.CompleteIffOnePage`; `docs/api-design.md:194-202` promises pagination of all results).
- **Audit pages lose ties.** The next cursor is the timestamp of the last event returned, and the next page
  takes strictly older ones. Two events of one timestamp and a page size of one lose the second
  (`AuditLog.TieIsLost`). A walk over a fixed log is complete if and only if, ranked newest first, the events
  of every timestamp lie in one block of the page size (`AuditLog.CompleteIffNoStraddle`).
- **The export is capped at 50 events, not 10000** (`backend/internal/audit/service.go:155`): the list
  replaces a limit above 200 (`AuditLog.Service.Export`).
- **The limiter counts milliseconds, not requests**, because the timestamp is the set member. "At most
  `limit` requests per window" holds in every history if and only if the limit is at most one. Limiters of
  different limits share one set; one that always runs behind another in the same millisecond counts the
  request's own mark, so that its limit is in effect one less (`RateLimit.BoundBehindAnother`;
  `backend/internal/http/router/router.go:51` and `:70`; `RateLimit.RequestsBoundedIff`).
- **A search with `%`, `_` or `\` in it is a pattern**, not the text searched for
  (`Sql.SearchIsContainsIffPlain`).
- The lockout comes after ten failures; `docs/security-model.md:25` says five, with exponential backoff.
- **Assigning a role can have no effect**: an expired row, or one in another tenant, for the same user and
  role keeps the new one out (the key is `backend/migrations/004_roles_permissions.up.sql:39`;
  `Rbac.AssignmentTakesEffectIff`). Renewing an expired assignment is such a case (`Rbac.ExpiredRowBlocks`).
- **Delegations that are never effective are accepted**: an expiry equal to the start, or before a start
  that was left to default (`Delegation.EffectiveSometimeIff`, and an example of it
  `Delegation.AcceptedNeverEffective`).
- In policies, groups, time constraints, resource conditions and role parents are not evaluated, and the
  operators `not_in`, `gt`, `gte`, `lt`, `lte`, `starts_with` and `regex` of
  `docs/authorization-model.md:78` make a policy never apply. Any effect other than "permit" denies. An
  update that does not mention the active flag activates.
- The engine asks for role-based permission twice; the first answer is dropped, so role-based permission
  never competes with a policy, it only decides when none applies.
- A denied request is stored as "denied", which `backend/migrations/010_jit_access.up.sql:11` does not list.
- **A code is not bound to its client.** The token endpoint does not compare the client that presents a code
  with the client it was issued to, as section 4.1.3 of RFC 6749 asks (`OAuth.OtherClientGetsTokens`). An
  exchange is never answered with another client's tokens if and only if the client is the code's own, or
  the redirect or the verifier does not match (`OAuth.OwnClientIff`).
- **A secret that is not base32, such as "$", has the empty text as its code**, at every moment. The provider
  accepts the empty code if and only if the secret is not base32, and only six-digit codes are ever accepted
  if and only if it is (`Totp.EmptyAcceptedIff`, `Totp.OnlySixDigitsIff`, `Totp.DollarIsNoSecret`). The
  handler in front of it refuses an empty code (`backend/internal/mfa/handler.go:127`), so what a client sees
  is that no code it can send is ever accepted for such a secret (`Totp.NoOtherAccepted`).

## Conventions

Times are integers, in milliseconds unless a file says otherwise. Identifiers are integers compared as
the store compares them; where the source draws a random identifier the model uses a fresh one, or the
position of the row. A stored key is live strictly before its deadline, and lifetimes are sent in whole
seconds. A step in a run may be an event that does nothing (a refused call, an unknown call id), so runs
include every rejected request.

## Model

Theorems come first, then the operations they are about, then constructors, one-statement operations and
worked examples.

| member | source | states |
|---|---|---|
| CheckThenAct.ReservedUnits | backend/internal/http/middleware/brute_force.go:30-52 | In every run of a checked counter with at most k calls between check and act, the count plus the calls still in flight stays at or below limit + k - 1, clears and expiries included. |
| CheckThenAct.Overshoot | backend/internal/http/middleware/brute_force.go:30-52 | In no interleaving with at most k overlapping calls does the counter pass limit + k - 1. |
| CheckThenAct.OvershootIsReached | backend/internal/http/middleware/brute_force.go:30-52 | The bound is exact: for every limit and k some run reaches it. |
| CheckThenAct.LimitKeptIffAlone | backend/internal/http/middleware/brute_force.go:30-52 | The limit itself is kept in all runs if and only if calls never overlap. |
| RateLimit.PrunedIsWindow | backend/internal/http/middleware/rate_limit.go:28-35 | Neither pruning nor the expiry of the key ever drops a request still in (now - window, now], and nothing older survives. |
| RateLimit.AdmitsIff | backend/internal/http/middleware/rate_limit.go:32-53 | A request passes if fewer than `limit` requests are still in its window, rejected ones included; and only then, if no two of these share a millisecond. |
| RateLimit.WindowBound | backend/internal/http/middleware/rate_limit.go:25-60 | In every history with a forward clock, requests let through in any window fall in at most `limit` distinct milliseconds. |
| RateLimit.BoundBehindAnother | backend/internal/http/middleware/rate_limit.go:25-60 | If every request a limiter lets through follows another limiter's mark of its millisecond, those let through in any window fall in at most limit - 1 milliseconds. |
| RateLimit.RequestBound | backend/internal/http/middleware/rate_limit.go:25-60 | If no two of the requests one limit lets through in a window share a millisecond, they are at most that many, whatever rejected requests and other limiters share. |
| RateLimit.BurstAdmitted | backend/internal/http/middleware/rate_limit.go:34 | For every limit of two or more, a burst of limit + 1 requests in one millisecond passes whole. |
| RateLimit.RequestsBoundedIff | backend/internal/http/middleware/rate_limit.go:32-53 | Counted in requests, the limit holds in every history if and only if it is at most one. |
| RateLimit.SilenceAdmits | backend/internal/http/middleware/rate_limit.go:28-56 | After a full window of silence the next request passes if and only if its limit is positive. |
| BruteForce.ChainIsLongest | backend/internal/http/middleware/brute_force.go:46-52 | The recursive chain length is the length of the longest suffix of failures whose gaps, and the gap to now, are below the window. |
| BruteForce.CounterIsLongestChain | backend/internal/http/middleware/brute_force.go:29-60 | In every interleaving, at every time, the counter is the length of that longest suffix since the last clear. |
| BruteForce.CounterBound | backend/internal/http/middleware/brute_force.go:30-52 | With at most k requests between read and raise the counter never passes 10 + k - 1; never 10 if none overlap. |
| BruteForce.OverlapReachesBound | backend/internal/http/middleware/brute_force.go:30-52 | From nine failures, k requests that all arrive before any is answered bring the counter to 10 + k - 1. |
| BruteForce.BlockLastsOneWindow | backend/internal/http/middleware/brute_force.go:29-52 | Whatever arrives, or is answered other than 401, a block ends exactly one window after the last failure, and nobody is let in before. |
| Jit.NextKeepsConsistent | backend/internal/jit/service.go:56-218 | One step of any operation, from any state and in any phase of any number of approvals, keeps grants, pending approvals and requests in agreement. |
| Jit.EveryGrantIsApproved | backend/internal/jit/service.go:132-186 | In every interleaving a grant's request is approved and has the same tenant, requester and role; its term is the requested one, between 1 and 480 minutes. |
| Jit.StatusTellsGrants | backend/internal/jit/service.go:132-202 | A request is approved if and only if it has a grant, and then expires with the last one committed; a denied request has none. |
| Jit.ApprovedIsNeverLeft | backend/internal/jit/service.go:132-218 | Once approved, a request stays approved in every continuation. |
| Jit.ApprovalOrigin | backend/internal/jit/service.go:133-145 | An approval in flight goes back to one reading of its request, then pending, by that approver. |
| Jit.GrantOrigin | backend/internal/jit/service.go:132-217 | Every grant starts when its approver read the request, pending, in the grant's tenant, and was committed by the same call; it is unrevoked if and only if its tenant never asked to revoke it since. |
| Jit.RequestOrigin | backend/internal/jit/service.go:56-87 | Every request keeps the tenant, requester, role and duration of a creation that gave 1 to 480 minutes and a justification. |
| Jit.CreationIff | backend/internal/jit/service.go:57-62 | A request is accepted if and only if it asks for 1 to 480 minutes and gives a justification. |
| Jit.DenialOrigin | backend/internal/jit/service.go:189-202 | A denied request was denied by its own tenant at a moment when it was pending. |
| Jit.GrantBound | backend/internal/jit/service.go:132-186 | At most k grants per request when at most k approvals of it overlap. |
| Jit.OneGrantPerApproval | backend/internal/jit/service.go:132-186 | Without overlap, exactly one grant per approved request and none otherwise. |
| Jit.OverlappingApprovalsAllGrant | backend/internal/jit/service.go:133-186 | For every k, k approvals that all read the request as pending leave it with k grants. |
| Jit.OneGrantIffNoOverlap | backend/internal/jit/service.go:132-186 | At most one grant per request in every run if and only if approvals of a request never overlap. |
| Jit.DenialIsFinalIff | backend/internal/jit/service.go:153-202 | A denied request stays denied in every continuation if and only if no approval of it is in flight. |
| Jit.DenialOvertaken | backend/internal/jit/service.go:133-202 | From the empty store: created, read by an approver, denied, and approved all the same by that approver's commit. |
| Jit.GrantHasOneInterval | backend/internal/jit/service.go:205-229 | The times at which a grant is in force form one interval; neither expiry nor revocation is ever undone. |
| Jit.EffectiveIff | backend/internal/jit/service.go:133-229 | A grant is in force exactly from the reading of its request, for the minutes asked for, unless its own tenant asked to revoke it since its commit. |
| Jit.OneRevocationSucceeds | backend/internal/jit/service.go:205-217 | After any attempt, by its tenant, to revoke an existing grant, exactly one revocation in the whole run has succeeded. |
| Jit.RevocationOrigin | backend/internal/jit/service.go:204-217 | The revocation time a grant records is that of the one revocation that succeeded, by its own tenant. |
| Lifetimes.OneInterval | backend/internal/delegation/service.go:119-146 | A right whose bounds never change and whose revocation is final is effective on one interval of any run. |
| Lifetimes.ExactlyOneRevocation | backend/internal/delegation/service.go:119-132 | If revocations succeed exactly when they end an unrevoked right, exactly one ever does. |
| Delegation.DelegationHasOneInterval | backend/internal/delegation/service.go:119-146 | The times at which a delegation is effective form one interval, never resumed after revocation or expiry. |
| Delegation.EffectiveIff | backend/internal/delegation/service.go:37-144 | A delegation is effective exactly from its start, or its creation if none was given, up to but not at its expiry, unless its own tenant asked to revoke it before. |
| Delegation.OneRevocationSucceeds | backend/internal/delegation/service.go:119-132 | After any attempt, by its tenant, to revoke an existing delegation, exactly one revocation in the whole run has succeeded. |
| Delegation.RowOrigin | backend/internal/delegation/service.go:37-133 | A delegation keeps exactly what it was created with, a start not given being the moment of creation, and is active if and only if its tenant never asked to revoke it. |
| Delegation.CreationIff | backend/internal/delegation/service.go:38-43 | A delegation is accepted if and only if it grants some role and no expiry precedes a start that is given. |
| Delegation.RevocationOrigin | backend/internal/delegation/service.go:118-132 | A delegation is inactive only by a revocation that succeeded on it, and records who made it and when; an active one records nobody. |
| Delegation.EffectiveSometimeIff | backend/internal/delegation/service.go:37-46 | Whatever the table, a delegation accepted into it is effective at some moment if and only if its expiry, if any, is later than the start it really gets. |
| Delegation.AcceptedNeverEffective | backend/internal/delegation/service.go:41-46 | A delegation without a start, expiring before it is created, is accepted into any table and never effective. |
| Mfa.NextKeepsAccounted | backend/internal/mfa/service.go:125-169 | Every step keeps provider verifications within counted attempts, successes within provider verifications, and "used" equivalent to some success. |
| Mfa.AttemptsAndSuccessesBounded | backend/internal/mfa/service.go:125-169 | With at most k verifications in flight, attempts and provider verifications stay at or below 5 + k - 1 and successes at or below k, in every interleaving. |
| Mfa.OverlappingVerificationsAllSucceed | backend/internal/mfa/service.go:134-166 | For every k a run with k overlapping verifications reaches 5 + k - 1 attempts, as many provider verifications, and k successes. |
| Mfa.SingleSuccessIffNoOverlap | backend/internal/mfa/service.go:125-169 | A challenge succeeds at most once in every run if and only if verifications of it never overlap. |
| Mfa.InFlightBegan | backend/internal/mfa/service.go:134-150 | Whatever is in flight was begun by the challenge's user, before the expiry, before any success and with fewer than five attempts counted. |
| Mfa.AdmitIff | backend/internal/mfa/service.go:134-150 | In every run: no challenge is found by another user, after a success or after five minutes; otherwise too many attempts are reported from the fifth counted one on; otherwise the verification goes on. |
| Mfa.MatchedOrigin | backend/internal/mfa/service.go:152-164 | A verification about to be settled was counted first and then matched by the provider. |
| Mfa.SuccessStartedInTime | backend/internal/mfa/service.go:134-166 | Every success was begun before the expiry and before any success, then counted, then matched by the provider: nothing that starts later or does not match ever succeeds. |
| OAuth.NextKeepsSound | backend/internal/oauth/handler.go:157-243 | Every step keeps exchanges in agreement with stored codes, tokens in agreement with codes and checks, and "used" equivalent to some consumption, with no more tokens than consumptions. |
| OAuth.CodeUseBound | backend/internal/oauth/authcode.go:62-91 | With at most k consumptions of a code in flight it is consumed, and answered with tokens, at most k times; once if none overlap. |
| OAuth.OverlappingLookupsAllGetTokens | backend/internal/oauth/handler.go:188-242 | For every k, k exchanges that all look a code up before any marks it get k token responses from it. |
| OAuth.SingleUseIffNoOverlap | backend/internal/oauth/authcode.go:62-91 | Codes are single-use in every run, as section 4.1.2 of RFC 6749 asks, if and only if consumptions of a code never overlap. |
| OAuth.InFlightLookedUp | backend/internal/oauth/handler.go:163-192 | An exchange in flight passed the form and client checks, then found its code stored, unused and unexpired. |
| OAuth.PrecheckIff | backend/internal/oauth/handler.go:158-186 | An incomplete form is refused first, then an unknown client or a confidential one with a wrong secret; nothing else is before the code is looked up. |
| OAuth.AnswerIff | backend/internal/oauth/handler.go:194-242 | After consumption: a mismatch of redirect or verifier, then a missing user; tokens, carrying what was read, if and only if there is neither. |
| OAuth.IssuedBefore | backend/internal/oauth/authcode.go:48-55 | A stored code was issued, with everything it still carries, exactly five minutes before its expiry. |
| OAuth.UsableIff | backend/internal/oauth/authcode.go:67-77 | In every run a stored code is found exactly within five minutes of its issue and before any consumption. |
| OAuth.ExchangeOrigin | backend/internal/oauth/handler.go:158-192 | Whatever is in flight came with a complete form and an authenticated client. |
| OAuth.RowKept | backend/internal/oauth/authcode.go:62-91 | A stored code never changes except that it becomes used, for good. |
| OAuth.ConsumedInTime | backend/internal/oauth/authcode.go:62-91 | A consumption goes back to a lookup made before five minutes had passed since issue and before any consumption of the code. |
| OAuth.TokensFollowChecks | backend/internal/oauth/handler.go:188-242 | Every token response carries the scopes, user, tenant and nonce stored with its code, and its form passed the redirect and verifier checks (section 4.1.3 of RFC 6749, section 4.6 of RFC 7636). |
| OAuth.TokenOrigin | backend/internal/oauth/handler.go:158-242 | Every token goes back to a complete form of the authenticated client it is for, and to a user who was found. |
| OAuth.AnswerBurns | backend/internal/oauth/handler.go:188-207 | Whatever is answered after consumption, a redirect or verifier mismatch included, the code is never usable again. |
| OAuth.OwnClientIff | backend/internal/oauth/handler.go:168-242 | An exchange in flight is never answered, in any continuation, with tokens for another client than its code's if and only if the presenting client is the code's own, or the redirect or the verifier does not match. |
| OAuth.OtherClientGetsTokens | backend/internal/oauth/handler.go:168-242 | From the empty store: a code issued to one client, presented by another with the right redirect and verifier, gets the other its tokens. |
| Keyset.PageOfFetched | backend/internal/tenant/service.go:121-136 | Fetching limit + 1 rows and truncating yields the page of the ordered matching rows beyond the cursor, and a next cursor exactly if more remain. |
| Keyset.NoRowTwice | backend/internal/tenant/service.go:89-137 | Under any inserts and deletes between pages no row is returned twice, whichever row the cursor names. |
| Keyset.WalkAscends | backend/internal/tenant/service.go:102-136 | All rows of a walk come in ascending order of id, across pages too. |
| Keyset.StableRowReturned | backend/internal/tenant/service.go:97-136 | In a walk that ends, whatever changes between the pages, a row there for every page is returned with the last returned row as cursor; with the first row not returned it is missing exactly if it was handed out as a cursor. |
| Keyset.LastReturnedIsComplete | backend/internal/tenant/service.go:130-134 | With the last returned id as cursor, a walk over a fixed table returns every row once, in order. |
| Keyset.FirstNotReturnedSkips | backend/internal/tenant/service.go:130-134 | With the first row not returned as cursor, a walk returns exactly the rows at indices i with i mod (limit + 1) != limit. |
| Keyset.SkippedCount | backend/internal/tenant/service.go:130-134 | It loses one row of every limit + 1. |
| Keyset.CompleteIffOnePage | backend/internal/tenant/service.go:130-134 | It is complete if and only if all rows fit one page. |
| Sql.AndBoundMeans | backend/internal/user/service.go:149-153 | Appending a clause with the next placeholder adds exactly that condition, disturbs no earlier one, and keeps the counter one more than the arguments. |
| Sql.AndDiffersMeans | backend/internal/user/service.go:146 | A clause with a literal adds exactly its condition and uses no placeholder. |
| Sql.WithLimitMeans | backend/internal/audit/service.go:121-122 | The last placeholder binds the row limit, and the limit argument changes no condition. |
| Sql.SearchIsContainsIffPlain | backend/internal/user/service.go:149-151 | A search finds, letter case aside, exactly the texts that contain the query if and only if the query has no wildcard or escape in it. |
| Sql.LowerCase | backend/internal/user/service.go:149-151 | Case folding maps each capital to its small letter and nothing else. |
| Sql.AscendingBeyond | backend/internal/user/service.go:159-166 | Selecting ids beyond a cursor and ordering them is dropping a prefix of the ordered whole. |
| Directory.TenantWalk | backend/internal/tenant/service.go:89-137 | What all pages of a fixed tenant table hold, and that they hold all of it if and only if it fits one page. |
| Directory.UserWalk | backend/internal/user/service.go:140-194 | What all pages of a fixed user table hold under any filters, and that they hold all matches if and only if these fit one page. |
| Directory.NoUserTwice | backend/internal/user/service.go:140-194 | Whatever changes between the pages, no user is returned twice. |
| AuditLog.NewestHoldsAllIff | backend/internal/audit/service.go:121-122 | A newest-first answer of at most n rows holds every event if and only if there are at most n. |
| AuditLog.LaterPagesAreOlder | backend/internal/audit/service.go:111-148 | Events on later pages are strictly older, whatever is written between the pages; so none repeats. |
| AuditLog.WalkNewestFirst | backend/internal/audit/service.go:111-148 | The concatenated pages run newest first without repetition, also over a growing log. |
| AuditLog.WalkTerminates | backend/internal/audit/service.go:144-148 | On a fixed log every page with a successor uses up `limit` events, so a walk has at most 1 + events / limit pages. |
| AuditLog.MissingIffCutOff | backend/internal/audit/service.go:111-148 | After a whole walk over a fixed log an event is missing if and only if some page ended on its timestamp without it. |
| AuditLog.CompleteIffNoStraddle | backend/internal/audit/service.go:111-148 | Every whole walk over a fixed log returns every matching event if and only if, ranked newest first, the events of each timestamp lie in one block of the page size: a condition on the log and the limit alone. |
| AuditLog.TieIsLost | backend/internal/audit/service.go:111-148 | Two events of one timestamp, one event a page: the walk ends without the second. |
| AuditLog.DistinctStampsMissNothing | backend/internal/audit/service.go:111-148 | With distinct timestamps the concatenated pages are the matching events, newest first, each exactly once. |
| Rbac.EffectiveShrinks | backend/internal/policy/rbac.go:158-167 | With the tables fixed, a permission effective later is effective now. |
| Rbac.HoldsRoleIff | backend/internal/policy/rbac.go:160-166 | Who holds a role: an assignment of it to the user, in this tenant, not expired; one in another tenant or expired gives nothing. |
| Rbac.EffectiveIff | backend/internal/policy/rbac.go:158-167 | A permission is effective if and only if it is attached to an existing role the user holds, and it is written resource, colon, action. |
| Rbac.EffectiveThroughRole | backend/internal/policy/rbac.go:158-167 | A name is effective if and only if some role the user holds gives it. |
| Rbac.EffectiveAfterAttach | backend/internal/policy/rbac.go:135-167 | Attaching a permission to a role gives its name to exactly those who hold the role, and changes nothing else. |
| Rbac.EffectiveAfterAssign | backend/internal/policy/rbac.go:143-167 | A new assignment gives the role's permissions to that user, in that tenant, until it expires, and nobody anything else. |
| Rbac.EffectiveAfterRemove | backend/internal/policy/rbac.go:152-167 | A removal leaves the user exactly the permissions of his other roles, and everyone else theirs. |
| Rbac.AssignmentTakesEffectIff | backend/internal/policy/rbac.go:143-150 | An assignment gives the role if and only if no row for the same user and role is there, or one in force already gives it. |
| Rbac.ExpiredRowBlocks | backend/internal/policy/rbac.go:143-150 | An expired assignment keeps its unlimited renewal from giving the role. |
| Rbac.RemoveThenAssign | backend/internal/policy/rbac.go:143-155 | After removal the user lacks the role and a fresh assignment always gives it. |
| Policy.SplitJoins | backend/internal/policy/engine.go:168-169 | Splitting at the first separator and joining again is the identity on every text that has one. |
| Policy.JoinSplits | backend/internal/policy/engine.go:262-266 | Joining a separator-free text to any other is undone by splitting. |
| Policy.AttributeNames | backend/internal/policy/engine.go:262-288 | Only the first dot of an attribute separates: what follows is the key looked up in the subject's, the resource's or the environment's values, nil if absent; "env" and "environment" mean the same; zone and address hide values of those names. |
| Policy.ZoneAndAddress | backend/internal/policy/engine.go:276-282 | Zone and address in the environment are the request's own. |
| Policy.OtherAttributesAreNil | backend/internal/policy/engine.go:262-288 | An attribute without a dot, or of an unknown source, is nil. |
| Policy.SubjectMatchIff | backend/internal/policy/engine.go:212-229 | Whom a policy is about: everyone if it names nobody; a policy naming only groups is about nobody; a role "*" needs the subject to have some role. |
| Policy.HoldsIff | backend/internal/policy/engine.go:290-311 | What the four operators ask of the texts of the two values: equal, different, equal to some item of a list, occurring in it; any other operator is never satisfied. |
| Policy.ConditionsHoldIff | backend/internal/policy/engine.go:252-260 | All conditions of a policy must be met. |
| Policy.AppliesIff | backend/internal/policy/engine.go:127-139 | A policy applies if and only if it is about the subject, lists the action or "*", lists the resource's type or "*" or no type at all, and each of its conditions is met. |
| Policy.SubjectConditionIff | backend/internal/policy/engine.go:252-311 | A policy about everyone and everything with one condition on an attribute of the subject applies exactly as the operator and the two texts say. |
| Policy.ConditionsConjoin | backend/internal/policy/engine.go:252-260 | A policy applies if and only if it does with each of its conditions alone. |
| Policy.UnknownOperatorNeverApplies | backend/internal/policy/engine.go:290-311 | A policy with a condition whose operator is not eq, neq, in or contains never applies. |
| Policy.WinnersAreMatching | backend/internal/policy/engine.go:127-146 | The ids collected for an effect are exactly those of the applying policies of that effect. |
| Policy.WinnersOfPermutation | backend/internal/policy/engine.go:127-146 | Reordering the policies collects the same ids, with the same multiplicities. |
| Policy.OrderDoesNotMatter | backend/internal/policy/engine.go:127-182 | Reordering the policies leaves outcome and reason unchanged and lists the same ids. |
| Policy.DecideMeans | backend/internal/policy/engine.go:148-182 | The decision on policies loaded in any order means: allowed if and only if no applying policy denies and one permits or the fallback does; reason and ids follow. |
| Policy.CollectedIff | backend/internal/policy/engine.go:127-146 | The ids collected for an effect are those of the tenant's active stored policies that apply with that effect. |
| Policy.StoredDecision | backend/internal/policy/engine.go:95-190 | In terms of the stored rows: allowed if and only if every active applying row of the tenant permits and there is one, or the fallback holds. |
| Policy.LoadMembers | backend/internal/policy/engine.go:185-190 | Evaluations load exactly the active policies of their tenant. |
| Policy.LoadedAfterCreate | backend/internal/policy/engine.go:362-379 | After a creation its tenant's evaluations load one policy more, active, with the given body; other tenants' the same as before. |
| Policy.LoadedAfterDelete | backend/internal/policy/engine.go:357-360 | After a deletion the tenant's policy of that id is not loaded and every other one as often as before. |
| Policy.OthersAfterUpdate | backend/internal/policy/engine.go:334-355 | An update changes the loading of no policy but the tenant's own of that id. |
| Policy.OwnAfterUpdate | backend/internal/policy/engine.go:334-355 | That one is loaded, with the new body, if and only if it exists and the flag is absent or set. |
| Policy.DeactivatingIsDeleting | backend/internal/policy/engine.go:185-190 | A deactivating update, whatever else it says, leaves every tenant's evaluations with the same policies as a deletion. |
| Policy.OtherTenantsUnaffected | backend/internal/policy/engine.go:334-379 | Creating, updating or deleting in one tenant changes nothing another tenant's evaluations load. |
| Policy.AddingIsMonotone | backend/internal/policy/engine.go:362-379 | Adding a policy that denies never enlarges what is allowed; adding one that permits never shrinks it. |
| Policy.DecisionOnlyFalls | backend/internal/policy/engine.go:168-180 | With rows and request fixed, what is permitted now was permitted at every earlier moment. |
| Policy.DecisionFlipsOnce | backend/internal/policy/engine.go:95-183 | Over any sequence of moments the decision flips at most once, from permit to deny. |
| Base32.RepadRestores | backend/internal/mfa/totp.go:73-77 | For all bytes, stripping the padding and recomputing it from the length restores the encoding. |
| Base32.DecodeOfEncode | backend/internal/mfa/totp.go:73-77 | Decoding an encoding gives back the bytes, whatever their number (section 6 of RFC 4648). |
| Base32.StoredSecretDecodes | backend/internal/mfa/totp.go:68-80 | The verifier decodes a stored secret to the bytes it was made from. |
| Base32.EncodeIsPadded | backend/internal/mfa/totp.go:73 | An encoding is characters of the base32 alphabet followed by exactly the padding their number determines. |
| Base32.Alphabet | backend/internal/mfa/totp.go:73-77 | Characters stand for quintets as in the alphabet of section 6 of RFC 4648, both ways. |
| Base32.UpperCase | backend/internal/mfa/totp.go:77 | Upper-casing maps each small letter to its capital and nothing else. |
| Base32.BlockSpellsBits | backend/internal/mfa/totp.go:73 | The characters of a block spell, five bits each, the bits of its bytes and then zeros. |
| Base32.DecodesIff | backend/internal/mfa/totp.go:77 | Re-padded text decodes if and only if it is of the alphabet and 0, 2, 4, 5 or 7 characters beyond a multiple of eight. |
| Totp.TruncationInBounds | backend/internal/mfa/totp.go:89-90 | For every digest the slice is inside it and the truncated value fits 31 bits. |
| Totp.TruncateIsDynamic | backend/internal/mfa/totp.go:89-90 | For every digest the value is that of section 5.3 of RFC 4226: four bytes from the offset in the last byte's low half, most significant first, without the top bit. |
| Totp.SixDigits | backend/internal/mfa/totp.go:91 | The text is exactly six decimal digits that read back as the code value. |
| Totp.CodeTextIff | backend/internal/mfa/totp.go:91 | A text is the code of a value if and only if it has six characters and reads as that number. |
| Totp.EnrolledCode | backend/internal/mfa/totp.go:68-91 | A text is an enrolled secret's code at a counter, whatever the case of its letters, if and only if it has six characters and reads as the dynamically truncated digest, under the original key, of the counter's bytes, modulo a million. |
| Totp.AcceptsIff | backend/internal/mfa/totp.go:56-66 | For an enrolled secret exactly the codes of the current thirty seconds, of the last and of the next are accepted. |
| Totp.AcceptedWithinPeriod | backend/internal/mfa/totp.go:56-66 | A code minted up to thirty seconds away is accepted (section 5.2 of RFC 6238). |
| Totp.WindowExact | backend/internal/mfa/totp.go:57-59 | At distance d the minting counter is always tried if and only if d is at most 30, and ever tried if and only if d is below 60. |
| Totp.EmptyAcceptedIff | backend/internal/mfa/totp.go:56-80 | The empty code is accepted, at any moment, if and only if the secret is not base32. |
| Totp.OnlySixDigitsIff | backend/internal/mfa/totp.go:56-91 | Only six-digit codes are ever accepted if and only if the secret is base32. |
| Totp.SecretDecodesIff | backend/internal/mfa/totp.go:77-80 | A secret is base32 if and only if it is letters and the digits 2 to 7, 0, 2, 4, 5 or 7 of them beyond a multiple of eight. |
| Totp.DollarIsNoSecret | backend/internal/mfa/totp.go:77-80 | A secret that is not base32. |
| Totp.NoOtherAccepted | backend/internal/mfa/totp.go:56-80 | For a secret that is not base32 no code but the empty one is accepted at any moment. |
| Totp.CounterBytesInjective | backend/internal/mfa/totp.go:82-83 | The eight bytes authenticated differ whenever two counters do, the negative one at time zero included. |
| Totp.CounterByte | backend/internal/mfa/totp.go:82-83 | Byte k of a counter is its k-th base-256 digit from the top, negative counters wrapped to 64 bits. |
| Digits.DigitAt | backend/internal/mfa/totp.go:82-91 | Digit k from the top of a number is the number without its lower digits, modulo the base. |
| RateLimit.SlidingLog.Pass | backend/internal/http/middleware/rate_limit.go:25-59 | A request is let through, told its remaining quota, and leaves the stored set, exactly as the complete list of all requests ever made, rejected ones included, would have it. |
| BruteForce.FailureCounter.Arrive | backend/internal/http/middleware/brute_force.go:30-44 | A request is served if and only if the client is not blocked at that moment; one that is refused changes nothing. |
| BruteForce.FailureCounter.Answered | backend/internal/http/middleware/brute_force.go:46-52 | Only status 401 counts: it raises the live count by one and restarts the window. |
| BruteForce.FailureCounter.RecordSuccess | backend/internal/http/middleware/brute_force.go:57-60 | A success forgets all failures and lifts any block, also while requests are in flight. |
| Jit.Service.CreateRequest | backend/internal/jit/service.go:56-87 | A pending request appears if and only if the duration is 1 to 480 minutes and a justification is given. |
| Jit.Service.ApproveRead | backend/internal/jit/service.go:132-145 | The first half of an approval goes on exactly for a pending request of the tenant, and only records what it read. |
| Jit.Service.ApproveCommit | backend/internal/jit/service.go:147-186 | The second half commits status, expiry and grant together, whatever became of the request, and returns the grant inserted. |
| Jit.Service.ApproveAbandon | backend/internal/jit/service.go:147-185 | A rolled-back approval leaves requests and grants as they were. |
| Jit.Service.DenyRequest | backend/internal/jit/service.go:189-202 | Denies, and reports success, exactly for a pending request of the tenant. |
| Jit.Service.RevokeGrant | backend/internal/jit/service.go:204-218 | Revokes, and reports success, exactly for an unrevoked grant of the tenant, expired or not. |
| Jit.Service.GetActiveGrants | backend/internal/jit/service.go:220-245 | Returns each grant of the requester that is in force now, once, by expiry, and nothing else. |
| Lifetimes.OrderBy | backend/internal/delegation/service.go:140-144 | ORDER BY a time: the selected rows, each once, times never falling; ties in any order. |
| Delegation.Service.CreateDelegation | backend/internal/delegation/service.go:37-71 | An active row appears if and only if a role is given and the expiry does not precede an explicit start; a missing start becomes now. |
| Delegation.Service.RevokeDelegation | backend/internal/delegation/service.go:118-133 | Revokes, and reports success, exactly for an active delegation of the tenant, recording who and when. |
| Delegation.Service.GetEffectiveDelegations | backend/internal/delegation/service.go:135-162 | Returns each delegation the user holds that is effective now, once, by start, and nothing else. |
| Mfa.ChallengeRow.VerifyBegin | backend/internal/mfa/service.go:134-150 | Separates a challenge not found (other user, used, expired) from one with too many attempts; neither refusal changes anything. |
| Mfa.ChallengeRow.VerifyCount | backend/internal/mfa/service.go:152 | The attempt is counted before the provider is asked, whatever others have counted meanwhile. |
| Mfa.ChallengeRow.VerifyAsk | backend/internal/mfa/service.go:154-164 | Only a match goes on; an unknown method ends the call without asking the provider. |
| Mfa.ChallengeRow.VerifySettle | backend/internal/mfa/service.go:164-168 | A match marks the challenge used and succeeds, also if it is used already. |
| OAuth.TokenEndpoint.CreateCode | backend/internal/oauth/authcode.go:39-60 | A new code is stored unused, expiring in five minutes. |
| OAuth.TokenEndpoint.Begin | backend/internal/oauth/handler.go:157-192 | Refusals come in the source's order and touch no code; otherwise the exchange holds what it read. |
| OAuth.TokenEndpoint.MarkUsed | backend/internal/oauth/authcode.go:85-90 | Marks the code used unconditionally, also if another exchange has done so since. |
| OAuth.TokenEndpoint.Finish | backend/internal/oauth/handler.go:194-242 | Answers by the row as read at lookup: redirect, verifier, user, then tokens. |
| Sql.AndWhen | backend/internal/audit/service.go:81-119 | An optional filter adds its condition exactly when it is set, and keeps the numbering. |
| Sql.OrderById | backend/internal/tenant/service.go:105 | The order by id is the one strictly ascending arrangement of the selected ids. |
| Sql.SelectById | backend/internal/user/service.go:168-170 | The rows returned are the first of the ordered selection, as many as the limit's placeholder binds. |
| Directory.FetchPage | backend/internal/user/service.go:168-194 | Query, loop and truncation together return one page of the matching rows with their contents, and its next cursor. |
| Directory.TenantService.List | backend/internal/tenant/service.go:89-137 | Refuses exactly cursors that are not ids; otherwise returns the page, beyond the cursor, of all tenants not deleted. |
| Directory.BuildUserQuery | backend/internal/user/service.go:145-170 | Evaluated with arguments taken by placeholder position, the built clauses select exactly the users the set filters mean, beyond the cursor. |
| Directory.UserService.List | backend/internal/user/service.go:140-194 | Returns the page, beyond the cursor, of the tenant's undeleted users that match; a cursor that is not an id is ignored. |
| Directory.AllTenantPages | backend/internal/tenant/service.go:89-137 | A client following the cursors the list hands out ends, and holds exactly the rows at indices i with i mod (n + 1) != n. |
| Directory.AllUserPages | backend/internal/user/service.go:140-194 | The same for the user list, under any filters. |
| AuditLog.AllEventPages | backend/internal/audit/service.go:70-151 | A client following the cursors the list hands out ends, and its pages are a whole walk, as the completeness theorems require. |
| AuditLog.BuildEventQuery | backend/internal/audit/service.go:76-119 | Evaluated with arguments taken by placeholder position, the built clauses select exactly the events the set filters mean, before the cursor. |
| AuditLog.RunQuery | backend/internal/audit/service.go:121-128 | With the limit bound by the last placeholder the query yields that many newest of the selected events, newest first, ties in any order. |
| AuditLog.Service.List | backend/internal/audit/service.go:70-151 | Returns some `limit` newest of the events the filters mean before the cursor, and a next cursor, the last one's timestamp, exactly if more remain. |
| AuditLog.Service.Export | backend/internal/audit/service.go:153-176 | The export holds every matching event if and only if there are at most 50, and the 50 newest otherwise. |
| Rbac.Service.AssignUserRole | backend/internal/policy/rbac.go:143-150 | A row for the same user and role, in whatever tenant and however old, makes it a no-op. |
| Rbac.Service.RemoveUserRole | backend/internal/policy/rbac.go:152-155 | The user's rows for the role go, in every tenant, and no others. |
| Rbac.Service.GetEffectivePermissions | backend/internal/policy/rbac.go:157-183 | The set is exactly the names some unexpired assignment in the tenant joins to. |
| Rbac.Service.HasPermission | backend/internal/policy/rbac.go:185-192 | True if and only if the joined name is among the effective permissions. |
| Policy.Collect | backend/internal/policy/engine.go:124-146 | The loop puts every applying policy on exactly the list of its effect, in loading order. |
| Policy.Engine.CreatePolicy | backend/internal/policy/engine.go:362-379 | The new policy is active and belongs to the caller's tenant, whatever its body says. |
| Policy.Engine.UpdatePolicy | backend/internal/policy/engine.go:334-355 | Changes at most the tenant's own policy of that id; without the flag it becomes active. |
| Policy.Engine.DeletePolicy | backend/internal/policy/engine.go:357-360 | Removes at most the tenant's own policy of that id. |
| Policy.Engine.LoadPolicies | backend/internal/policy/engine.go:185-210 | Loads exactly the tenant's active policies, highest priority first, ties in any order. |
| Policy.Engine.Evaluate | backend/internal/policy/engine.go:95-183 | Allows if and only if no active applying policy of the tenant denies and either one permits or the action contains ':' and is in the user's effective permissions; the listed ids are exactly those of the active applying policies of the effect that won; the reason tells which case it was. |
| Policy.Engine.RbacPermits | backend/internal/policy/engine.go:167-180 | The fallback holds if and only if the action contains ':', the user id reads as one, and the action itself is an effective permission. |
| Totp.PutUint64 | backend/internal/mfa/totp.go:82-83 | The buffer filled in place holds the number's eight base-256 digits, most significant first. |
| Totp.ComputeTotp | backend/internal/mfa/totp.go:76-92 | Computes the code of the counter; the empty text if the secret is not base32. |
| Totp.Verify | backend/internal/mfa/totp.go:56-66 | Accepts if and only if the code is that of the current counter or a neighbour. |
| RateLimit.SlidingLog.constructor | backend/internal/http/middleware/rate_limit.go:15-22 | A client nobody has seen has no history and nothing stored. |
| RateLimit.SlidingLog.Prune | backend/internal/http/middleware/rate_limit.go:29-30 | Exactly the members scored at or below now - window go. |
| BruteForce.FailureCounter.constructor | backend/internal/http/middleware/brute_force.go:19-27 | A client without a stored key starts a run. |
| BruteForce.FailureCounter.Get | backend/internal/http/middleware/brute_force.go:30 | Reading an expired or absent key gives zero, a live one its value. |
| Jit.Service.constructor | backend/internal/jit/service.go:48-54 | An empty store is the start of every run. |
| Delegation.Service.constructor | backend/internal/delegation/service.go:33-35 | An empty table is the start of every run. |
| Mfa.ChallengeRow.constructor | backend/internal/mfa/service.go:113-116 | A new challenge is unused, has no attempts and expires in five minutes. |
| OAuth.TokenEndpoint.constructor | backend/internal/oauth/authcode.go:31-37 | An empty store is the start of every run. |
| Directory.TenantService.constructor | backend/internal/tenant/service.go:23-25 | Starts with no tenants. |
| Directory.UserService.constructor | backend/internal/user/service.go:21-23 | Starts with no users. |
| AuditLog.Service.constructor | backend/internal/audit/service.go:41-47 | Starts with an empty log. |
| AuditLog.Service.Write | backend/internal/audit/service.go:49-68 | Appends; nothing already written changes. |
| Rbac.Service.constructor | backend/internal/policy/rbac.go:35-41 | Starts with empty tables. |
| Rbac.Service.AssignRolePermission | backend/internal/policy/rbac.go:135-141 | A pair is stored once however often it is assigned. |
| Policy.Engine.constructor | backend/internal/policy/engine.go:84-92 | Starts without policies, over a given permission service. |
| Base32.EncodingExample | backend/internal/mfa/totp.go:73 | The encoding of "f" is the one section 10 of RFC 4648 gives. |
| Totp.TruncationExample | backend/internal/mfa/totp.go:89-91 | The worked example of section 5.4 of RFC 4226. |
| Totp.NumeralExample | backend/internal/mfa/totp.go:91 | The digits of a code are the usual ones, most significant first. |

## Left out

- HTTP handlers and headers: routing, response bodies, Retry-After and rate-limit headers, status capture, and the choice of the client address; each guard object is the state of one address.
- Failures of the stores: fail-open and ignored errors; a statement that runs has its effect. A call that stops half-way is an Abandon event.
- RateLimit.SlidingLog.Pass: the four pipelined commands are one step; passes interleaved within a pipeline are not modelled. The same holds for the raise and the refresh in BruteForce.FailureCounter.Answered.
- OAuth.TokenEndpoint.Finish: failures to sign tokens after the checks, and storing the refresh token, are not modelled.
- Cryptography and tokens: HMAC-SHA1 and the S256 transform are arbitrary functions, secret checks arbitrary answers, code hashes as distinct as the codes; signing and storing tokens, and their failures after the checks, are not modelled.
- Random identifiers and codes: fresh ones are required where the source draws one.
- Mfa.ChallengeRow.VerifyAsk: the provider's answer is arbitrary; that the stored secret is a password hash, which the one-time code provider could not use, does not show, since Totp works on a plain secret.
- Base32.DecodeOfEncode: decoding is modelled for texts whose length is a multiple of eight, which re-padding always gives; skipping line breaks is not modelled.
- Descriptive fields: resource and justification of access requests, scope and reason of delegations, names and descriptions of policies, e-mail, address and details of audit events.
- Sql.SearchIsContainsIffPlain: letter case is folded for ASCII letters only.
- Queries are lists of clauses, not text; cursors are parsed ids or timestamps, and the text round trip of timestamps is not modelled.
- Policy.Engine.Evaluate: loading the policies and asking for the permission are separate statements in the source and one step here, so changes between them are not modelled. Formatting values as text and parsing user ids are arbitrary functions; the evaluation time is left out, and so are failures while loading.
- Rbac.Service.GetEffectivePermissions: creating and deleting roles and permissions is not modelled; the tables are arbitrary.
- Federation, sessions, password rules, tenant and user creation and updates, the front end and the configuration.
