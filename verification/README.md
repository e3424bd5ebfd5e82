# Linea-server: the stateful core, modelled and verified

Linea-server hosts many genealogies in one process. Four parts of it keep state whose correctness
does not show from any single function, and this project models those four:

* **Rate limiter** (`RateLimit.dfy`, `SweepExactness.dfy`): one token bucket per key, refilled lazily, with
  an idle sweep. Main results: the rate bound for any clock whatever; optimality after every prefix; denied
  calls leave no trace; sweeping is invisible *if and only if* the bucket is too small to grant anything or
  has time to fill up while it is idle, for every capacity and every rate.
* **Platform database** (`Counters.dfy`, `Records.dfy`, `Keys.dfy`, `PlatformTables.dfy`, `PlatformStore.dfy`):
  one flat string-keyed map that stands for several typed tables and a two-way membership index. The class
  `Store` is proved to represent the typed tables after every operation, in spite of subjects that contain
  slashes.
* **Genealogy service** (`Authz.dfy`, `Genealogies.dfy`, `GenealogyRuns.dfy`, `GenealogyOutcomes.dfy`,
  `GenealogyService.dfy`, `SlashedIds.dfy`, `Staleness.dfy`, `PersonQuota.dfy`): genealogies, memberships, bans, quota counters and the TTL cache of
  authorization decisions. The handlers run step by step over the flat store in the class `Service`; each is
  proved equal to a function on tables and cache (`Apply`), and whole runs of that function are what the main
  results are about: cache transparency, quota conservation, ownership, provenance of grants, authority, frame,
  and what every request must do, to the tables and to the cache, said without reference to the handlers.
  Two further state machines split handlers into their interleaved steps: bounded staleness of cached
  decisions, and the person quota.
* **Tenant manager** (`TenantCore.dfy`, `TenantRecency.dfy`, `TenantProtocol.dfy`, `TenantOutcomes.dfy`): a bounded LRU of open
  databases with coalesced opens. The class `Manager` carries list and index map; the protocol runs its critical
  sections from any number of threads in any order. Main results: every opened handle is awaiting install,
  cached, or closed once; an id is never opened while a handle of it is open or being opened; every caller
  gets a handle of the id it asked for; the "lost a race" branch is dead; the list is the recency order of the
  touches; a larger cache is never worse; exactly when a Close can end in a crash; and what each step must do,
  down to the delivery of a load to everyone who waited for it.

## Conventions

* Clock readings, fresh ids, the disk's answer, the governance engine's answer and the success of an open are
  parameters or events; results hold for all their values.
* New genealogy ids are fresh, non-empty and free of slashes (the text form of section 4 of RFC 9562), and in
  the runs so is the id in a request to leave. All other handlers look the genealogy up first and need no such
  assumption. `Keys.SlashedIdsCollide` shows why ids must not contain a slash; what leaving does with a slash in
  its id is stated on the strings of the database, in `SlashedIds`.
* With no private-genealogy limit configured, a run has fewer than 2^64 steps, so that a 64-bit count cannot wrap.
* `Close` of the tenant manager finds no thread that is opening a store or has opened one and not yet installed
  it; the server's shutdown order establishes more (`internal/server/server.go:153-169`).
  `TenantProtocol.CloseCrashesIff` shows that this is exactly the condition under which no continuation writes
  to the nil index.
* Publishing a load, waking its waiters and installing the handle happen under one lock and are one step; a
  waiter that wakes earlier only reads the published result.
* Scan order and map iteration order are arbitrary.

## Where the code and its comments differ

The model follows the code.

* `internal/authz/resolver.go:45-46` says that a TTL of 0 disables caching; the code then uses 5 seconds.
* `internal/authz/resolver.go:169-171` says that invalidation keeps decisions from going stale. With concurrent
  calls it does not by itself (`Staleness.OldDecisionCanReturn`); `Staleness.OldDecisionReturnsIff` says exactly
  when an old decision comes back, and `Staleness.BoundedStaleness` bounds for how long.
* `internal/service/genealogies.go:198` announces that bans are removed with a genealogy. They are not, and the
  person counter stays as well: `GenealogyRuns.DeletionResidue` gives what is left, string by string,
  `GenealogyRuns.DeletionIsCompleteIff` when nothing is, and `GenealogyRuns.BansOutliveDeletion` an input.
* `internal/service/proposals.go:154-155` says the person cap is never exceeded. With k handlers at once it can be
  exceeded by k - 1 and by no more (`PersonQuota.CounterBound`, `PersonQuota.BoundIsReached`).
* Removing and leaving protect the last Owner, granting a role does not: a last Owner may be demoted
  (`GenealogyRuns.SoleOwnerMayDemoteItself`). `GenealogyRuns.OwnedThroughoutIff` states that this is the only way.
* `internal/service/genealogies.go:84-86` promises the caller's own memberships. A caller whose subject is a
  slash-prefix of another member's subject is also listed that member's genealogies, and may be shown that
  member's role (`GenealogyService.ListingShowsTooMuch`, `GenealogyService.ListingShowsWrongRole`). The listed
  set is exact if and only if the condition of `GenealogyService.ListingIsExactIff` holds, and the roles shown
  are right if and only if the condition of `GenealogyService.RolesAreRightIff` holds; neither implies the other
  (`GenealogyService.ListingShowsTooMuchRightly`).

## Model

| member | source | states |
|---|---|---|
| RateLimit.Bucket.constructor | internal/ratelimit/ratelimit.go:56-69 | A new limiter has no buckets and always a positive idle timeout; zero or negative selects ten minutes. |
| RateLimit.Bucket.Allow | internal/ratelimit/ratelimit.go:73-95 | Answer and new bucket of one call, for a known and for a new key: rate * elapsed is gained up to the capacity, a whole token is needed and taken, the clock reading is kept either way; no other key's bucket changes. |
| RateLimit.CallMeans | internal/ratelimit/ratelimit.go:82-94 | The same of the specification: what one call finds, whether it is granted, and what it leaves. |
| RateLimit.Bucket.Sweep | internal/ratelimit/ratelimit.go:109-116 | The deleting loop, in whatever order it visits the keys, forgets exactly the buckets idle for longer than the timeout. |
| RateLimit.RateBound | internal/ratelimit/ratelimit.go:73-95 | For any clock readings, monotone or not, every window of calls on a live bucket that ends in a granted call grants at most capacity + rate * (last - first). |
| RateLimit.LimiterRateBound | internal/ratelimit/ratelimit.go:73-119 | The same bound for one key of a limiter that serves any mix of keys and sweeps, while the key's bucket is not swept. |
| RateLimit.AllowRespects | internal/ratelimit/ratelimit.go:73-95 | The limiter's own answers obey the envelope on every window, from any starting bucket. |
| RateLimit.PrefixOptimal | internal/ratelimit/ratelimit.go:73-95 | Any choice of accepted calls that obeys the same envelope has, after every prefix, accepted no more calls than Allow; no monotone clock needed. |
| RateLimit.PrefixOptimalMonotone | internal/ratelimit/ratelimit.go:73-95 | On a clock that does not run backwards the same holds against choices that obey the envelope only between their own accepted calls. |
| RateLimit.DeniedCallsAreInvisible | internal/ratelimit/ratelimit.go:81-95 | Deleting any of the denied calls of a run changes no other answer, for any clock readings. |
| RateLimit.SweepsAreInvisible | internal/ratelimit/ratelimit.go:102-119 | If rate * idle >= capacity, a limiter that sweeps and one that never does give every key the same replies on every monotone run. |
| RateLimit.KeysAreIndependent | internal/ratelimit/ratelimit.go:26-27 | What the limiter tells one key is what a bucket serving that key alone would tell it. |
| SweepExactness.SweepsCanShow | internal/ratelimit/ratelimit.go:102-119 | If the bucket can grant and rate * idle < capacity, whether the rate is positive, zero or negative, there is a monotone run in which a key's replies differ with and without the sweeper. |
| SweepExactness.SweepsCannotShow | internal/ratelimit/ratelimit.go:102-119 | If the capacity is below 1, or rate * idle >= capacity, no monotone run and no key can tell whether there is a sweeper. |
| SweepExactness.SweepsInvisibleIff | internal/ratelimit/ratelimit.go:56-119 | For every capacity, every rate and every idle timeout, sweeping is invisible on all monotone runs and keys exactly when capacity < 1 or rate * idle >= capacity. |
| Counters.BumpSaturates | internal/platform/counters.go:79-85 | With Go's wrapping conversions, for every uint64 and every int64 delta including -2^63, the stored value is max(0, cur + delta) exactly when that is below 2^64; past it, 2^64 is lost. |
| Counters.CounterBytesRoundTrip | internal/platform/counters.go:87-89 | Writing a counter and reading it back gives the same value, and eight bytes read and written back are the same bytes. |
| Counters.FirstByteWeighsMost | internal/platform/counters.go:117-117 | The stored bytes are in big-endian order: the first counts for 256 to the number of bytes after it. |
| Counters.PutUint64 | internal/platform/counters.go:87-88 | Filling the buffer in place yields the big-endian digits of the value. |
| Keys.FlatIsInjective | internal/platform/store.go:55-59 | Two rows of the same table or of different tables, counters included, never share a key string, whatever slashes the subjects contain. |
| Keys.KeyLayout | internal/platform/store.go:55-59 | The key strings of one row of each table, spelled out. |
| Keys.SlashedIdsCollide | internal/platform/store.go:57 | Two different membership rows share a key string once genealogy ids may contain slashes. |
| Keys.MembersScan | internal/platform/store.go:181-182 | A prefix scan for one genealogy meets a key if and only if it is one of that genealogy's membership rows. |
| Keys.UserScan | internal/platform/store.go:192-193 | A prefix scan for a user meets a key if and only if it is a reverse row of that user or of a subject extending it by a slash. |
| Keys.GenealogiesScan | internal/platform/store.go:125-126 | A scan of the genealogy prefix meets genealogy records and nothing else. |
| PlatformTables.LookupIsExact | internal/platform/store.go:253-264 | In a flat database that represents typed tables, a key is found exactly when its row is in its table, with that row's value. |
| PlatformTables.UpdateRows | internal/platform/store.go:139-178 | Rewriting the strings of some rows rewrites those rows of the tables and no others. |
| PlatformTables.IndexesAgree | internal/platform/store.go:137-159 | The forward and the reverse membership index hold the same rows with the same values. |
| PlatformTables.ScanMembers | internal/platform/store.go:181-189 | A complete scan for a genealogy yields each of its membership rows once and nothing else. |
| PlatformTables.ScanUser | internal/platform/store.go:192-200 | A complete scan for a user yields each row of that user or of a subject below it once and nothing else. |
| PlatformTables.ScanGenealogies | internal/platform/store.go:125-133 | A complete scan yields each genealogy once. |
| PlatformStore.Store.constructor | internal/platform/store.go:29-33 | An empty database represents empty tables. |
| PlatformStore.Store.Reopen | internal/platform/store.go:29-33 | A database that holds rows written before represents the same tables again. |
| PlatformStore.Store.PutGenealogy | internal/platform/store.go:96-104 | A record without id is refused and nothing changes; otherwise one row of one table changes and the flat map still represents the tables. |
| PlatformStore.Store.GetGenealogy | internal/platform/store.go:107-111 | Returns the table's row, or not-found exactly when there is none. |
| PlatformStore.Store.DeleteGenealogy | internal/platform/store.go:117-121 | Removes that record and no other row of any table; memberships, bans and counters stay. |
| PlatformStore.Store.PutMembership | internal/platform/store.go:139-159 | Refuses an empty subject, an empty id and an invalid role; otherwise two strings are written, for any id; for a slash-free id they are one membership row, stamped with a grant time if it had none, and the map still represents the tables. |
| PlatformStore.Store.GetMembership | internal/platform/store.go:164-168 | Returns the membership under the string, for any id; for a slash-free id that is the seat's row, or not-found exactly when there is none. |
| PlatformStore.Store.DeleteMembership | internal/platform/store.go:171-178 | Two strings are deleted, for any id; for a slash-free id they are one membership row, and deleting an absent row changes nothing. |
| PlatformStore.Store.PutBan | internal/platform/store.go:205-213 | Refuses an empty subject or id; otherwise one string is written, and for a slash-free id one ban row changes. |
| PlatformStore.Store.IsBanned | internal/platform/store.go:230-239 | True exactly when the string is there, which for a slash-free id is when the ban table has the seat. |
| PlatformStore.Store.DeleteBan | internal/platform/store.go:223-227 | Removes one string, and for a slash-free id that ban and nothing else. |
| PlatformStore.Store.ReadCounterAt | internal/platform/counters.go:104-121 | An absent counter is 0; a value that is not eight bytes is reported as corrupt. |
| PlatformStore.Store.IncCounterAt | internal/platform/counters.go:70-92 | The read-modify-write over the byte buffer stores the bumped value under its key only, and leaves a corrupt value alone. |
| PlatformStore.Store.GetUserCount | internal/platform/counters.go:43-45 | Reads the user's counter from the table of counters; absent is 0, and no stored row of another kind can be mistaken for it. |
| PlatformStore.Store.GetPersonCount | internal/platform/counters.go:54-56 | The same for a genealogy's person counter. |
| PlatformStore.Store.IncUserCount | internal/platform/counters.go:38-40 | Moves one user's counter, returns its new value, and changes no other row. |
| PlatformStore.Store.IncPersonCount | internal/platform/counters.go:49-51 | The same for a genealogy's person counter. |
| PlatformStore.Store.ScanPrefix | internal/platform/store.go:267-290 | Visits matching strings once each, in any order, and stops early only right after a callback that says so. |
| PlatformStore.Store.IterateMembers | internal/platform/store.go:181-189 | Collects the memberships under the prefix, one for each string, for any id; for a slash-free id exactly the genealogy's rows, once each. |
| PlatformStore.Store.IterateForUser | internal/platform/store.go:192-200 | Collects exactly the rows of the user and of subjects below it, once each. |
| PlatformStore.Store.IterateGenealogies | internal/platform/store.go:125-133 | Collects every genealogy once. |
| Authz.AccessRules | internal/authz/resolver.go:91-133 | A member's row decides; without a row, Public is open to all (signed-in callers contribute, others view), Unlisted to signed-in callers, and nobody gets into a Private or missing genealogy. |
| Authz.HighRolesAreExplicit | internal/authz/resolver.go:91-133 | A role of Curator or Owner is always backed by an explicit row of that role. |
| Authz.ResolveIsTransparent | internal/authz/resolver.go:65-88 | On a coherent cache, any clock readings and any TTL give the uncached decision, and the cache stays coherent. |
| Authz.InvalidationKeepsCoherence | internal/authz/resolver.go:169-180 | If every decision that a change of tables alters was either "not allowed" or is covered by the invalidated pattern, wildcards included, the cache is coherent with the new tables. |
| Authz.Resolver.Resolve | internal/authz/resolver.go:65-111 | Over the flat store and the cache map: an entry is used exactly until it expires, else record and row decide, and an allowing decision is kept for one TTL. |
| Authz.ResolveMeans | internal/authz/resolver.go:65-88 | The same of the specification, from any cache, coherent or not. |
| Authz.ExpiryIsRespected | internal/authz/resolver.go:153-161 | From any cache whatever, a Resolve after the entry's expiry gives the decision of the present tables. |
| Authz.Resolver.Invalidate | internal/authz/resolver.go:172-180 | The deleting loop removes exactly the entries matching the pattern, an empty string matching everything. |
| Genealogies.HandleIsLegal | internal/service/genealogies.go:34-343 | Every effect that the handlers' checks let through meets the conditions the invariant needs: fresh ids, unchanged creators, room under the quota, another Owner when an Owner row goes. |
| Genealogies.PerformKeepsGrounded | internal/service/genealogies.go:34-343 | Rows name their own keys, ids have no slash, and no membership outlives its genealogy, after every legal effect. |
| Genealogies.PerformMovesCounts | internal/service/genealogies.go:49-77 | Counter and number of live Private genealogies of every user move together by 0, by -1 from a positive value, or by +1 from below the limit. |
| Genealogies.PerformKeepsCounters | internal/service/genealogies.go:159-178 | Exact counters and the limit survive every legal effect, including both directions of a visibility change. |
| Genealogies.PerformIsLocal | internal/service/genealogies.go:146-217 | An effect on one genealogy leaves another's record, memberships, bans and person counter as they were. |
| Genealogies.PerformInvalidatesItsChanges | internal/service/genealogies.go:78-78 | A decision that an effect alters was not allowed before (and so never cached), or matches what the handler invalidates. |
| Genealogies.PerformKeepsCoherence | internal/service/genealogies.go:179-179 | After effect and invalidation every cached decision is the one the new tables give. |
| Genealogies.ApplyKeepsInv | internal/service/genealogies.go:34-343 | One request of any kind keeps the whole invariant, and changes the tables and answers exactly as on a server without a cache. |
| GenealogyRuns.RunKeepsInv | internal/service/genealogies.go:34-343 | The invariant holds in every state reachable from an empty store, and tables and replies of the run are those of the run without a cache. |
| GenealogyRuns.CacheTransparency | internal/authz/resolver.go:65-111 | Two servers with different TTLs and cache clocks, given the same requests, hold the same tables and give the same replies throughout; each cached decision, expired or not, is the present one. |
| GenealogyRuns.QuotaConservation | internal/quotas/quotas.go:57-69 | In every reachable state each user's counter is the number of live Private genealogies the user created, and a configured limit is never exceeded. |
| GenealogyRuns.CountersNeverSaturate | internal/platform/counters.go:79-85 | No step of a run reaches the saturating branch or wraps: every adjustment stays within 0 and 2^64. |
| GenealogyRuns.RemovalKeepsAnOwner | internal/service/genealogies.go:268-312 | From any state and with any decision, fresh or stale, removing a member or leaving never takes a genealogy from some Owners to none. |
| GenealogyRuns.OwnedUnlessDemoted | internal/service/genealogies.go:235-242 | Among all legal effects, exactly a grant of a lower role to the only Owner leaves a live genealogy without an Owner. |
| GenealogyRuns.OwnedThroughoutIff | internal/service/genealogies.go:64-72 | Every live genealogy has an Owner at every moment of a run if and only if no grant of the run demotes a last Owner. |
| GenealogyRuns.SoleOwnerMayDemoteItself | internal/service/genealogies.go:221-247 | A sole Owner's request to lower its own role is served and leaves the genealogy without an Owner. |
| GenealogyRuns.EveryRowIsTraced | internal/service/genealogies.go:219-247 | Every membership row of every reachable state has stood since a step that wrote it, at creation or by an actor then holding Curator (Owner for an Owner row), whose own row is traced the same way further back. |
| GenealogyRuns.RequestIsLocal | internal/service/genealogies.go:146-217 | A request addressed to one genealogy changes nothing about any other, nor anyone's decision there. |
| GenealogyRuns.LowActorsChangeNothing | internal/service/genealogies.go:221-343 | An actor without a Curator or Owner row changes nothing about an existing genealogy, except that it may take away its own row by leaving. |
| GenealogyRuns.EffectsNeedAuthority | internal/service/genealogies.go:146-343 | For each kind of change, the actor then held the explicit role that entitles it to that change. |
| GenealogyRuns.OwnersAreServed | internal/service/genealogies.go:146-343 | Completeness: an Owner's well-formed request is refused only for the quota, the disk, or the last Owner, and otherwise has the effect asked for, with the visibility, role, row or ban asked for. |
| GenealogyRuns.FlatFrame | internal/platform/store.go:55-59 | On the flat store, a request adds, removes or rewrites no string of another genealogy's rows. |
| GenealogyRuns.DeadGenealogyHasNoRow | internal/platform/store.go:171-189 | In every grounded state neither membership index holds a string of a genealogy that is not live. |
| GenealogyRuns.DeletionLeavesNoRow | internal/service/genealogies.go:184-217 | An Owner's deletion on a working disk succeeds and leaves no record and no row of either membership index. |
| GenealogyRuns.DeletionResidue | internal/service/genealogies.go:198-211 | Of all the strings about a deleted genealogy, the bans and the person counter stay, with their values, and nothing else does. |
| GenealogyRuns.DeletionIsCompleteIff | internal/service/genealogies.go:198-211 | A deletion leaves no string about the genealogy exactly when it had no ban and no person counter. |
| GenealogyRuns.BansOutliveDeletion | internal/service/genealogies.go:198-211 | In a state with one member and one ban, the Owner's deletion succeeds and the ban is still there. |
| GenealogyRuns.ReadsObeyAccessRules | internal/service/genealogies.go:132-143 | In every run, whatever is cached, a request to see a genealogy is served exactly when visibility or a row allows it at that moment, with the role it then gives. |
| GenealogyOutcomes.EveryStepHasItsOutcome | internal/service/genealogies.go:34-343 | In every run, with any cache, TTL and clocks: each request is refused exactly for the reasons given and otherwise leaves exactly the records, memberships and bans asked for; and every counter is exact afterwards. |
| GenealogyOutcomes.OutcomeIsUnique | internal/service/genealogies.go:34-343 | The outcomes leave no freedom: they determine the reply and all tables but the counters, which the records determine. |
| GenealogyOutcomes.HandlersHaveTheirOutcome | internal/service/genealogies.go:34-343 | The same from every grounded state with exact counters. |
| GenealogyOutcomes.CreationOutcome | internal/service/genealogies.go:34-82 | A signed-in caller's creation with a non-blank name is refused exactly when it is to be Private and the caller has as many live Private genealogies as the limit; else the trimmed name and the visibility asked for, Private if none was, are stored and the caller is Owner. |
| GenealogyOutcomes.VisibilityOutcome | internal/service/genealogies.go:146-181 | An Owner's change is refused exactly for a missing visibility or a full quota of the creator on the way to Private; else the record has the visibility asked for and nothing else changes. |
| GenealogyOutcomes.DeletionOutcome | internal/service/genealogies.go:184-217 | An Owner's deletion on a working disk removes the record and all its memberships and no other row. |
| GenealogyOutcomes.UpsertOutcome | internal/service/genealogies.go:221-247 | Whoever is Curator or Owner can grant up to Curator, an Owner any role, and the row holds the target, the role and the granter. |
| GenealogyOutcomes.RemovalOutcome | internal/service/genealogies.go:251-286 | A Curator's or Owner's removal ends with the target's row gone and all others as before; refused only for an Owner target, to a Curator, or if no other Owner is left. |
| GenealogyOutcomes.LeavingOutcome | internal/service/genealogies.go:290-317 | Leaving ends with the caller's row gone and all others as before; refused only to the only Owner. |
| GenealogyOutcomes.BanOutcome | internal/service/genealogies.go:319-332 | A Curator's or Owner's ban is stored with target, reason and actor. |
| GenealogyOutcomes.UnbanOutcome | internal/service/genealogies.go:334-343 | A Curator's or Owner's unban removes that ban and no other. |
| GenealogyOutcomes.ReadOutcome | internal/service/genealogies.go:132-143 | A read shows record and role exactly to those who may see it, and changes no table. |
| GenealogyOutcomes.QuotaMeans | internal/quotas/quotas.go:57-69 | With exact counters the quota check fires exactly when a limit is set and the user's live Private genealogies number the limit. |
| GenealogyOutcomes.CacheOutcome | internal/service/genealogies.go:78-78 | In every run a served request drops from the cache the decisions it concerns and no others; only the actor's own entry may be new. |
| GenealogyOutcomes.Undisturbed | internal/service/genealogies.go:34-343 | Any number of requests addressed elsewhere leave everything about a genealogy alone. |
| GenealogyOutcomes.ReadSeesLastChange | internal/authz/resolver.go:65-111 | In every run, however much happens elsewhere in between, a read is answered from the state that the last request about the genealogy left. |
| GenealogyOutcomes.VisibilityTakesHold | internal/service/genealogies.go:157-179 | After a served visibility change, someone without a row is shown the genealogy exactly if the visibility asked for lets them. |
| GenealogyOutcomes.RemovalTakesHold | internal/service/genealogies.go:281-315 | After a served removal or leave, the former member is shown the genealogy only as far as its visibility goes. |
| GenealogyOutcomes.GrantTakesHold | internal/service/genealogies.go:238-245 | After a served grant, the member is shown the genealogy with the role granted. |
| GenealogyOutcomes.DeletionTakesHold | internal/service/genealogies.go:206-215 | After a served deletion nobody is shown the genealogy. |
| GenealogyOutcomes.CreateThenDelete | internal/service/genealogies.go:34-217 | Deleting what was just created is served and restores records, memberships, bans and every counter. |
| GenealogyOutcomes.BanThenUnban | internal/service/genealogies.go:319-343 | Lifting a ban just set is served and leaves the bans as they were without it. |
| GenealogyService.ListingAgreesWithResolve | internal/service/genealogies.go:84-129 | If no member subject extends the caller's by a slash, the listing is exactly the Public genealogies and the caller's own, and each role shown is the one Resolve gives. |
| GenealogyService.ListingIsExactIff | internal/service/genealogies.go:84-129 | The listed set is the promised one exactly when every genealogy with a member below the caller is visible to the caller anyway. |
| GenealogyService.RolesAreRightIff | internal/service/genealogies.go:99-112 | Every listing the code may produce shows the roles that Resolve gives exactly when every row met by the caller's scan of a live genealogy has the role Resolve gives the caller there. |
| GenealogyService.ListingShowsTooMuch | internal/service/genealogies.go:100-112 | A caller is listed the Private genealogy of a member below it, which Resolve refuses to the caller. |
| GenealogyService.ListingShowsTooMuchRightly | internal/service/genealogies.go:100-112 | On an Unlisted genealogy of a Contributor below the caller the roles shown are right although the set is not, so the two conditions are independent. |
| GenealogyService.ListingShowsWrongRole | internal/service/genealogies.go:100-112 | On a Public genealogy of a member below it, where the listed set is exact, the caller is shown Owner while Resolve gives Contributor. |
| GenealogyService.Service.CheckPrivateQuota | internal/quotas/quotas.go:57-69 | Exceeded exactly when a limit is set and the user's counter has reached it; one below it there is room. |
| GenealogyService.Service.CountOwners | internal/service/genealogies.go:375-384 | The counting loop over the scan returns the number of Owner strings under the prefix, which for a slash-free id is the number of distinct Owners, none missed or counted twice. |
| GenealogyService.Service.IsLastOwner | internal/service/genealogies.go:302-311 | The guard of removing and leaving holds exactly for an Owner row when at most one Owner is found. |
| GenealogyService.Service.Authorize | internal/service/genealogies.go:363-373 | The decision a handler works with is the uncached one, and the invariant survives the cache write. |
| GenealogyService.Service.WriteNew | internal/service/genealogies.go:64-78 | Record, Owner row, counter and invalidation together are the effect of a creation. |
| GenealogyService.Service.WriteVisibility | internal/service/genealogies.go:169-179 | Record, counter move on a transition, and the wildcard invalidation together are the effect of a visibility change. |
| GenealogyService.Service.EraseGenealogy | internal/service/genealogies.go:198-215 | Rows, record, counter and the wildcard invalidation together are the effect of a deletion. |
| GenealogyService.Service.WriteMember | internal/service/genealogies.go:238-245 | Row and invalidation together are the effect of a grant; an empty subject is refused and changes nothing. |
| GenealogyService.Service.EraseMember | internal/service/genealogies.go:281-284 | Both index strings and the cached decision go, for any id; for a slash-free id that is the effect of a removal. |
| Records.TrimSpaceMeans | internal/service/genealogies.go:39-39 | Trimming a name or a subject cuts white space at both ends, all of it, and nothing else. |
| GenealogyService.Service.CreateGenealogy | internal/service/genealogies.go:34-82 | The sequence of store writes, counter increment and invalidation is the atomic request on tables and cache; the invariant holds after it. |
| GenealogyService.Service.UpdateVisibility | internal/service/genealogies.go:146-181 | Refinement of the atomic visibility change, whose outcome VisibilityOutcome states; the quota holder is the creator and the counter moves only on transitions into or out of Private. |
| GenealogyService.Service.DropAllMembers | internal/service/genealogies.go:198-208 | Collecting subjects first and deleting row by row removes all the genealogy's memberships and no other row. |
| GenealogyService.Service.DeleteGenealogy | internal/service/genealogies.go:184-217 | Refinement of the atomic deletion; the tenant's entry is taken out of the manager's list and its handle closed once, also when a disk error then stops the deletion before any table changes; on any other refusal the manager is untouched. |
| GenealogyService.Service.UpsertMembership | internal/service/genealogies.go:221-247 | Refinement of the atomic grant, all refusals in the code's order. |
| GenealogyService.Service.RemoveMember | internal/service/genealogies.go:251-286 | Refinement of the atomic removal, whose outcome RemovalOutcome states; an absent row is success, the last Owner is refused. |
| GenealogyService.Service.RemoveTarget | internal/service/genealogies.go:260-285 | What follows the role check of a removal: only an Owner may remove an Owner, and never the last one. |
| GenealogyService.Service.LeaveGenealogy | internal/service/genealogies.go:290-317 | On the strings of the database for any id, and for a slash-free id the refinement of atomic leaving, which consults no authorization. |
| SlashedIds.SlashedLeaveHitsAnother | internal/service/genealogies.go:295-312 | From every state, leaving with a slash in the id changes nothing or takes away the forward row of another member of another genealogy; that member's reverse row stays unless the two reverse keys are the same string. |
| SlashedIds.SlashedLeaveTears | internal/service/genealogies.go:295-312 | It happens: leaving "g/x" as `sub` removes the forward row of a member "x/sub" of `g` who is not an Owner. |
| SlashedIds.PlainLeaveErasesOwnRow | internal/service/genealogies.go:290-317 | For an id without a slash, leaving answered Done leaves a database without the caller's row in either index and otherwise the same. |
| GenealogyService.Service.Ban | internal/service/genealogies.go:319-332 | Refinement of the atomic ban; the cache is not touched beyond the authorization. |
| GenealogyService.Service.Unban | internal/service/genealogies.go:334-343 | Refinement of the atomic unban. |
| GenealogyService.Service.GetGenealogy | internal/service/genealogies.go:132-143 | Shows record and role exactly when the caller has a role; changes no table. |
| GenealogyService.Service.ListMemberships | internal/service/genealogies.go:99-112 | The first loop lists each genealogy met by the caller's scan once, with the role of a row that was met. |
| GenealogyService.Service.ListGenealogies | internal/service/genealogies.go:87-129 | Each genealogy that is Public or met by the caller's scan appears once and no other does; Public ones without a met row show the implicit role. |
| Staleness.RunIsHonest | internal/authz/resolver.go:65-111 | In every interleaving, each decision handed out or cached is the one supported by the store at the two moments it was read. |
| Staleness.RunSettles | internal/authz/resolver.go:169-180 | After an invalidation, only calls it caught in flight can still carry reads from before the change, and an old cached decision expires within one TTL of the present. |
| Staleness.RunStaysSettled | internal/authz/resolver.go:153-180 | Once those calls have finished nothing old is in flight again, and an old cached decision expires within one TTL of that moment. |
| Staleness.OwnReadsAreLater | internal/authz/resolver.go:70-87 | A call that missed the cache uses only reads it made itself, after it began. |
| Staleness.BoundedStaleness | internal/authz/resolver.go:65-88 | A call that begins more than one TTL after the last call caught by the invalidation has finished is decided by reads made after the change. |
| Staleness.HitsDoNotExtend | internal/authz/resolver.go:153-167 | A hit never changes an entry or its expiry; only invalidations and calls with reads of their own change the cache. |
| Staleness.OldDecisionCanReturn | internal/authz/resolver.go:169-180 | A seven-step interleaving in which, after change and invalidation, a new call is let in although the store no longer supports it. |
| Staleness.OldDecisionReturnsIff | internal/authz/resolver.go:65-88 | Right after an invalidation, some continuation lets a new call in on a read from before the change exactly when a call in flight holds such a read and can still turn it into a stored decision. |
| Staleness.UninterruptedIsResolve | internal/authz/resolver.go:65-88 | The steps of a call that nothing interrupts give the answer and the cache of the sequential Resolve, with the clock read at the lookup and at the write. |
| GenealogyService.Service.Accept | internal/service/proposals.go:143-181 | With nothing beside it, Accept succeeds exactly when the caller has a Curator or Owner row, the store opens, the proposal is found, the engine accepts and a person-creating proposal finds room; the person counter moves by one exactly then, and the invariant of the service stays. |
| PersonQuota.StepKeepsInv | internal/service/proposals.go:167-179 | Counter plus handlers past the check stays within limit + k - 1, whichever step is taken. |
| PersonQuota.StepIsOwn | internal/service/proposals.go:167-179 | A step leaves all other handlers where they are, and only an increment moves the counter, by one. |
| PersonQuota.StepLeads | internal/service/proposals.go:167-179 | The check stops a handler exactly at the cap, the engine's refusal ends it, and the increment is its last step. |
| PersonQuota.CounterBound | internal/service/proposals.go:154-179 | From any state within the bound, every interleaving of at most k handlers keeps the person counter within limit + k - 1. |
| PersonQuota.NeverMoreThan | internal/service/proposals.go:154-179 | In every interleaving from the start the counter never exceeds limit + k - 1; never the limit for k = 1. |
| PersonQuota.BoundIsReached | internal/service/proposals.go:154-155 | For every limit and every k there is a run that ends with the counter at limit + k - 1. |
| TenantCore.NewManager | internal/tenants/manager.go:56-69 | A manager is made exactly when a root is given and at least one handle may be open. |
| TenantCore.Manager.constructor | internal/tenants/manager.go:63-68 | A new manager is empty, open, and its index agrees with its list. |
| TenantCore.Manager.Begin | internal/tenants/manager.go:81-98 | First critical section: shutdown, hit moved to the front, wait on the current load, or claim of a new one; list and index stay in agreement. |
| TenantCore.Manager.Finish | internal/tenants/manager.go:102-110 | Second critical section: publishes the result, ends the load, installs on success only; it panics exactly when a successful open meets the nil index. |
| TenantCore.Manager.InstallLocked | internal/tenants/manager.go:129-140 | Puts the new entry first, or, for an id already listed, keeps the old handle and closes the new one; panics exactly on the nil index. |
| TenantCore.Manager.EvictLocked | internal/tenants/manager.go:143-154 | The loop keeps the most recent entries that fit and closes each of the others once. |
| TenantCore.PopThenEvict | internal/tenants/manager.go:144-153 | One turn of the evicting loop does not change what the whole eviction results in. |
| TenantCore.Manager.DropId | internal/tenants/manager.go:159-170 | The id is no longer listed, the other entries are as before and in order, its handle has been closed once more and no other has; nothing changes if it was not listed. |
| TenantCore.DropMeans | internal/tenants/manager.go:162-169 | The same of the specification, for every list without repeated ids. |
| TenantCore.Manager.CloseAll | internal/tenants/manager.go:181-197 | Closes every cached handle once and leaves the list empty and the index nil; a second call changes nothing. |
| TenantCore.Manager.Len | internal/tenants/manager.go:201-205 | Between critical sections the list and the index have the same number of entries, at most MaxOpen, and that is what is reported. |
| TenantRecency.RecencyIsOrderOfLastUse | internal/tenants/manager.go:35-35 | The recency list of a history has each touched id once, in decreasing order of its last touch. |
| TenantRecency.TouchIsRecency | internal/tenants/manager.go:86-87 | Touching a list cut to the capacity gives the cut list of the longer history: what was evicted never matters. |
| TenantRecency.HitIsTouch | internal/tenants/manager.go:86-90 | A hit is a touch of the recency list. |
| TenantRecency.InstallIsTouch | internal/tenants/manager.go:136-154 | An install with its evictions is a touch of the recency list. |
| TenantRecency.SequentialCacheIsRecency | internal/tenants/manager.go:76-113 | After any sequence of successful Gets the cache holds the most recently asked distinct ids, as many as fit, in order. |
| TenantRecency.LargerCacheIsNoWorse | internal/tenants/manager.go:26-28 | Over the same requests a larger MaxOpen always caches what a smaller one does, as a prefix, and has opened no more often. |
| TenantProtocol.StepKeepsInv | internal/tenants/manager.go:76-197 | Every atomic step of every thread keeps list, load and handle invariants. |
| TenantProtocol.RunKeepsInv | internal/tenants/manager.go:76-197 | They hold in every state of every interleaving; in particular loading ids and cached ids are disjoint, and each loading id has exactly one loader. |
| TenantProtocol.HandleConservation | internal/tenants/manager.go:100-197 | In every interleaving each opened handle is exactly one of awaiting install, cached, or closed once; at most MaxOpen are cached; after Close every handle has been closed exactly once. |
| TenantProtocol.OpensAreExclusive | internal/tenants/manager.go:46-47 | When a thread starts to open an id, nobody else is opening it and every handle ever opened for it has been closed. |
| TenantProtocol.OpenDeliversTheOnlyHandle | internal/tenants/manager.go:100-100 | When an open delivers its handle, outside the lock, nobody else is opening the id and every earlier handle of it has been closed. |
| TenantProtocol.NoRaceAtPublish | internal/tenants/manager.go:129-135 | A publishing thread's load is the current one, no entry of its id has appeared, and if it has a handle to install, that handle is nowhere else and the index is not nil. |
| TenantProtocol.PublishInstalls | internal/tenants/manager.go:102-140 | In every run an install takes the main branch, goes to the front, does not evict its own handle and never writes a nil index. |
| TenantProtocol.HitsAreOpen | internal/tenants/manager.go:86-90 | A caller answered from the list gets a handle that is open and was opened for its id. |
| TenantProtocol.PublishedOnce | internal/tenants/manager.go:103-105 | The result of a load never changes after it is published. |
| TenantProtocol.SameLoadSameOutcome | internal/tenants/manager.go:91-113 | The opener and all waiters of one load, whenever they return, get the same handle or the same failure. |
| TenantProtocol.EveryoneGetsTheirOwnStore | internal/tenants/manager.go:71-113 | In every interleaving, whoever gets a handle, by a hit, by opening or by waiting, gets one that was opened for the id it asked for. |
| TenantProtocol.ListIsRecency | internal/tenants/manager.go:86-90 | Without drops and until Close, in every interleaving, the list is exactly the most recently touched distinct ids, as many as fit. |
| TenantProtocol.CloseCrashesIff | internal/tenants/manager.go:181-197 | Some continuation of a Close writes to the nil index exactly when the Close found a thread that is opening a store or has opened one and not yet installed it; a thread whose open failed does no harm. |
| TenantOutcomes.CallOutcome | internal/tenants/manager.go:76-98 | In every interleaving, also while other ids load: a caller gets the listed handle at once exactly if its id is listed, waits on the very load in progress exactly if there is one, opens exactly if neither holds, and is turned away exactly if the manager is shut; a hit moves to the front, a claim adds a load, and nothing else changes. |
| TenantOutcomes.OpenOutcome | internal/tenants/manager.go:100-100 | A successful open gives its thread a handle that never existed before; list and loads do not change. |
| TenantOutcomes.PublishOutcome | internal/tenants/manager.go:102-112 | The loader returns what it opened, or the failure; the load is over and published; what was opened goes first, the others keep their order, and only the last of a full list is closed; after a failure the list is as before. |
| TenantOutcomes.WakeOutcome | internal/tenants/manager.go:93-94 | A waiter returns the published result of the load it waited for. |
| TenantOutcomes.LoadIsDelivered | internal/tenants/manager.go:91-113 | What a loader opened it returns, and so does everyone who waited for that load, however much later they wake. |
| TenantOutcomes.NoWaiterIsStranded | internal/tenants/manager.go:91-106 | In every reachable state a waiter can be woken at once or waits for a load whose thread is alive and can take its next step. |
| TenantOutcomes.DropOutcome | internal/tenants/manager.go:159-170 | In every run a drop takes the entry out, closes its handle for the first and only time, and leaves other entries, loads and threads alone. |
| TenantOutcomes.CloseOutcome | internal/tenants/manager.go:181-197 | In every run a close empties the list and closes each listed handle, and no other, for the first and only time; a second close changes nothing. |
| TenantOutcomes.LostRaceOutcome | internal/tenants/manager.go:130-135 | Were the id listed at an install, the listed handle would stay, at the front, and the new one be closed. |

## Left out

- Generated protocol code, the HTTP gateway, server wiring, configuration, logging and error-code mapping: input and output plumbing.
- Linea-core (governance engine, queries, graph store): its source is not part of the repository; acceptance and opening are arbitrary answers here.
- The proposal lifecycle apart from Accept's quota, BulkReject, and the entity and query handlers: thin wrappers over Linea-core.
- OIDC token verification and role claims: foreign code and small tables.
- JSON encoding, Badger transactions and storage failures: a transaction is one update of a map with typed values.
- Floating-point rounding in the limiter, the ticker goroutine and AlwaysAllow: reals are exact, a tick is an event at any time.
- User records (PutUser, GetUser, EnsureUser), ListMembers and SetPersonCount: they would only add easy members; the user table is part of the represented tables.
- Response payloads beyond record and role, and error texts: each refusal is a named reason instead.
- GenealogyService.Service.Accept: whether the tenant's store opens, the proposal and the engine's answer are parameters.
- Deletion of the tenant's directory racing a reopen, and membership edits running at the same time as each other: the code gives no guarantee.
- PlatformStore.Store.PutMembership: with a slash in the genealogy id only the strings are stated, as for GetMembership, DeleteMembership, PutBan, IsBanned, DeleteBan and IterateMembers; the tables are not independent there (SlashedIdsCollide).
- PlatformStore.Store.PutGenealogy: an invalid visibility cannot be expressed by the type, so that refusal is not modelled.
- PlatformStore.Store.ScanPrefix: the order of the scan is left open, and decoding cannot fail.
- TenantCore.Manager.Finish: nothing is stated of the state after a panic, since the process is gone.
- TenantCore.Manager.Begin: an empty id is rejected before the lock, in TenantProtocol.NextCall; list elements are positions and handles are numbers.
- Staleness.BoundedStaleness: the state is that of one subject and genealogy; entries of other pairs share nothing with it but the lock.
