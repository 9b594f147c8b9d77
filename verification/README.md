# HookuBit control API: a verified model

Dafny models of the parts of the HookuBit control API (`apps/control-api`) where a mistake is costly:
payload previews, signing-secret rotation and member roles under the retrying transaction runner, tenant
isolation, paging and grouping, throttling, hourly usage, replay, endpoint status, address parsing, chart
buckets, alert mail and bounded concurrency. Each module holds a model of one component and the proofs of
what that component promises. `dafny verify dfyconfig.toml` checks everything.

| files | what they hold |
|---|---|
| `Domain` | optional values, error codes and the two status columns |
| `Utf8`, `Utf16`, `Base64`, `Payload` | sections 3 and 4 of RFC 3629, JavaScript strings, section 4 of RFC 4648, and the payload shown to a reader |
| `Secrets`, `SecretsService` | the secrets table: rotation and revocation as functions of the table, and as the statements the service runs |
| `Roles` | the role lattice and the checks on a role change and a removal |
| `Runner`, `RunnerSafety`, `RunnerTheorems`, `RunnerSigning`, `RunnerAnswers`, `Retry` | any number of transactions interleaved with writers outside the runner; invariants of every run; when an endpoint can sign; what each request answers; the retry loop |
| `Tenancy`, `TenancyProofs`, `TenancyCalls`, `TenantRepository` | ownership chains over eight tables, one per scope kind; the write guards; isolation between organizations; what each call does row by row |
| `Paging`, `Rollup` | pages with a probe row, the keyset walk, the 200-group loop and the rollup of an event |
| `Throttle` | the fixed-window store with its lazy sweep, and the guard |
| `Usage` | hourly rollups against the raw ledger |
| `Replay`, `ReplayProofs` | the append-only delivery ledger |
| `Endpoints`, `EndpointAnswers`, `AutoDisable` | endpoint status, what each request answers, with a sweep that operators may interrupt, and a pass run alone |
| `Ipv6`, `Ipv6Sound`, `Cidr`, `Literals` | address literals, block membership, the refused IPv4 ranges and the IPv4 address an IPv6 one carries |
| `Series` | windows, the default bucket and the planned buckets |
| `Alerts`, `AlertRows` | grouping, quiet hours and occurrence counts |
| `Workers` | a map with a ceiling on how many calls run at once |

Where the source changes things in place the model is a class or a method with a loop, proved against a
function of the old state; what the source promises is then proved of that function over every input or
every run. Instants are integers in milliseconds. Identifiers are integers, or strings where their text
matters.

Assumptions the theorems rest on:

- A transaction at SERIALIZABLE that reads rows a later commit changes may not commit (`Runner.Doom`);
  writers outside the runner (first secrets, invitations, endpoint status) do not abort anybody.
- Clock readings of one run never go backwards.
- A ledger row is stamped with the instant it is inserted.
- A request context is one the tenant resolver builds: its project belongs to its organization.
- Operator steps on an endpoint are atomic; a sweep's read and its updates may be split by them.

Where the code and its own text disagree, the model follows the code:

- `endpoint-secrets.service.ts:44-45` says a live endpoint always has an active, unexpired secret. It has one
  when it goes live and at every secrets commit, but a revocation that is of the newest secret, or comes after
  one that was, leaves only secrets with an expiry, and time alone then silences the endpoint.
  `RunnerSigning.RevocationKeepsSigningIff` is the test a caller can make on the table beforehand,
  `RunnerSigning.RevocationDecides` the instant of silence read off that table, and
  `RunnerSigning.ActiveEndpointFallsSilent` a run.
- `usage-aggregator.service.ts:55` says a crash halfway loses nothing. The done test looks for any events
  record of the hour, so it does: `Usage.RepairedIff` gives the exact condition and
  `Usage.CrashHalfwayLosesARecord` an instance.
- `deliverable.ts:13-15` says an auto-disabled endpoint stays enabled. The sweep writes `enabled: false`,
  and `EndpointProofs.EveryRunIsTidy` has enabled exactly when active.
- `notification-dispatcher.service.ts:127-128` says the next message counts from zero. The counter restarts
  at one, so a message counts the send before it too: `Alerts.MessageCountIsExact`.
- `notification-rules.ts:56` says what quiet hours hold waits for the morning. Nothing sends it then: it is
  told of only by a later message, `Alerts.HeldIsToldIff`, and may never be, `Alerts.HeldAndNeverTold`.
- `endpoint-url.ts:124` names the 96-bit NAT64 prefix and tests its first 32 bits: `Literals.Nat64RefusedIff`
  holds whatever the eight bytes between are, and `Literals.Nat64BeyondThePrefix` is an address outside it.
- `analytics.service.ts:659` starts no worker for a limit below one and then returns empty slots:
  `Workers.FinishedIsComplete` says when the result is complete.

## Model

| member | source | states |
|---|---|---|
| Utf8.DecodeEncode | apps/control-api/src/events/event-payload.ts:72-77 | decoding undoes encoding for every sequence of scalar values, and every encoding is well formed |
| Utf8.RoundTripIffWellFormed | apps/control-api/src/events/event-payload.ts:72-77 | bytes survive decoding and re-encoding exactly when they match the grammar of section 4 of RFC 3629 |
| Base64.Base64RoundTrip | apps/control-api/src/events/event-payload.ts:72-77 | base 64 text gives back the bytes it was made from |
| Payload.DecodePayloadIsFaithful | apps/control-api/src/events/event-payload.ts:72-77 | the body is labelled UTF-8 exactly when the bytes are, and undoing the label returns the same bytes |
| Payload.DropPartialTrailingSequence | apps/control-api/src/events/event-payload.ts:208-241 | the backward loop computes the cut function |
| Payload.DropLeavesWholeCodePoints | apps/control-api/src/events/event-payload.ts:208-241 | cutting valid UTF-8 at any byte and dropping the partial tail leaves exactly the whole code points before the cut |
| Payload.EnoughWhole | apps/control-api/src/events/event-payload.ts:144-160 | 640 bytes hold at least 160 whole code points, and more bytes than that mean more than 160 code points |
| Payload.PreviewIsFirstChars | apps/control-api/src/events/event-payload.ts:258-286 | for every valid body of any length the preview is its first 160 code points, and truncated holds exactly when there are more |
| Payload.PreviewOfAnyRow | apps/control-api/src/events/event-payload.ts:188-286 | of any row the size is the recorded one; without its bytes there is no preview; with none nothing counts as truncated, and a preview of a body that was cut does |
| Payload.PreviewNeverInvents | apps/control-api/src/events/event-payload.ts:258-286 | a preview of any bytes, valid or not, re-encodes to a prefix of the body |
| Payload.NoPreviewOfInvalidBody | apps/control-api/src/events/event-payload.ts:258-286 | a body read whole has a preview exactly when it is valid UTF-8 |
| Payload.LongBodyHasPreviewIff | apps/control-api/src/events/event-payload.ts:208-286 | a longer body has a preview exactly when its first 640 bytes are UTF-8 up to a sequence they leave unfinished, whatever follows |
| Payload.InvalidBodyIsPreviewed | apps/control-api/src/events/event-payload.ts:258-286 | a body that is not UTF-8 in its 641st byte is still previewed |
| Secrets.RotateStaysTidy | apps/control-api/src/endpoint-secrets/endpoint-secrets.service.ts:178-268 | rotation keeps versions distinct and leaves only the newest row of an endpoint without an expiry |
| Secrets.RotateSignsForever | apps/control-api/src/endpoint-secrets/endpoint-secrets.service.ts:192-217 | one rotation makes the endpoint sign at every instant and leaves other endpoints' rows alone |
| Secrets.RevokeStaysTidy | apps/control-api/src/endpoint-secrets/endpoint-secrets.service.ts:270-319 | revocation keeps the table's invariants |
| Secrets.SurvivorIffStillSigns | apps/control-api/src/endpoint-secrets/endpoint-secrets.service.ts:278-308 | the survivor test holds exactly when the endpoint still signs after the revocation |
| SecretsService.StillSigningAfter | apps/control-api/src/endpoint-secrets/endpoint-secrets.service.ts:502-533 | the loop reports the versions that outlast the rotation and the last instant among them |
| SecretsService.OverlapIsExact | apps/control-api/src/endpoint-secrets/endpoint-secrets.service.ts:502-533 | that report is what the table left behind says: a prior secret signs at an instant exactly when it lies before the reported one |
| SecretsService.SecretTable.HighestVersion | apps/control-api/src/endpoint-secrets/endpoint-secrets.service.ts:536-583 | the reduce finds the highest version of the endpoint |
| SecretsService.SecretTable.InsertSecret | apps/control-api/src/endpoint-secrets/endpoint-secrets.service.ts:536-583 | the next version is inserted, or a taken key is a conflict and nothing changes |
| SecretsService.SecretTable.SweepExpired | apps/control-api/src/endpoint-secrets/endpoint-secrets.service.ts:585-602 | of the rows read when the transaction began, exactly those of the endpoint whose expiry has come are deactivated, whatever was written since |
| SecretsService.SecretTable.Rotate | apps/control-api/src/endpoint-secrets/endpoint-secrets.service.ts:178-268 | when it succeeds, what it writes, which error it ends in otherwise, and which prior versions still sign until when |
| SecretsService.SecretTable.Revoke | apps/control-api/src/endpoint-secrets/endpoint-secrets.service.ts:270-319 | refused for an absent endpoint or secret and when it would leave a live endpoint silent; a refusal changes nothing |
| SecretsService.StatementsRotate | apps/control-api/src/endpoint-secrets/endpoint-secrets.service.ts:192-217 | insert, expiry update and sweep together are one rotation |
| Roles.LatticeIsExact | apps/control-api/src/authz/permissions.ts:253-354 | a role change or removal passes exactly when the actor is an owner, or an admin with no owner role involved, is not the target, and an owner remains |
| Roles.RefusalIsExact | apps/control-api/src/authz/permissions.ts:253-354 | a refusal is a conflict exactly when only the last owner stands against it, and forbidden otherwise |
| Retry.RunWithRetries | apps/control-api/src/organizations/tenant-transaction.ts:175-204 | only serialisation failures are retried, at most four attempts run, and the fourth failure is a conflict |
| RunnerSafety.RotateCommit | apps/control-api/src/endpoint-secrets/endpoint-secrets.service.ts:178-268 | a rotation that may commit rotates the table as it is at commit, keeps it tidy and leaves a signer |
| RunnerSafety.RevokeCommit | apps/control-api/src/endpoint-secrets/endpoint-secrets.service.ts:270-319 | a revocation that may commit revokes in the table as it is at commit and leaves a signer unless the endpoint is deleted |
| RunnerSafety.MembersCommit | apps/control-api/src/members/members.service.ts:265-352 | a role change that may commit leaves exactly the target with the new role, a removal everybody but the target, and either leaves every organization an owner |
| RunnerSafety.MintKeeps | apps/control-api/src/endpoint-secrets/endpoint-secrets.service.ts:329-349 | a first secret minted outside the runner keeps the invariants and every open transaction's reads valid |
| RunnerSafety.StepKeeps | apps/control-api/src/organizations/tenant-transaction.ts:175-204 | every step of every party keeps the invariant of the whole system |
| RunnerTheorems.EveryRunKeepsInv | apps/control-api/src/organizations/tenant-transaction.ts:175-204 | every interleaving of any number of requests keeps the invariant |
| RunnerTheorems.EveryCommitLeavesASigner | apps/control-api/src/endpoint-secrets/endpoint-secrets.service.ts:178-319 | in every run each secrets commit leaves a non-deleted endpoint an active unexpired secret at that commit's own instant, with versions distinct |
| RunnerTheorems.OnlyCommitsWrite | apps/control-api/src/organizations/tenant-transaction.ts:175-204 | an attempt that is refused, aborted or given up leaves every table unchanged |
| RunnerTheorems.FourAttemptsAtMost | apps/control-api/src/organizations/tenant-transaction.ts:175-204 | attempts are numbered one to four, and an abort of the fourth ends in a conflict |
| RunnerTheorems.RunsAreSerial | apps/control-api/src/organizations/tenant-transaction.ts:175-204 | with only the runner writing, any interleaving ends in the tables the committed requests give one after another |
| RunnerTheorems.OwnersNeverRunOut | apps/control-api/src/members/members.service.ts:265-434 | an organization with an owner keeps one in every run, even with stale actor roles |
| RunnerTheorems.OwnershipIsClosed | apps/control-api/src/organizations/user-scope.ts:348-419 | in a run whose actors and inviters all rank below owner the set of owners never changes |
| RunnerSigning.StepHas | apps/control-api/src/endpoint-secrets/endpoint-secrets.service.ts:178-349 | whatever step any party takes, secrets change only by a first mint into an empty set, a logged rotation of the table as it then is, or a logged revocation of a row that is there |
| RunnerSigning.LivesNeverLengthen | apps/control-api/src/endpoint-secrets/endpoint-secrets.service.ts:192-217 | between any two points of any run no secret is lost, changes version or comes to sign at an instant at which it did not sign |
| RunnerSigning.SurvivorsHaveTheLastWord | apps/control-api/src/endpoint-secrets/endpoint-secrets.service.ts:278-308 | from any reachable state whose newest secret is revoked, until a rotation commits, the endpoint signs at most until its survivors' last expiry, and exactly until then if nothing more of it is revoked |
| RunnerSigning.SignsForeverIffUnrevoked | apps/control-api/src/endpoint-secrets/endpoint-secrets.service.ts:37-57 | over every run an endpoint signs at every instant exactly when no commit revoked its newest secret, which is also exactly when that secret is active |
| RunnerSigning.RevocationKeepsSigningIff | apps/control-api/src/endpoint-secrets/endpoint-secrets.service.ts:270-319 | a committed revocation leaves its endpoint signing at every instant, until the next commit about it, exactly when it revokes another than the newest secret and finds that one active |
| RunnerSigning.RevocationDecides | apps/control-api/src/endpoint-secrets/endpoint-secrets.service.ts:270-319 | otherwise the endpoint signs exactly until the last expiry among the other active secrets of the table the revocation found |
| RunnerSigning.SilentIffSilenced | apps/control-api/src/endpoint-secrets/endpoint-secrets.service.ts:37-57 | in every reachable state an endpoint with secrets cannot sign at an instant exactly when the last commit about it was such a revocation and that expiry has come |
| RunnerSigning.UnrevokedSignsForever | apps/control-api/src/endpoint-secrets/endpoint-secrets.service.ts:178-268 | in every run an endpoint with a secret and no committed revocation signs at every instant |
| RunnerSigning.GoesActiveSigning | apps/control-api/src/endpoints/endpoints.service.ts:203-379 | any step that puts an endpoint in service leaves it a secret that signs at that moment |
| RunnerSigning.ActiveWasVouchedFor | apps/control-api/src/endpoint-secrets/endpoint-secrets.service.ts:37-57 | over every run an active endpoint could sign when it went active and at every secrets commit since, each at its own instant |
| RunnerSigning.ActiveIsSilentIffSilenced | apps/control-api/src/endpoint-secrets/endpoint-secrets.service.ts:37-57 | the same of an active endpoint at the present clock |
| RunnerSigning.ActiveEndpointFallsSilent | apps/control-api/src/endpoint-secrets/endpoint-secrets.service.ts:37-57 | for every overlap there is such a run: created live, rotated, the new secret revoked, then only time passes |
| RunnerTheorems.ReadCommittedLosesTheOwners | apps/control-api/src/members/members.service.ts:265-309 | the same two demotions at READ COMMITTED leave the organization without an owner |
| RunnerAnswers.RotateAnswers | apps/control-api/src/endpoint-secrets/endpoint-secrets.service.ts:178-268 | run alone, a rotation is a 404 for an absent endpoint, a conflict for a deleted one, and for every other commits the rotated table |
| RunnerAnswers.RevokeAnswers | apps/control-api/src/endpoint-secrets/endpoint-secrets.service.ts:270-319 | run alone, a revocation is a 404 for an absent endpoint or a secret not its own, a conflict exactly when a live endpoint could no longer sign, and otherwise commits |
| RunnerAnswers.ChangeRoleAnswers | apps/control-api/src/members/members.service.ts:265-309 | run alone, a role change commits exactly that change, or is a 404, forbidden by rank, or a conflict when no owner would remain |
| RunnerAnswers.RemoveMemberAnswers | apps/control-api/src/members/members.service.ts:311-352 | run alone, a removal leaves everybody but the target, or is refused under the same conditions |
| RunnerAnswers.RedemptionAnswers | apps/control-api/src/organizations/user-scope.ts:372-419 | a redemption adds exactly the membership it grants, once, and only while its inviter is a member who may grant it |
| RunnerAnswers.MintAnswers | apps/control-api/src/endpoints/endpoints.service.ts:203-284 | the first secret of an endpoint that has none is version one and takes it live when it may be handed over; otherwise the endpoint ends deleted |
| TenancyProofs.InTenantIsFence | apps/control-api/src/authz/tenant-scope.ts:37-81 | the predicate of each of the eight scope kinds is one step up the row's ownership chain |
| TenancyProofs.ReachedIsOwned | apps/control-api/src/authz/tenant-scope.ts:366-373 | every row a context reaches belongs to its organization |
| TenancyProofs.ReadsStayInside | apps/control-api/src/authz/tenant-scope.ts:366-373 | a read returns exactly the rows of its table inside the fence that satisfy the caller's filter, all owned by the caller's organization |
| TenancyProofs.ReadsRevealNothing | apps/control-api/src/authz/tenant-scope.ts:366-373 | a read whose filter looks only at the caller's own rows selects the same rows, with the same contents, in any two databases that agree on them |
| TenancyProofs.KeysAreOwned | apps/control-api/src/authz/tenant-scope.ts:751-774 | the foreign key check passes exactly when every declared key names a row inside the tenant |
| TenancyProofs.UpdateStaysInside | apps/control-api/src/authz/tenant-scope.ts:645-683 | a row updated through the guards stays inside the tenant |
| TenancyProofs.CreateStaysInside | apps/control-api/src/authz/tenant-scope.ts:595-643 | a row created through the guards is inside the tenant |
| TenancyProofs.CallStaysInside | apps/control-api/src/authz/tenant-scope.ts:595-774 | every row a call writes was and is inside the caller's tenant, and so is every declared key it writes |
| TenancyProofs.NonInterference | apps/control-api/src/authz/tenant-scope.ts:37-124 | whatever sequence of calls one organization makes, a context of another sees exactly the rows it saw |
| TenancyProofs.EmptyFilterConstrainsNothing | apps/control-api/src/authz/tenant-scope.ts:790-802 | a filter the bulk guard calls empty treats every row alike |
| TenancyCalls.EmptyIffNoCondition | apps/control-api/src/authz/tenant-scope.ts:790-802 | the bulk guard calls a filter empty exactly when it holds no condition at any depth |
| TenancyCalls.FiltersAreBoolean | apps/control-api/src/authz/tenant-scope.ts:366-368 | filters combine as boolean conditions do |
| TenancyCalls.DeleteManyIs | apps/control-api/src/authz/tenant-scope.ts:690-697 | a bulk delete takes exactly the rows of its table inside the fence that satisfy the filter; one without a condition is refused |
| TenancyCalls.DeleteByIdIs | apps/control-api/src/authz/tenant-scope.ts:685-688 | a delete by id takes that row and no other, or is a 404 for a row outside the fence |
| TenancyCalls.UpdateAcceptedIff | apps/control-api/src/authz/tenant-scope.ts:708-774 | a payload is accepted exactly when its columns are known and writable and its keys name rows of the tenant |
| TenancyCalls.UpdateManyIs | apps/control-api/src/authz/tenant-scope.ts:660-683 | a bulk update gives its payload to exactly the rows inside the fence that satisfy the filter, and every other row is as it was |
| TenancyCalls.UpdateByIdIs | apps/control-api/src/authz/tenant-scope.ts:645-659 | an update by id gives its payload to that row and no other, or is a 404 for a row outside the fence |
| TenancyCalls.CreateIs | apps/control-api/src/authz/tenant-scope.ts:595-643 | a create adds one row, of the payload's entries and the context's own tenancy columns, and changes nothing else |
| TenantRepository.Sanitize | apps/control-api/src/authz/tenant-scope.ts:708-749 | the loop drops undefined entries and refuses a payload with a forbidden one |
| TenantRepository.Store.AssertForeignKeysOwned | apps/control-api/src/authz/tenant-scope.ts:751-774 | the loop ends in the first offending key's error, and in none exactly when all keys are owned |
| TenantRepository.Store.CreateRow | apps/control-api/src/authz/tenant-scope.ts:595-643 | the insert, or its error with the tables unchanged; no context of another organization sees any difference |
| TenantRepository.Store.UpdateRows | apps/control-api/src/authz/tenant-scope.ts:645-683 | the update of the matched rows, or its error with the tables unchanged; no context of another organization sees any difference |
| TenantRepository.Store.DeleteRows | apps/control-api/src/authz/tenant-scope.ts:685-698 | a filter without a condition is refused; otherwise exactly the matched rows go, and no context of another organization sees any difference |
| Paging.PagesTile | apps/control-api/src/authz/tenant-scope.ts:383-405 | following the next offset visits every row once, and has-more holds exactly when rows remain |
| Paging.PageLength | apps/control-api/src/authz/tenant-scope.ts:383-405 | a page holds the rows asked for, fifty by default and one to two hundred at most, or what is left |
| Paging.ForEachPage | apps/control-api/src/authz/tenant-scope.ts:450-488 | wherever a finished walk exists, for a handler that inserts, updates and deletes as it likes, the loop ends, is that walk and counts what it handed over |
| Paging.FinitelyManyIdsEnd | apps/control-api/src/authz/tenant-scope.ts:450-488 | any walk can be carried on to a finished one while the ids that ever enter the table are finitely many |
| Paging.EndlessInsertsNeverEnd | apps/control-api/src/authz/tenant-scope.ts:450-488 | a handler that keeps adding greater ids gives a loop of which no walk is finished |
| Paging.WalkIncreases | apps/control-api/src/authz/tenant-scope.ts:450-488 | the ids handed over strictly increase, so none is handed over twice |
| Paging.WalkIsExhaustive | apps/control-api/src/authz/tenant-scope.ts:450-488 | whatever the handler does, each row has one turn and is handed over, once, exactly when it matches at that turn |
| Rollup.GroupsCount | apps/control-api/src/authz/tenant-scope.ts:516-534 | the grouped query has one ordered group per event and status with its exact count |
| Rollup.GroupBy | apps/control-api/src/authz/tenant-scope.ts:516-534 | an explicit take slices, and without one a result past the cap is an error |
| Rollup.EmptyCounts | apps/control-api/src/events/delivery-rollup.ts:98-102 | all nine counts are there and zero |
| Rollup.RollUp | apps/control-api/src/events/delivery-rollup.ts:71-95 | the total is succeeded, failed, in flight and cancelled together, and the whole rollup is the one read straight off the event's deliveries |
| Rollup.CountPage | apps/control-api/src/events/events.service.ts:116-140 | paging 200 groups at a time gives every event of the page its true nine counts |
| Rollup.RollUpDeliveries | apps/control-api/src/events/events.service.ts:108-145 | every event of the page, and no other, gets the rollup of its own deliveries |
| Throttle.SpanAdmitsTwiceTheLimit | apps/control-api/src/common/throttle.store.ts:40-53 | any span of one window length, open at its end, admits at most twice the limit on a key, and one less where every window on record has been hit |
| Throttle.BoundIsMet | apps/control-api/src/common/throttle.store.ts:40-53 | for every limit and window there is a run that reaches that bound |
| Throttle.ClosedSpanAdmitsTwiceTheLimit | apps/control-api/src/common/throttle.store.ts:18-53 | with both ends counted, any span of one window length admits at most twice the limit on a key, from any state |
| Throttle.ClosedBoundIsMet | apps/control-api/src/common/throttle.store.ts:18-53 | for every limit and window twice the limit is reached across one boundary, from an empty store |
| Throttle.GuardAdmitsTwiceTheLimit | apps/control-api/src/common/throttle.guard.ts:70-93 | the same bound on the requests the guard lets through on an enforced bucket |
| Throttle.HitAgrees | apps/control-api/src/common/throttle.store.ts:40-53 | a hit on a swept table gets the answer of the never-swept one, and the two still agree |
| Throttle.InMemoryThrottleStore.MaybeSweep | apps/control-api/src/common/throttle.store.ts:59-66 | every thousandth call drops exactly the closed windows |
| Throttle.InMemoryThrottleStore.HitKey | apps/control-api/src/common/throttle.store.ts:40-53 | the answer is that of a store that never sweeps |
| Throttle.InMemoryThrottleStore.Reset | apps/control-api/src/common/throttle.store.ts:55-57 | only the key's window goes |
| Throttle.RunStore | apps/control-api/src/common/throttle.store.ts:35-67 | a whole run of hits gets the answers of a store that never sweeps |
| Throttle.Exceeded | apps/control-api/src/common/throttle.guard.ts:86-90 | none is over exactly when the request passes, and the instant reported is the latest end of an exceeded window |
| Throttle.CanActivate | apps/control-api/src/common/throttle.guard.ts:70-93 | every bucket is charged, the request passes exactly when no enforced bucket is over, and the wait is the least number of whole seconds, at least one, that outlasts every exceeded window |
| Usage.SweepTwice | apps/control-api/src/maintenance/usage-aggregator.service.ts:65-88 | a repeated pass changes nothing, whatever was recorded meanwhile in the hour it runs in |
| Usage.EveryRunIsExact | apps/control-api/src/maintenance/usage-aggregator.service.ts:65-199 | with passes at most 48 hours apart, between the first lookback and the latest pass every record is the ledger's count and nothing else is recorded |
| Usage.CountIsDirect | apps/control-api/src/maintenance/usage-aggregator.service.ts:119-173 | the grouped count of an hour is that of its event rows, of all its delivery rows, or of its replayed ones |
| Usage.BilledIsDirect | apps/control-api/src/maintenance/usage-aggregator.service.ts:119-199 | hourly records that are exact add up to the direct count of any whole-hour range |
| Usage.BillsAreTrue | apps/control-api/src/maintenance/usage-aggregator.service.ts:65-199 | over every such run the bill of any whole-hour range is its event rows, its delivery rows with the replayed ones among them, and those again as replays, per project; replays never exceed deliveries |
| Usage.CurrentHourIsUnwritten | apps/control-api/src/maintenance/usage-aggregator.service.ts:97-117 | in every run, however far apart its passes, no record of the current hour or a later one is written |
| Usage.RepairedIff | apps/control-api/src/maintenance/usage-aggregator.service.ts:102-107 | a pass cut short inside an hour is made good by the next exactly when nothing, or everything, of it was written or it had no events |
| Usage.NeverMadeGood | apps/control-api/src/maintenance/usage-aggregator.service.ts:102-116 | otherwise the hour stays wrong whatever passes follow |
| Usage.CrashHalfwayLosesARecord | apps/control-api/src/maintenance/usage-aggregator.service.ts:53-57 | a crash after one of two records leaves the hour wrong, whatever passes follow |
| Usage.UsageAggregator.PendingBuckets | apps/control-api/src/maintenance/usage-aggregator.service.ts:97-117 | the pending hours, oldest first and at most 48 |
| Usage.UsageAggregator.Fill | apps/control-api/src/maintenance/usage-aggregator.service.ts:119-173 | every record of the hour is upserted with its count |
| Usage.UsageAggregator.Sweep | apps/control-api/src/maintenance/usage-aggregator.service.ts:65-88 | the table becomes the swept one and the report counts its pending hours and the records written; a pass without the lock changes nothing, and none is ever truncated |
| Replay.OriginalFor | apps/control-api/src/events/events.service.ts:235-261 | found exactly when the endpoint is known and the event was routed to it; which error otherwise |
| ReplayProofs.OriginalsForIsWhole | apps/control-api/src/events/events.service.ts:277-308 | replay to all takes every original, and is refused exactly when there are none or more than fifty |
| ReplayProofs.RefusalIsOfTheFirst | apps/control-api/src/deliveries/delivery-replay.service.ts:221-246 | a replay is refused exactly when some endpoint is unknown, not enabled or not active, for the first such: a 404 if unknown, a conflict if not |
| Replay.DeliveryReplayService.ResolveEndpoints | apps/control-api/src/deliveries/delivery-replay.service.ts:221-237 | the loop ends in the refusal of the first endpoint found wanting, and in none exactly when all are deliverable |
| Replay.DeliveryReplayService.ReplayAll | apps/control-api/src/deliveries/delivery-replay.service.ts:92-149 | all the copies are appended in order or nothing changes, with the error of the first check that fails |
| ReplayProofs.ReplayOnlyAppends | apps/control-api/src/deliveries/delivery-replay.service.ts:92-246 | a request appends at most fifty rows, each a fresh copy of an existing row with a deliverable endpoint, and touches nothing else |
| ReplayProofs.ReplayIsWhole | apps/control-api/src/deliveries/delivery-replay.service.ts:111-123 | a request carries out its whole plan or none of it |
| ReplayProofs.EveryRunIsSound | apps/control-api/src/deliveries/delivery-replay.service.ts:48-61 | every run of routing, work and replays keeps links pointing back and one original per event and endpoint |
| ReplayProofs.ChainsEndAtTheOriginal | apps/control-api/src/deliveries/delivery-replay.service.ts:182-209 | in every run each chain ends at the one original of its event and endpoint, with its attempt budget |
| ReplayProofs.ReplaysPickTheSameOriginals | apps/control-api/src/events/events.service.ts:277-308 | however many replays came before, replay to all picks the same originals |
| ReplayProofs.ReplayDeliveryAnswers | apps/control-api/src/deliveries/delivery-replay.service.ts:92-149 | replaying one delivery appends its fresh copy when it exists and its endpoint takes it, and changes nothing otherwise |
| ReplayProofs.ReplayEventToAnswers | apps/control-api/src/events/events.service.ts:235-261 | replaying an event to one endpoint appends the copy of its original there when it was routed and the endpoint takes it, and changes nothing otherwise |
| ReplayProofs.ReplayEventAnswers | apps/control-api/src/events/events.service.ts:179-234 | replaying an event to all appends the copies of all its originals, oldest first, when there are one to fifty and every endpoint takes its own, and changes nothing otherwise |
| EndpointProofs.EveryRunIsTidy | apps/control-api/src/endpoints/endpoints.service.ts:203-479 | in every run enabled is exactly active, active has no disabled reason and disabled always has one |
| EndpointProofs.DeletedIsFinal | apps/control-api/src/endpoints/endpoints.service.ts:467-479 | a deleted endpoint never changes again |
| EndpointProofs.ReasonStaysUntilEnabled | apps/control-api/src/endpoints/endpoints.service.ts:339-479 | over every run without an enable of the endpoint, the breaker's reason and its date stay what they were, through pauses, removal and other sweeps |
| EndpointAnswers.CreateAnswers | apps/control-api/src/endpoints/endpoints.service.ts:203-284 | a new endpoint ends live exactly when its secret was minted and may be handed over, deleted when none could be minted and that was written, and paused otherwise |
| EndpointAnswers.EnableAnswers | apps/control-api/src/endpoints/endpoints.service.ts:339-433 | refused for an absent or deleted row and without a live secret; otherwise the row is live with no trace of the breaker, whose probe is due at once |
| EndpointAnswers.DisableAnswers | apps/control-api/src/endpoints/endpoints.service.ts:435-457 | a row that is there and not deleted is paused and keeps the breaker's columns |
| EndpointAnswers.RemoveAnswers | apps/control-api/src/endpoints/endpoints.service.ts:467-479 | the row is deleted, and a second removal changes nothing |
| EndpointAnswers.EligibleMeans | apps/control-api/src/maintenance/auto-disable-policy.ts:112-119 | due for the sweep exactly when in service with a breaker open for the configured hours or longer |
| EndpointProofs.AuditsAreTransitions | apps/control-api/src/maintenance/endpoint-auto-disable.service.ts:287-361 | per endpoint, auto-disable audit entries are its active-to-disabled transitions, whatever operators do between a sweep's read and its updates |
| AutoDisable.EndpointStore.Candidates | apps/control-api/src/maintenance/endpoint-auto-disable.service.ts:220-266 | the longest-open eligible endpoints, oldest first, up to the ceiling |
| AutoDisable.EndpointStore.DisableCandidate | apps/control-api/src/maintenance/endpoint-auto-disable.service.ts:287-361 | the row and its audit entry change together, exactly when the endpoint is still live |
| AutoDisable.EndpointStore.Sweep | apps/control-api/src/maintenance/endpoint-auto-disable.service.ts:164-203 | a pass alone takes down the smaller of the ceiling and the number eligible, the longest open first, and changes nothing else; the report counts them and says truncated exactly when the number eligible reaches the ceiling |
| AutoDisable.UninterruptedIsLonePass | apps/control-api/src/maintenance/endpoint-auto-disable.service.ts:164-361 | a sweep's read and updates with no operator between them are that same pass |
| AutoDisable.OnePassTakes | apps/control-api/src/maintenance/endpoint-auto-disable.service.ts:164-203 | of the endpoints eligible at any earlier cutoff, a pass takes the ceiling or all that are left |
| AutoDisable.PassesDrain | apps/control-api/src/maintenance/endpoint-auto-disable.service.ts:164-203 | over passes at later and later instants, each also finding newly eligible endpoints, those eligible at the first cutoff go down by the ceiling per pass until none is left |
| AutoDisable.EnoughPassesLeaveNone | apps/control-api/src/maintenance/endpoint-auto-disable.service.ts:164-203 | none of those is left exactly when the passes reach their number over the ceiling, rounded up |
| Ipv6.ParseIpv6 | apps/control-api/src/endpoints/endpoint-url.ts:62-100 | the loop computes the parse function on every string |
| Ipv6Proofs.QuadRewritten | apps/control-api/src/endpoints/endpoint-url.ts:69-80 | rewriting a dotted-quad tail gives the text of the same address in groups only |
| Ipv6Proofs.ExpandFront | apps/control-api/src/endpoints/endpoint-url.ts:82-93 | splitting at the double colon and filling puts back every group with the zeros it stood for |
| Ipv6Proofs.EverySpellingParses | apps/control-api/src/endpoints/endpoint-url.ts:62-100 | for every address and every spelling of it that section 2.2 of RFC 4291 allows, with or without a zone, the result is its sixteen bytes |
| Ipv6Sound.QuadIsCanonical | apps/control-api/src/endpoints/endpoint-url.ts:52-55 | a text is taken for an IPv4 address exactly when it is that address's dotted quad, without leading zeros |
| Ipv6Sound.ParsedIsSpelled | apps/control-api/src/endpoints/endpoint-url.ts:62-100 | a literal without dots that parses is eight groups of one to four hexadecimal digits, some behind one double colon, and gives their bytes |
| Cidr.WithinCidrIsInterval | apps/control-api/src/endpoints/endpoint-url.ts:252-264 | an address matches exactly when the prefix is 1 to 32, the network parses and the address lies in the block's integer interval |
| Cidr.ClassifiedIffInABlock | apps/control-api/src/endpoints/endpoint-url.ts:129-149 | an address is refused for a reason exactly when it lies in a block registered for that reason |
| Literals.JudgedIffInARange | apps/control-api/src/endpoints/endpoint-url.ts:181-196 | an IPv4 address is refused exactly when it lies in a registered block; every metadata address does |
| Literals.JudgedReason | apps/control-api/src/endpoints/endpoint-url.ts:178-196 | the two IPv4 metadata addresses are named so, and any other refusal names a block the address lies in |
| Literals.Judged6Metadata | apps/control-api/src/endpoints/endpoint-url.ts:178-222 | an IPv6 address is named a metadata address exactly when it is that of the third service or maps one of the first two |
| Literals.QuadRefusedIff | apps/control-api/src/endpoints/endpoint-url.ts:194-217 | a dotted quad is refused exactly when its address lies in a registered block |
| Literals.MappedRefusedIff | apps/control-api/src/endpoints/endpoint-url.ts:107-113 | every spelling of an IPv4-mapped address, zone or not, gets the verdict of the dotted quad it maps, and is refused exactly when that lies in a registered block |
| Literals.SixToFourRefusedIff | apps/control-api/src/endpoints/endpoint-url.ts:120-127 | every spelling of a 6to4 address is refused exactly for the address in its next four bytes |
| Literals.Nat64RefusedIff | apps/control-api/src/endpoints/endpoint-url.ts:120-127 | every spelling of an address that starts as NAT64 addresses do is refused exactly for the address in its last four bytes |
| Literals.Nat64BeyondThePrefix | apps/control-api/src/endpoints/endpoint-url.ts:120-127 | one of those lies outside the 96-bit prefix |
| Literals.Classified6IffInABlock | apps/control-api/src/endpoints/endpoint-url.ts:151-176 | an IPv6 address is refused for a reason exactly when it lies in the block of that reason |
| Literals.Ipv6RefusedIff | apps/control-api/src/endpoints/endpoint-url.ts:193-217 | every spelling of every address that carries no IPv4 one is refused exactly when the address lies in one of those blocks |
| Series.ResolveWindow | apps/control-api/src/analytics/analytics-window.ts:70-95 | accepted exactly for whole hours from 1 to 720 or the default, ending now, with an equally long window before it |
| Series.NamedUnit | apps/control-api/src/analytics/delivery-series.ts:11-50 | a unit is known exactly by one of nine names, and is as wide as its name says |
| Series.PlanSeries | apps/control-api/src/analytics/delivery-series.ts:98-141 | refused exactly for an unknown unit or past 32 buckets; otherwise aligned, contiguous buckets with every instant of the window in exactly one |
| Series.AlwaysAcceptedIffFits | apps/control-api/src/analytics/delivery-series.ts:75-85 | a unit is accepted at every clock reading exactly when it fits the unaligned bound |
| Series.DefaultIsFinestAlwaysAccepted | apps/control-api/src/analytics/delivery-series.ts:75-85 | the default bucket is never refused, and every finer unit is refused at some clock reading |
| Alerts.MailsAreApart | apps/control-api/src/notification-destinations/notification-rules.ts:107-129 | over every run, failed sends included, two messages about a subject are at least thirty minutes apart |
| Alerts.QuietHoursAreQuiet | apps/control-api/src/notification-destinations/notification-rules.ts:64-69 | a message that is not urgent never goes out in quiet hours |
| AlertRows.QuietInterval | apps/control-api/src/notification-destinations/notification-rules.ts:62-69 | quiet hours are the first seven hours and the last two of every UTC day |
| Alerts.OccurrencesAreExact | apps/control-api/src/maintenance/notification-dispatcher.service.ts:159-180 | the stored count is the alerts heard since the last noted send, counting that one |
| AlertRows.RowIsExact | apps/control-api/src/maintenance/notification-dispatcher.service.ts:116-180 | the whole stored row, read off the run: the last alert heard, the count, when the group began, and when it was last noted as sent |
| Alerts.MessageCountIsExact | apps/control-api/src/maintenance/notification-dispatcher.service.ts:116-130 | a message counts every alert from the last noted send up to its own, both included |
| Alerts.MailIff | apps/control-api/src/notification-destinations/notification-rules.ts:107-129 | a later message goes out exactly when the subject was silent for the window and urgency or the hour allows it, so alerts that keep coming stay grouped |
| Alerts.FirstMailIff | apps/control-api/src/notification-destinations/notification-rules.ts:107-129 | the first alert heard about a subject goes out exactly when urgency or the hour allows it |
| Alerts.HeldIsToldIff | apps/control-api/src/notification-destinations/notification-rules.ts:52-129 | an alert held in quiet hours is counted by some message exactly when a later alert ends a silence of thirty minutes and may and does go out |
| Alerts.HeldAndNeverTold | apps/control-api/src/notification-destinations/notification-rules.ts:52-129 | held alerts followed by others inside the window are in no message, however long that goes on |
| Alerts.NotificationDispatcher.AlertOne | apps/control-api/src/maintenance/notification-dispatcher.service.ts:90-147 | the destination's row afterwards, and one more in the report under sent, grouped, held or failed, whichever it was |
| Alerts.NotificationDispatcher.AlertAll | apps/control-api/src/maintenance/notification-dispatcher.service.ts:73-156 | every listed destination is considered once and counted as sent, grouped, held or failed; rows of no other destination or subject change |
| Workers.EveryRunKeepsInv | apps/control-api/src/analytics/analytics.service.ts:642-661 | every interleaving keeps one worker per index in flight and each filled slot its own result |
| Workers.EveryRunIsBounded | apps/control-api/src/analytics/analytics.service.ts:642-661 | each index starts at most once and in order, and at most the limit are in flight |
| Workers.FinishedIsComplete | apps/control-api/src/analytics/analytics.service.ts:642-661 | when all workers have finished, every index ran once and result i is the output for item i, exactly when the limit is at least one or there are no items |
| Workers.ResolvesIffAllSucceed | apps/control-api/src/analytics/analytics.service.ts:642-661 | once no worker can move, the map has resolved exactly when no item's call rejects |
| Workers.StepsRunOut | apps/control-api/src/analytics/analytics.service.ts:646-659 | every turn leaves strictly less to do, and some worker can move until each has finished or was lost to a rejection |

## Left out

- Paging.ForEachPage: says nothing of a loop that never ends; `Paging.EndlessInsertsNeverEnd` is one.
- Rollup.CountPage: all pages of groups are read from one state of the deliveries table; the loop runs outside a transaction, so a delivery that changes status between two pages may be counted twice or not at all.
- Rollup.RollUpDeliveries: rests on the same single state.
- Replay.DeliveryReplayService.ReplayAll: does not model the subscription link, the trace context, who asked or the timestamps.
- Endpoints: names, URLs, retry policies and the project's endpoint quota play no part in status and are not modelled.
- Workers: on values, as a state machine over the workers' turns.
- AutoDisable.PassesDrain: no operator acts between the passes; what one does is covered by the run theorems of `EndpointProofs`.
- Runner: role changes and removals are functions from what a transaction reads to what it writes, without the statements in between.
- The order of the version list a rotation returns.
- Foreign keys to tables outside the eight (subscriptions, retry policies) and cascading deletes.
- Recognising a serialisation failure by its error text, and the back-off between attempts.
- A rollback of a whole auto-disable pass after some of its updates.
- Retention: the usage theorems speak of a ledger that is not pruned.
- The Redis throttle store, hashing of throttle keys and the client address.
- Reading the prefix of a block from its text, the allowlist policy and URL parsing.
- Rendering a payload whose raw bytes are missing.
- Controllers, mail templates, audit metadata, logging and the data plane, which appears only as steps of the environment.
