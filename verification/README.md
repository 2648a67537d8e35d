# Hootifactory verification

A Dafny model of the parts of Hootifactory whose correctness does not show in a single function:
the scan outbox shared by many workers, the email lease, the concurrent manifest walk and the
fail-closed verdict built on it, the authorization algebra, the version orders, the byte and text
formats that are written in one place and read in another, and the stateful primitives.

`dafny verify dfyconfig.toml` checks the whole project.

| files | what they model |
|---|---|
| `ScanOutbox`, `ScanOutboxProtocol` | the outbox table as a class, and every interleaving of workers, crashes, reclaims and publishes as runs of one row |
| `EmailLedger`, `EmailLease` | the delivery table as a class, and every interleaving of senders with a shared clock |
| `ManifestWalk`, `ScanRun`, `ScanPolicy`, `Dedupe` | three workers on a growing queue over a possibly cyclic graph, byte scanning, deduplication and the policy verdict |
| `ImplicationGraph`, `Permissions`, `Scope`, `Grants`, `GrantLimits` | permission implication, the glob language, grants, authorization, and the check that nobody gives more than they have |
| `ArchVersion`, `VersionPrecedence`, `Semver`, `Chocolatey` | version comparison and normalization |
| `Multipart`, `TarHeader`, `TarReader`, `TarStream`, `TarArchive`, `IpText`, `ProxyRange`, `AddressText`, `ClientIp`, `XmlText` | formats and their inverses |
| `LruCache`, `AsyncLimiter`, `BoundedMap`, `Throttle`, `AccessRows`, `AccessUsers` | cache, limiter, bounded map, throttle, deactivation and reactivation |
| `Options`, `Orders`, `Digits`, `Octal`, `Hex`, `Powers`, `Text`, `Bytes`, `Recency`, `Sums` | what several of these share |

Objects whose methods change stored rows are classes with a state the methods reassign; loops are
methods proved against functions; concurrent code is a state machine whose steps are the stretches
between two awaits or one database statement each. Times are integers in milliseconds.

## What the proofs showed

Where a promise of the source does not hold for all inputs, the model keeps the code and states
exactly when it does hold.

- A publish that arrives while its row is being scanned is not honoured: the scan that began before
  it may be the last. It is honoured exactly when no live task is scanning the row; a processing row
  whose worker has crashed is scanned again (`ScanOutboxProtocol.RepublishHonouredIff`), unless its
  attempts are used up, and then only another publish brings a scan
  (`ScanOutboxProtocol.RescanPossibleIff`). The comment in `apps/scan-worker/src/worker-loop.ts:115-119`
  describes an unguarded reset; the guard is in `packages/registry-platform/src/runtime/scan-outbox.ts:14-16`,
  and the model follows the code.
- The email lease reads the clock before the claim is made. A worker rolls back and confirms only its
  own claim exactly when claims are made at most the takeover time after that
  (`EmailLease.OnlyOwnClaimsIff`); beyond, two claims can carry the same stamp
  (`EmailLease.LateClaimIsTouched`). A key is sent at most once more than workers crash between a send
  and its confirmation exactly when live workers settle within the takeover time
  (`EmailLease.SendsAreBoundedIff`).
- In every run a confirmed row stays confirmed and is never claimed again. But a confirmation, too, reads
  the clock before it is executed, so it can land on another worker's claim of the same stamp and
  be overwritten by that worker's own; this never happens exactly when either claims or
  confirmations are executed at most the takeover time after the clock was read
  (`EmailLease.NeverRestampedIff`, `EmailLease.LateConfirmationRestamps`).
- Deduplication can drop the more severe of two findings, so the verdict may depend on the order of
  arrival; `ScanPolicy.OrderNeverMattersIff` says exactly for which findings it does not. Malware is never hidden.
- A colon in a finding's identifier can make two problems share a key, and then one is dropped
  (`ScanPolicy.ColonMergesProblems`); without colons deduplication drops repetitions only.
- A negative score cap makes even an empty scan violate (`ScanPolicy.CleanIff`).
- The manifest graph is walked only when the artifact's own bytes are missing. When some blob is
  stored under the artifact's digest, that blob alone is scanned and the verdict says nothing of the
  blobs its manifest refers to (`ScanRun.OwnBytesDecideAlone`); `ScanRun.OwnBytesHideMalware` is an
  input with malware and a clean verdict. Over all decisions, full coverage of what a graph refers to follows
  only when it refers to no other blob (`ScanRun.DecisionMeansAllScannedIff`).
- Without the artifact's own bytes, a missing root digest counts as taken, so a manifest that lists it
  as a blob does not get it scanned; otherwise every blob referred to is scanned
  (`ScanRun.WithoutOwnBytesAllScannedIff`, `ScanRun.OwnDigestIsClean`). With dependencies to judge,
  such a run may decide without reading a byte (`ScanRun.DecidesUnreadIff`).
- A manifest the loader does not find is passed over as if nothing referred to it
  (`ScanRun.MissingIsPassedOver`), so an artifact can be decided, and clean, with everything below that
  manifest unscanned (`ScanRun.MissingChildIsClean`).
- Not everybody can hand out what they hold: a pattern that means a repository by its mount path only is
  refused to its own holder (`GrantLimits.HolderGivesOwnIff`).
- What a group is granted between the check of an addition and its insert is not checked
  (`GrantLimits.LaterGroupGrantEscapes`).
- A token grant without a target is checked as `org` and stored without a limit, so it exceeds its
  giver; a package or artifact grant without a name exceeds it on requests without one, and a grant
  by repository pattern on repositories created after the check. `GrantLimits.NeverExceedsIff` says
  exactly which grants each of these affects. Holders of a pattern with a star before its wildcard
  ending can hand out more than they have (`Scope.MatchDecidesContainmentIff`, `GrantLimits.PatternIsSafeIff`).
- A multipart part without any header line is never recovered (`Multipart.RoundTripIff`).
- The pacman database fails as a whole when one package name and version exceed 154 characters
  together, and above 94 the tar reader no longer finds an entry under its path, because it ignores
  the ustar prefix (`TarArchive.BuildDbTar`, `TarArchive.EntryFoundIffShort`). Validation allows more.
- A trusted range shorter than the IPv4 mapping, such as `::/0`, never matches an IPv4 address
  (`ProxyRange.CompiledRangeMeans`).
- The throttle lets one attempt fewer than two full windows through in any window-long interval, and
  that is the best bound (`Throttle.WindowBound`, `Throttle.BoundIsMet`).
- Removing an inactive user from an organization is undone by reactivation
  (`AccessUsers.RemovedWhileInactiveReturns`).

## Model

| member | source | states |
|---|---|---|
| `ScanOutbox.ScanOutboxTable.ClaimScanIntents` | apps/scan-worker/src/worker-loop.ts:62-85 | claims at most `limit` rows, each pending and due, never one locked by another transaction, earliest due first and none due earlier left behind; every claimed row is processing with `attempts` one higher, that number is the returned token, and no other row changes |
| `ScanOutbox.ScanOutboxTable.StartHeartbeatTick` | apps/scan-worker/src/worker-loop.ts:95-113 | a tick moves the lock stamp of the row it was started for, and only while the token still fits |
| `ScanOutbox.ScanOutboxTable.MarkSucceeded` | apps/scan-worker/src/worker-loop.ts:120-133 | the whole new table: the row is succeeded, unlocked and without error if the token still fits, otherwise nothing changes |
| `ScanOutbox.ScanOutboxTable.MarkFailed` | apps/scan-worker/src/worker-loop.ts:135-153 | while the token fits: pending below the attempt cap and failed at it, unlocked, due after the backoff, with the first 2000 characters of the error; otherwise, and for every other row, nothing changes |
| `ScanOutbox.BackoffDoubles` | apps/scan-worker/src/worker-loop.ts:149-149 | the backoff doubles with each attempt from one second up to a minute |
| `ScanOutbox.ScanOutboxTable.ReclaimStuckScans` | apps/scan-worker/src/worker-loop.ts:221-251 | releases exactly the rows that are processing and whose lock is older than the timeout: failed at the attempt cap, pending and due now below it, with the reclaim error; every other row is unchanged |
| `ScanOutbox.ScanOutboxTable.RecordPublish` | packages/registry-platform/src/runtime/scan-outbox.ts:56-103 | the published row is due for a claim right away unless it is being processed, in which case nothing changes; attempts and creation time of an existing row are kept, and no other row changes |
| `ScanOutbox.ScanOutboxTable.ProcessClaimedIntent` | apps/scan-worker/src/worker-loop.ts:270-330 | ends in exactly one guarded terminal write chosen by how the scan ended |
| `ScanOutboxProtocol.StepKeepsInv` | apps/scan-worker/src/worker-loop.ts:62-153 | each claim, heartbeat, finish, reclaim, publish, crash or clock step keeps: the claims made so far carry the tokens 1, 2, … up to `attempts`, each to a different task, and `attempts` stays within the cap plus the effective resets |
| `ScanOutboxProtocol.TokenGrantedOnce` | apps/scan-worker/src/scan-outbox-rows.ts:93-108 | in every reachable state no two tasks hold the same token, and at most one task’s token fits the row |
| `ScanOutboxProtocol.StaleForever` | apps/scan-worker/src/worker-loop.ts:115-119 | a token that no longer fits the row never fits it again, in any continuation |
| `ScanOutboxProtocol.StaleTaskNeverWrites` | apps/scan-worker/src/worker-loop.ts:115-153 | whatever a task with a stale token finishes with, and however much later, the row is left as it is |
| `ScanOutboxProtocol.ClaimsPerPublish` | apps/scan-worker/src/worker-loop.ts:142-153 | over every run a row is claimed at most the attempt cap (at least once) plus once per publish in the run |
| `ScanOutboxProtocol.ReclaimFreesRow` | apps/scan-worker/src/worker-loop.ts:221-251 | from every reachable state in which a row is processing, time and one reclaim alone release it, to pending exactly below the cap |
| `ScanOutboxProtocol.NotReclaimedBefore` | apps/scan-worker/src/worker-loop.ts:221-251 | in every run of heartbeats, crashes, reclaims and passing time that ends within the timeout after the lock, the row stays with its claim |
| `ScanOutboxProtocol.ReclaimedIff` | apps/scan-worker/src/worker-loop.ts:240-251 | from every reachable processing state a reclaim at a later time releases the row if and only if the lock is then older than the timeout |
| `ScanOutboxProtocol.BeatRenews` | apps/scan-worker/src/worker-loop.ts:95-113 | a heartbeat of the task that holds the claim keeps the row from being reclaimed for a whole timeout from then on |
| `ScanOutboxProtocol.TaskEnds` | apps/scan-worker/src/worker-loop.ts:115-153 | what a finish, good or bad, and a crash leave of the row, the task and the history, with a fitting token and without |
| `ScanOutboxProtocol.SupersededForever` | apps/scan-worker/src/scan-outbox-rows.ts:93-108 | once no running scan holds a token up to some mark, every later success comes from a claim above that mark |
| `ScanOutboxProtocol.RepublishHonouredIff` | packages/registry-platform/src/runtime/scan-outbox.ts:8-16 | every later success was claimed after this publish if and only if the row is not being scanned when the publish comes |
| `ScanOutboxProtocol.RepublishCanBeMissed` | packages/registry-platform/src/runtime/scan-outbox.ts:26-34 | a reachable state in which the publish is missed: the scan that began before it is the one that succeeds |
| `ScanOutboxProtocol.RescanPossibleIff` | packages/registry-platform/src/runtime/scan-outbox.ts:26-34 | after a publish, and without another one, the row can still be claimed again if and only if it is not processing at the publish or its attempts are below the cap |
| `EmailLedger.Ledger.ClaimDelivery` | apps/mail-worker/src/send-email-once.ts:36-54 | wins exactly when there is no row, or an unconfirmed one whose stamp is more than fifteen minutes before this one; the row then carries this stamp, and no other key changes |
| `EmailLedger.Ledger.Rollback` | apps/mail-worker/src/send-email-once.ts:100-104 | removes the row exactly when it is still this claim and unconfirmed |
| `EmailLedger.Ledger.Confirm` | apps/mail-worker/src/send-email-once.ts:105-105 | sets the confirmation exactly when the row still has this claim’s stamp |
| `EmailLedger.Ledger.SendEmailOnce` | apps/mail-worker/src/send-email-once.ts:77-106 | returns, throws pending or rethrows exactly as the claim, the existing row and the send decide, with the whole new ledger |
| `EmailLease.StepKeepsInv` | apps/mail-worker/src/send-email-once.ts:36-106 | each claim, takeover, send, rollback, built or executed confirmation, crash or clock step of any worker, however late, keeps: nothing is stamped in the future, a claim is in the row as long as nobody can have taken it over, and a confirmation or a normal return means a send |
| `EmailLease.SentIsAbsorbing` | apps/mail-worker/src/send-email-once.ts:47-53 | from a confirmed row no continuation, however late its steps, deletes or unconfirms it, and nobody who did not hold a claim before wins one |
| `EmailLease.NeverRestampedIff` | apps/mail-worker/src/send-email-once.ts:95-105 | with winning claims and effective confirmations executed at most two given delays after the clock was read for them, no confirmation ever changes a confirmed row if and only if one of the two delays is at most the takeover time |
| `EmailLease.LateConfirmationRestamps` | apps/mail-worker/src/send-email-once.ts:95-105 | for any two longer delays, a run in which a confirmed row is about to be restamped by another worker’s confirmation |
| `EmailLease.SentStays` | apps/mail-worker/src/send-email-once.ts:77-94 | in every reachable state a confirmation means a send succeeded, and the row stays confirmed, with no new claim, from then on |
| `EmailLease.ReturnMeansSent` | apps/mail-worker/src/send-email-once.ts:77-106 | a worker that returned normally does so only if some send for the key has succeeded |
| `EmailLease.RefusedCallEnds` | apps/mail-worker/src/send-email-once.ts:79-93 | a call that does not win the claim leaves the row alone and returns when the key is confirmed and throws otherwise |
| `EmailLease.EveryCallCanEnd` | apps/mail-worker/src/send-email-once.ts:77-106 | from every state a live call can end within four steps of its own |
| `EmailLease.OnlyOwnClaimsIff` | apps/mail-worker/src/send-email-once.ts:36-105 | with every winning claim executed at most some delay after its stamp was read, no rollback deletes another worker’s claim, and no confirmation confirms one, if and only if that delay is at most the takeover time |
| `EmailLease.LateClaimIsTouched` | apps/mail-worker/src/send-email-once.ts:77-105 | for every longer delay, a run in which a worker’s rollback deletes the claim another worker made with the same stamp, and one in which its confirmation confirms it |
| `EmailLease.SendsAreBounded` | apps/mail-worker/src/send-email-once.ts:56-76 | when every live worker settles within the takeover time, the sends for a key are at most one plus the crashes between a send and its confirmation, and exactly that once the row is confirmed |
| `EmailLease.SendsAreBoundedIff` | apps/mail-worker/src/send-email-once.ts:56-76 | with every live worker settling within some delay, the bound on sends holds in every reachable state if and only if that delay is at most the takeover time |
| `EmailLease.LateSenderSendsTwice` | apps/mail-worker/src/send-email-once.ts:36-54 | for every longer delay, a run without any crash in which a key is sent twice |
| `ManifestWalk.StepKeepsInv` | apps/scan-worker/src/pipeline.ts:175-234 | each stretch of a worker between two awaits keeps: only reachable digests are queued, each digest is loaded once, every load belongs to one worker, the tallies match the manifests done, and no known digest is lost |
| `ManifestWalk.ScheduleBounded` | apps/scan-worker/src/pipeline.ts:224-234 | every schedule is finite, also on a cyclic graph: a measure fixed before the walk bounds its length |
| `ManifestWalk.SettledWalkIsComplete` | apps/scan-worker/src/pipeline.ts:175-248 | a settled walk loaded exactly the digests reachable from the root, each once, handed over every blob of every manifest found, and counted every reference |
| `ManifestWalk.ScheduleDoesNotMatter` | apps/scan-worker/src/pipeline.ts:175-248 | two settled walks agree on the returned count and on the blobs handed over, whatever their schedules |
| `ManifestWalk.StoppedWalkIsComplete` | apps/scan-worker/src/pipeline.ts:224-236 | in every run from the start in which nothing failed, once no worker can move any more all have returned and the walk is complete: a worker that left early lost nothing |
| `ManifestWalk.SettledIffNoneThrown` | apps/scan-worker/src/pipeline.ts:224-236 | a run that has stopped has settled if and only if no load and no blob scan threw on the way |
| `ManifestWalk.Walk` | apps/scan-worker/src/pipeline.ts:224-236 | given the digests whose load or scan throws, the three workers reach a stop whatever the choices; they settle if and only if none of those digests is reachable, and then the walk is complete |
| `Dedupe.FirstPerKeyKeepsKeys` | apps/scan-worker/src/scan-policy.ts:42-55 | keeping the first item of each key loses no key, keeps one item per key and invents none |
| `Dedupe.OrderNeverHidesBadIff` | apps/scan-worker/src/scan-policy.ts:42-55 | no arrival order makes deduplication hide a bad item if and only if no item is bad or some key has only bad items |
| `ScanPolicy.DedupeFindings` | apps/scan-worker/src/scan-policy.ts:42-55 | the loop with its seen-set keeps, in order, the first finding of each key; no two kept are the same problem, that is of the same kind, identifier and place, and when no identifier has a colon every finding has a kept one of its problem |
| `ScanPolicy.KeyIff` | apps/scan-worker/src/scan-policy.ts:46-48 | two findings have one key if and only if they agree in kind and in identifier and place joined by a colon |
| `ScanPolicy.KeyTellsProblems` | apps/scan-worker/src/scan-policy.ts:46-48 | for identifiers without a colon, one key if and only if the same problem |
| `ScanPolicy.ColonMergesProblems` | apps/scan-worker/src/scan-policy.ts:46-48 | two different problems with one key, of which the second is dropped |
| `ScanPolicy.DedupeKeepsMalware` | apps/scan-worker/src/scan-policy.ts:42-55 | malware is present after deduplication exactly when it was before |
| `ScanPolicy.SummarizeFindings` | apps/scan-worker/src/scan-policy.ts:94-107 | the running maxima of severity and score |
| `ScanPolicy.SeverityOrder` | packages/scan-core/src/index.ts:32-39 | unknown, negligible, low, medium, high and critical rank strictly in this order |
| `ScanPolicy.HighestIsMaximum` | apps/scan-worker/src/scan-policy.ts:94-107 | no finding is more severe than the summary, and some finding reaches it unless it is the starting value |
| `ScanPolicy.MaxCvssIsMaximum` | apps/scan-worker/src/scan-policy.ts:94-107 | no score exceeds the summary and some score reaches it unless it is zero |
| `ScanPolicy.CleanIff` | apps/scan-worker/src/scan-policy.ts:57-92 | the verdict is clean if and only if no single finding offends a rule and the score cap is not a negative one |
| `ScanPolicy.VerdictIs` | apps/scan-worker/src/scan-policy.ts:57-92 | the verdict from the single findings: clean when none offends and the cap is not negative, otherwise blocked exactly in enforce mode and quarantined in audit mode |
| `ScanPolicy.MoreFindingsStayViolating` | apps/scan-worker/src/scan-policy.ts:57-92 | adding findings never turns a violation into a clean verdict |
| `ScanPolicy.DedupeCanHideSeverity` | apps/scan-worker/src/scan-policy.ts:42-55 | two findings whose order decides whether the verdict is clean |
| `ScanPolicy.OrderNeverMattersIff` | apps/scan-worker/src/scan-policy.ts:42-92 | the verdict on deduplicated findings is the verdict on all of them under every arrival order if and only if nothing offends, some key has only offending findings, or the score cap is negative |
| `ScanPolicy.UncoveredGatingFindingTypes` | apps/scan-worker/src/scan-gating.ts:30-53 | exactly the gating types a failed scanner declares and no scanner that finished declares |
| `ScanRun.ScanStoredBytes` | apps/scan-worker/src/scan-bytes.ts:92-215 | succeeds exactly on a full scan, a digest already taken, or a missing blob where that is allowed; returns all findings of the scan and marks the digest as taken |
| `ScanRun.ScanHandedOver` | apps/scan-worker/src/pipeline.ts:211-215 | fails exactly when some blob handed over, the root’s digest excepted, is not fully scanned; otherwise collects exactly the findings of those blobs |
| `ScanRun.ProcessScanInner` | apps/scan-worker/src/pipeline.ts:267-334 | decides exactly when the bytes end without an error and there was a blob or a dependency to judge, skips exactly when there was none and the version is deleted or the count is zero, throws otherwise; a decision judges exactly the findings of the blobs read and of the dependency scanners, deduplicated |
| `ScanRun.ProcessScan` | apps/scan-worker/src/pipeline.ts:267-334 | the same in terms of the graph: when the run decides, skips and throws, that a decision judges exactly the findings of the blobs that found, reachable manifests refer to, and that clean means no offending finding left and no malware anywhere |
| `ScanRun.HandedOverIffReferenced` | apps/scan-worker/src/pipeline.ts:205-215 | a blob is handed over to be scanned if and only if a found manifest reachable from the root refers to it |
| `ScanRun.SkippedGraphIsEmpty` | apps/scan-worker/src/pipeline.ts:283-290 | the reference count is zero if and only if the root manifest exists and refers to nothing |
| `ScanRun.OwnBytesDecideAlone` | apps/scan-worker/src/pipeline.ts:267-276 | when a blob with the artifact’s digest is stored, the run decides exactly when that blob is fully scanned, judges its findings and those of the dependencies only, and never skips, whatever the graph refers to |
| `ScanRun.OwnBytesHideMalware` | apps/scan-worker/src/pipeline.ts:270-276 | the input: the manifest’s own bytes are stored and clean, the one blob it refers to holds malware, and the verdict is clean |
| `ScanRun.CanDecideIff` | apps/scan-worker/src/pipeline.ts:277-292 | without the artifact’s own bytes some run of a graph decides if and only if another blob is referred to or there are dependencies; missing manifests play no part |
| `ScanRun.DecisionIsOfFound` | apps/scan-worker/src/pipeline.ts:199-219 | for any two graphs whose walks find the same manifests with the same blobs, the run decides on both or on neither, and judges the same findings |
| `ScanRun.MissingIsPassedOver` | apps/scan-worker/src/pipeline.ts:199-202 | the run decides, and judges the same findings, as if nothing referred to the missing manifests; in that graph, once the root is found, none is missing |
| `ScanRun.MissingChildIsClean` | apps/scan-worker/src/pipeline.ts:199-202 | the input: one clean blob and a child manifest that is missing are decided, and clean |
| `ScanRun.DecisionMeansAllScannedIff` | apps/scan-worker/src/pipeline.ts:205-276 | over all decisions, with or without the artifact’s own bytes: a decision implies that every blob referred to was fully scanned if and only if no other blob is referred to, and the artifact’s own digest is not either unless there are no dependencies |
| `ScanRun.WithoutOwnBytesAllScannedIff` | apps/scan-worker/src/pipeline.ts:205-215 | over the decisions without the artifact’s own bytes: the same implication holds if and only if no found manifest lists the artifact’s own digest, or no other blob is referred to and no dependency is left to judge |
| `ScanRun.OwnDigestIsClean` | apps/scan-worker/src/pipeline.ts:205-215 | the input: a manifest listing the artifact’s own, missing digest beside one clean blob is decided, and clean |
| `ScanRun.DecidesUnreadIff` | apps/scan-worker/src/pipeline.ts:283-290 | a run without its own bytes decides without reading a byte if and only if there are dependencies and no other blob is referred to |
| `ImplicationGraph.Search` | packages/auth/src/permissions.ts:129-142 | the depth-first search with one shared seen-set: true only on a path, false only when everything it newly met is ruled out, and it ends on cyclic graphs |
| `ImplicationGraph.Decide` | packages/auth/src/permissions.ts:129-142 | started with an empty set it decides exactly reachability, with one node as top |
| `ImplicationGraph.ImpliesIsPreorder` | packages/auth/src/permissions.ts:129-142 | implication is reflexive and transitive on every finite graph |
| `Permissions.PermissionImplies` | packages/auth/src/permissions.ts:102-142 | the search on the permission table decides the implication relation |
| `Permissions.ImpliedIff` | packages/auth/src/permissions.ts:102-142 | the implication relation, written out without a search: a permission implies itself, the administrator’s implies all, and otherwise exactly the listed pairs |
| `Permissions.ImpliedFamily` | packages/auth/src/permissions.ts:102-127 | short of the administrator permission, an implied permission stays in the family of the granted one, except that repository permissions reach packages and artifacts |
| `Permissions.ActionCoversIff` | packages/auth/src/permissions.ts:73-127 | which action’s permission covers which other action’s on one resource, for every pair of actions and every resource type |
| `Permissions.ActionsKeepFamily` | packages/auth/src/permissions.ts:73-100 | an action asks for a permission of its resource’s own family |
| `Permissions.OnlyAdminImpliesAdmin` | packages/auth/src/permissions.ts:134-135 | nothing but the administrator permission implies it |
| `Permissions.StrongerActionsImplyRead` | packages/auth/src/permissions.ts:73-100 | on every resource type but organizations the permission for writing or deleting implies the one for reading |
| `Scope.MatchContains` | packages/auth/src/scope.ts:8-18 | for a pattern whose only star is its last character, matching another pattern as if it were a name means matching every name that pattern matches |
| `Scope.MatchDecidesContainmentIff` | packages/auth/src/scope.ts:8-18 | matching decides containment of patterns, in both directions, if and only if the outer pattern has no star before its wildcard ending |
| `Scope.MayTargetIff` | packages/auth/src/scope.ts:25-40 | a pattern may mean a repository if and only if it matches its name, or matches some name at or below what the mount path has after its first slash |
| `Scope.NameAloneTargets` | packages/auth/src/scope.ts:25-40 | with no slash in the mount path only the name counts |
| `Grants.RowAllowsIff` | packages/auth/src/permission-grants.ts:90-142 | a row that is not the administrator’s allows a request if and only if its permission is above the required one, the organization is the same, and each restriction it sets is met |
| `Grants.AdminRowAllowsIff` | packages/auth/src/permission-grants.ts:90-102 | an administrator’s row allows everything if and only if nothing at all restricts it |
| `Grants.UserAllowedIff` | packages/auth/src/authorize.ts:22-48 | a user is allowed if and only if some stored row allows the request and is the user’s own, or that of a group of the request’s organization the user is a member of; otherwise the scope is insufficient |
| `Grants.AnonymousAllowedIff` | packages/auth/src/can.ts:43-52 | without a principal exactly reading a public repository, package or artifact is allowed |
| `Grants.RegistryTokenAllowedIff` | packages/auth/src/can.ts:54-72 | a registry token is allowed if and only if an action is given and its list has that action, or the star, on the named repository |
| `Grants.TokenAllowedIff` | packages/auth/src/authorize.ts:22-48 | an API token is allowed if and only if the resource lies in its organization, a row of its own allows it, and, if it has an owner, a row that reaches the owner allows it too; another organization is answered as such |
| `Grants.ValidatedEach` | packages/auth/src/token-grants.ts:83-114 | validation accepts a list exactly when it accepts each grant of it |
| `Grants.NoGrantExceedsGiver` | packages/auth/src/token-grants.ts:83-114 | after a successful validation by a giver whose own patterns are sound, every permission the stored row allows on a checked repository was already allowed to the giver, provided a token target is named and a package or artifact is named by the grant or the request |
| `GrantLimits.UnnamedTargetExceeds` | packages/auth/src/token-grants.ts:23-30 | for every token grant without a target, a directory in which the giver hands out more than they have |
| `GrantLimits.UnnamedResourceExceeds` | packages/auth/src/token-grants.ts:48-70 | for every package or artifact grant that names none, a directory in which it reaches a request without a name that the giver may not make |
| `GrantLimits.NeverExceedsIff` | packages/auth/src/token-grants.ts:15-114 | over all givers with sound patterns and all directories, with or without the conditions on named resources and checked repositories: a requested grant never exceeds its giver if and only if a token target is named, packages and artifacts are named by the grant or by every request, and repositories existed at the check or the grant has no repository pattern |
| `Grants.CheckedAs` | packages/auth/src/token-grants.ts:15-75 | the resource a requested grant is checked as, field by field, for every family |
| `GrantLimits.HolderGivesOwnIff` | packages/auth/src/token-grants.ts:83-114 | somebody who holds exactly a grant can hand it out if and only if it restricts nothing its requests do not carry and every repository it is checked on is matched by name |
| `GrantLimits.UnsoundPatternExceeds` | packages/auth/src/scope.ts:14-16 | for every such permission and every held pattern with a star before its wildcard ending, a grant that passes validation and exceeds the giver |
| `GrantLimits.PatternIsSafeIff` | packages/auth/src/scope.ts:8-18 | for every permission that a repository, package or artifact pattern restricts: the holder of a grant with that pattern can hand out nothing beyond it if and only if the pattern’s only star is its last character |
| `GrantLimits.LaterRepositoryExceeds` | packages/auth/src/token-grants.ts:90-102 | for every grant about repositories by pattern, a giver restricted to one repository id and a later repository of the same name that the grant reaches and the giver may not |
| `GrantLimits.AddedIff` | packages/auth/src/access-groups.ts:86-142 | a member is added if and only if the group exists, the user is in the organization, and every row stored for the group could be given by the one who adds |
| `GrantLimits.AddingMemberNeverEscalates` | packages/auth/src/access-groups.ts:95-121 | a member is added to a group only by someone who at the check was allowed everything that the rows read by the check allow on named, checked resources, when that person’s own patterns are sound |
| `GrantLimits.LaterGroupGrantEscapes` | packages/auth/src/access-groups.ts:101-142 | for every row the group is granted between the check and the insert, an addition after which the new member may do what the one who added them may not |
| `ArchVersion.RawVerCmp` | packages/registry-arch/src/arch-vercmp.ts:37-75 | the two-cursor comparer equals the lexicographic comparison of token lists in which letters sort below the end and the end below digits |
| `ArchVersion.RawTransitive` | packages/registry-arch/src/arch-vercmp.ts:37-75 | not-above is transitive for the raw comparison |
| `ArchVersion.ArchVercmpIsTotalPreorder` | packages/registry-arch/src/arch-vercmp.ts:78-92 | with epoch and release the comparison is a total preorder |
| `ArchVersion.EpochDecides` | packages/registry-arch/src/arch-vercmp.ts:80-82 | of two versions written with epochs the one with the lower number is lower, whatever follows |
| `ArchVersion.NoEpochIsZero` | packages/registry-arch/src/arch-vercmp.ts:80-82 | a version without an epoch ranks exactly as with `0:` before it |
| `ArchVersion.VersionThenRelease` | packages/registry-arch/src/arch-vercmp.ts:83-91 | with equal epochs a difference of the upstream versions decides; with none, a version without a release is below one with, and two releases compare as versions do |
| `ArchVersion.SharedFront` | packages/registry-arch/src/arch-vercmp.ts:37-75 | what two versions have in common up to a separator does not count |
| `ArchVersion.BlockOrder` | packages/registry-arch/src/arch-vercmp.ts:45-64 | numbers compare by value, letters by their characters, and a number is above letters |
| `ArchVersion.LongerVersion` | packages/registry-arch/src/arch-vercmp.ts:66-75 | a further number makes a version higher, further letters lower |
| `ArchVersion.CollectEntries` | packages/registry-arch/src/arch-adapter.ts:70-93 | one entry for every package name served to the architecture, and no others; each is a stored row that no served row of its name outranks |
| `Orders.ArrangementDoesNotMatter` | packages/registry-arch/src/arch-adapter.ts:77-93 | two arrangements of the same rows keep entries that compare equal |
| `Digits.DigitsCompareAsIntegers` | packages/registry-arch/src/arch-vercmp.ts:57-60 | numeric blocks of any length, stripped of zeros, compare as the integers they denote |
| `Precedence.ComparePrerelease` | packages/registry-ansible/src/ansible-metadata.ts:270-291 | the loop over identifiers is the precedence of section 11 of Semantic Versioning 2.0.0 on identifier lists |
| `Precedence.CompareSplit` | packages/registry-ansible/src/ansible-metadata.ts:246-257 | numbers first, then a release above its prereleases, then the prerelease identifiers |
| `Precedence.CoreThenRelease` | packages/registry-ansible/src/ansible-metadata.ts:246-257 | rules 2 and 3 of section 11: the first different number decides, a missing one counting as zero, and a release is above its prereleases |
| `Precedence.IdentifiersDecide` | packages/registry-ansible/src/ansible-metadata.ts:270-291 | rule 4: behind equal identifiers the first different one decides, and a longer list is higher |
| `Precedence.IdentifierOrder` | packages/registry-ansible/src/ansible-metadata.ts:276-288 | numbers compare by value and are below words, words by their first different character |
| `Precedence.VersionsTotalPreorder` | packages/registry-ansible/src/ansible-metadata.ts:246-291 | version precedence is a total preorder |
| `Precedence.IdentifiersInjective` | packages/registry-chocolatey/src/chocolatey-validation.ts:149-170 | valid prerelease tags that compare equal are the same text |
| `Semver.CompareSemver` | packages/registry-ansible/src/ansible-metadata.ts:246-268 | on valid versions below 2^53 the sign is that of version precedence |
| `Semver.WrittenIsRead` | packages/registry-ansible/src/ansible-metadata.ts:259-268 | a version written from three numbers, a tag and build metadata is valid exactly when numbers and tag are, and then means those, whatever the build metadata |
| `Semver.HighestVersionIsMaximal` | packages/registry-ansible/src/ansible-metadata.ts:105-110 | the highest of any list of valid version texts is a stored one, stable if any is, and no other of its kind outranks it in version precedence |
| `Chocolatey.NormalizeChocolateyVersion` | packages/registry-chocolatey/src/chocolatey-validation.ts:85-107 | however the runtime prints numbers from 2^53 on, the steps of the source compute the printed form of what the text denotes, or refuse it |
| `Chocolatey.WrittenIsUnderstood` | packages/registry-chocolatey/src/chocolatey-validation.ts:85-107 | a version written from two to four numbers, a tag and build metadata means three numbers, or four when the last is not zero, and the tag in lower case |
| `Chocolatey.ValidTagIff` | packages/registry-chocolatey/src/chocolatey-validation.ts:122-124 | a tag is accepted if and only if it is spelled with letters, digits, dashes and dots, every dot between two characters that are none |
| `Chocolatey.RenderReadsBack` | packages/registry-chocolatey/src/chocolatey-validation.ts:85-107 | a normal form denotes exactly what it was printed from |
| `Chocolatey.NormalizeIsIdempotent` | packages/registry-chocolatey/src/chocolatey-validation.ts:85-107 | normalizing what was normalized changes nothing |
| `Chocolatey.NormalFormsAreFixed` | packages/registry-chocolatey/src/chocolatey-validation.ts:85-107 | a text is a normal form if and only if normalization leaves it alone and its numbers are below 2^53 |
| `Chocolatey.CompareChocolateyVersions` | packages/registry-chocolatey/src/chocolatey-validation.ts:127-147 | on normal forms the sign is that of version precedence |
| `Chocolatey.EqualRankIsEqual` | packages/registry-chocolatey/src/chocolatey-validation.ts:127-139 | normal forms that compare equal denote the same version |
| `Chocolatey.RenderInjective` | packages/registry-chocolatey/src/chocolatey-validation.ts:101-106 | different denotations are printed differently, so equal rank means equal text |
| `Multipart.ReadPart` | packages/registry-chef/src/chef-publish.ts:92-110 | the loop body reads exactly one part or stops, as the searches decide |
| `Multipart.ParseMultipartParts` | packages/registry-chef/src/chef-publish.ts:79-113 | the loop returns, in order, the views of the part-by-part reading; the cursor strictly increases |
| `Multipart.WireIs` | packages/registry-chef/src/chef-publish.ts:79-110 | the byte strings the loop looks for: CR LF, twice it, two dashes, and the boundary behind them |
| `Multipart.DataEndsAtDelimiter` | packages/registry-chef/src/chef-publish.ts:101-110 | data without the delimiter is ended by the delimiter written after it, not by an overlap of the two |
| `Multipart.ReadsOnePart` | packages/registry-chef/src/chef-publish.ts:92-110 | one turn on a part laid out in a body reads exactly it and lands past the next marker |
| `Multipart.RoundTripIff` | packages/registry-chef/src/chef-publish.ts:79-113 | for a boundary without CR, parsing an encoded body shows exactly the encoded headers and data, in order, if and only if every part has a header line |
| `Bytes.Search` | packages/registry-chef/src/chef-publish.ts:90-103 | the first occurrence at or after a place, or -1 exactly when there is none |
| `TarHeader.UstarPathParts` | packages/registry-arch/src/arch-db.ts:59-75 | a path of at most 100 bytes whole; otherwise split at the latest slash that leaves 1 to 155 and 1 to 100 bytes, and refused exactly when there is none |
| `TarHeader.SplitKeepsPath` | packages/registry-arch/src/arch-db.ts:53-75 | the parts joined by a slash are the path, and a refused path has no admissible slash |
| `TarHeader.TarHeader` | packages/registry-arch/src/arch-db.ts:78-107 | refused exactly for a path that cannot be split; otherwise the array holds the whole 512-byte ustar layout with its checksum |
| `TarReader.FixedFields` | packages/registry-arch/src/arch-db.ts:86-100 | the fixed fields of a header, at their offsets and as text: mode, owners, time, type, magic and version, and zeros between |
| `TarHeader.ChecksumFits` | packages/registry-arch/src/arch-db.ts:101-105 | the checksum always fits its six octal digits and reads back as the sum |
| `TarReader.ReadTarFile` | packages/registry-arch/src/pkg-parse.ts:26-53 | on any bytes and for any decoder of names: the member-by-member reading with its limits and early ends |
| `TarReader.HeaderSeen` | packages/registry-arch/src/arch-db.ts:78-107 | with any decoder that reads ASCII as it stands, the reader sees in a header written for an ASCII name exactly that name and the size |
| `TarReader.BlankSizeIsZero` | packages/registry-arch/src/pkg-parse.ts:38-44 | a size field of blanks and NULs alone counts as zero |
| `TarStream.FindsFirstWanted` | packages/registry-arch/src/pkg-parse.ts:26-53 | on a written stream the walk returns the bytes of the first wanted member among those within the entry limit, or nothing if there is none |
| `TarArchive.DbLength` | packages/registry-arch/src/arch-db.ts:109-145 | the archive of any validated, representable entries is a multiple of 512 bytes long and at least as long as its two closing zero blocks |
| `TarArchive.BuildDbTar` | packages/registry-arch/src/arch-db.ts:114-145 | fails exactly when some package name and version have more than 154 characters together, and otherwise returns the archive of the sorted entries |
| `TarArchive.PathSplits` | packages/registry-arch/src/arch-db.ts:59-75 | a database path is representable exactly up to 154 characters of name and version, and is stored whole exactly up to 94 |
| `TarArchive.DbForgetsOrder` | packages/registry-arch/src/arch-db.ts:115-121 | the archive does not depend on the input order when no two entries share all four sort keys |
| `TarArchive.EntryFoundIffShort` | packages/registry-arch/src/arch-db.ts:114-145 | among at most 512 entries with distinct paths an entry’s exact bytes are found under its path if and only if the path is stored whole |
| `TarArchive.AbsentNotFound` | packages/registry-arch/src/pkg-parse.ts:26-53 | a name no entry has is not found, except `desc` when some entry is stored under its tail |
| `IpText.BestZeroRun` | apps/api/src/request-ip.ts:262-276 | the two scans find the leftmost longest run of zero groups |
| `IpText.FormatIpv6` | apps/api/src/request-ip.ts:257-281 | the text compresses the leftmost longest zero run when it has at least two groups (section 4.2 of RFC 5952) |
| `IpText.GapIffRun` | apps/api/src/request-ip.ts:278-280 | the text contains `::` exactly when two neighbouring groups are zero |
| `IpText.RoundTrip` | apps/api/src/request-ip.ts:220-250 | expanding the text of any sixteen-byte address gives the address back |
| `IpText.DottedRoundTrip` | apps/api/src/request-ip.ts:213-218 | reading a dotted address gives its four bytes back |
| `IpText.MappedReadsBack` | apps/api/src/request-ip.ts:220-250 | the `::ffff:` spelling of an IPv4 address expands to its mapped form |
| `ProxyRange.RangeContains` | apps/api/src/request-ip.ts:138-145 | an address is in a range exactly when families agree and the leading bits, read as integers, are equal |
| `ProxyRange.AgreeIffTop` | apps/api/src/request-ip.ts:138-145 | comparing bytes with a masked last byte is comparing the leading bits as integers |
| `ProxyRange.NormalizeKeepsAddress` | apps/api/src/request-ip.ts:203-211 | normalizing a mapped address changes its spelling only |
| `ProxyRange.CompiledRangeMeans` | apps/api/src/request-ip.ts:147-171 | a written range contains exactly the addresses whose leading bits agree, whatever the spelling, except that IPv4 addresses are lost to ranges shorter than the mapping |
| `ProxyRange.MappedSpellingIsIpv4` | apps/api/src/request-ip.ts:163-168 | the range written `::ffff:a.b.c.d/(96+k)` is the range `a.b.c.d/k` |
| `ClientIp.ResolveClientIp` | apps/api/src/request-ip.ts:54-69 | on the texts of peer and header: prints the peer, or unknown, or the rightmost hop that is malformed or not trusted |
| `ClientIp.ForgedTextIgnored` | apps/api/src/request-ip.ts:43-53 | whatever text a client puts in front of what the proxies appended, the answer is that for the appended text alone, once one of its hops stops the walk |
| `ClientIp.AppendedAddressIsClient` | apps/api/src/request-ip.ts:43-69 | when a trusted peer appends the printed address it saw and that is not a trusted proxy, the answer is that address, for every header the client sent |
| `AddressText.PrintedIsRead` | apps/api/src/request-ip.ts:179-201 | the printed text of an address, alone or after a comma and a blank, is parsed as that address, mapped spellings as IPv4 |
| `AddressText.HopsOfBoth` | apps/api/src/request-ip.ts:59-61 | the hops of two header texts joined by a comma are those of the first followed by those of the second, trimming included |
| `AddressText.BracketsIff` | apps/api/src/request-ip.ts:182-187 | a bracketed text is what is inside, if nothing follows or a colon and one to five digits, and no address otherwise |
| `AddressText.PortIff` | apps/api/src/request-ip.ts:188-190 | a text without brackets loses what follows its last colon if and only if four numbers of one to three digits and a port of one to five are written |
| `AddressText.ZoneIsCut` | apps/api/src/request-ip.ts:191-192 | a zone is cut off, and a text without one stays |
| `ClientIp.HeaderMattersIff` | apps/api/src/request-ip.ts:54-57 | some two header texts lead to different answers if and only if the peer is known and a trusted proxy |
| `ClientIp.TrustedClientIsPeer` | apps/api/src/request-ip.ts:48-53 | a trusted proxy is reported only when every hop is trusted too |
| `ClientIp.FormatIp` | apps/api/src/request-ip.ts:252-255 | the printed client address reads back as the address |
| `XmlText.EscapeIsOnePass` | packages/registry-chocolatey/src/chocolatey-validation.ts:173-180 | the five replacements code each special character once, where it stands |
| `XmlText.EscapesEach` | packages/registry-chocolatey/src/chocolatey-validation.ts:173-180 | escaping goes character by character: the five special ones become their entities, all others stay |
| `XmlText.EscapedIsInert` | packages/registry-chocolatey/src/chocolatey-validation.ts:173-180 | escaped text holds no angle bracket and no quote |
| `XmlText.DecodeIsOnePass` | packages/registry-chocolatey/src/chocolatey-nuspec.ts:95-102 | on every string the five replacements decode each entity where it stands, once, and nothing they produce |
| `XmlText.RoundTrip` | packages/registry-chocolatey/src/chocolatey-nuspec.ts:95-102 | decoding what was escaped gives every string back |
| `LruCache.BoundedLruCache.Get` | packages/core/src/runtime.ts:37-43 | a hit moves its key to the end and returns its value; a miss changes nothing |
| `LruCache.BoundedLruCache.Has` | packages/core/src/runtime.ts:45-47 | exactly whether the key is held |
| `LruCache.BoundedLruCache.Set` | packages/core/src/runtime.ts:49-58 | the key moves to the end with its new value and the oldest are dropped until there is room |
| `LruCache.BoundedLruCache.Delete` | packages/core/src/runtime.ts:60-62 | the key is gone, and the answer says whether it was there |
| `LruCache.BoundedLruCache.DeleteWhere` | packages/core/src/runtime.ts:64-71 | exactly the entries the predicate rejects stay, in order, and the count is right |
| `LruCache.BoundedLruCache.Clear` | packages/core/src/runtime.ts:73-75 | nothing is held |
| `LruCache.HistoryInvariant` | packages/core/src/runtime.ts:26-76 | after any history with deletions: at most the limit, in the order of last touch without repetition, each with the value last set |
| `LruCache.HoldsMostRecent` | packages/core/src/runtime.ts:37-58 | without deletions the keys held are exactly the most recently touched ones, in that order |
| `LruCache.HitIff` | packages/core/src/runtime.ts:37-58 | a get hits exactly when fewer than the limit of different keys were touched since that key was |
| `AsyncLimiter.Limiter.Acquire` | packages/core/src/runtime.ts:137-143 | takes a free slot or queues at the end |
| `AsyncLimiter.Limiter.Release` | packages/core/src/runtime.ts:149-156 | hands the slot to the first waiter, or frees it |
| `AsyncLimiter.EndHoldsSlot` | packages/core/src/runtime.ts:154-154 | whenever a task ends a slot is taken, so the floor at zero never acts |
| `AsyncLimiter.StepKeepsInv` | packages/core/src/runtime.ts:132-158 | every call and every end, failed or not, keeps: slots taken are tasks at work, and nobody waits while a slot is free |
| `AsyncLimiter.NeverAboveLimit` | packages/core/src/runtime.ts:137-143 | in every reachable state at most the limit of tasks are at work |
| `AsyncLimiter.GrantedIsPrefix` | packages/core/src/runtime.ts:145-157 | the tasks granted so far are exactly the first callers, as many as the limit plus the tasks ended: first come first served and no slot lost |
| `AsyncLimiter.WaitersImplyWork` | packages/core/src/runtime.ts:137-157 | while somebody waits somebody is at work |
| `BoundedMap.StepKeepsInv` | packages/core/src/runtime.ts:168-173 | every worker step keeps: each taken index is with one worker or settled, and results hold exactly the settled values |
| `BoundedMap.ResultsInInputOrder` | packages/core/src/runtime.ts:160-176 | when all workers have returned the results hold, in input order, the value settled for each index |
| `BoundedMap.EachIndexOnce` | packages/core/src/runtime.ts:168-173 | under every schedule each index is started exactly once |
| `BoundedMap.ScheduleBounded` | packages/core/src/runtime.ts:166-174 | every schedule ends: at most two steps an item and one a worker |
| `BoundedMap.NeverAboveLimit` | packages/core/src/runtime.ts:166-173 | under every schedule the items started and not yet settled never outnumber the limit |
| `BoundedMap.SucceedsIff` | packages/core/src/runtime.ts:168-174 | once no worker can move, all have returned normally if and only if no item was rejected |
| `Throttle.ThrottleTable.Consume` | packages/auth/src/throttle.ts:13-52 | the row counts one more or starts a new window, and the outcome follows from the row |
| `Throttle.ThrottleTable.Clear` | packages/auth/src/throttle.ts:54-58 | the key has no row any more and every other key keeps its own |
| `Throttle.ThrottleTable.Sweep` | packages/auth/src/throttle.ts:60-66 | a key keeps its row exactly while its window has not ended before now, and the removed rows are counted |
| `Throttle.RetryAfterIsLeastWait` | packages/auth/src/throttle.ts:68-70 | for a throttled caller, waiting so many whole seconds lets the next attempt through exactly when they are at least the stated ones and any attempt is allowed at all |
| `Throttle.SweepsUnnoticed` | packages/auth/src/throttle.ts:60-66 | with time that does not go back, leaving out all sweeps changes no outcome of any attempt on any key |
| `Throttle.WindowBound` | packages/auth/src/throttle.ts:13-52 | any half-open interval as long as the window lets at most 2 * maxAttempts - 1 attempts through, and none when none are allowed |
| `Throttle.BoundIsMet` | packages/auth/src/throttle.ts:13-52 | for all limits a run meets that bound |
| `AccessUsers.AccessStore.SnapshotAccess` | packages/auth/src/access-users.ts:116-154 | a snapshot that is there is kept, otherwise it takes the user’s rows |
| `AccessUsers.AccessStore.RestoreAccess` | packages/auth/src/access-users.ts:165-267 | the snapshot is consumed and its surviving rows are inserted beside those that are there |
| `AccessUsers.AccessStore.SetUserActive` | packages/auth/src/access-users.ts:278-306 | the whole new state of switching a user on or off; an unknown user changes nothing |
| `AccessUsers.AccessStore.AddOrgMember` | packages/auth/src/access-users.ts:317-319 | adds the membership if user and organization exist |
| `AccessUsers.AccessStore.RemoveOrgMember` | packages/auth/src/access-users.ts:321-333 | of the user’s rows exactly those of the organization go, membership, group rows and grants; every other row of this user and of all others stays |
| `AccessUsers.AccessStore.AddGroupMember` | packages/auth/src/access-groups.ts:86-142 | the verdicts in order, and the new row only after all of them |
| `AccessUsers.AccessStore.RemoveGroupMember` | packages/auth/src/access-groups.ts:144-154 | removes exactly that row |
| `AccessRows.SameScopeIff` | packages/db/src/schema/auth.ts:83-95 | two grants collide under the unique index if and only if they differ in nothing but the granter, the source, and empty for absent text |
| `AccessUsers.StepKeepsInv` | packages/auth/src/access-users.ts:116-333 | every operation, creation and cascading deletion keeps all foreign keys, the implication of org membership by group membership, and snapshots for inactive users only |
| `AccessUsers.GrantedIff` | packages/db/src/schema/auth.ts:57-96 | a grant is added under its key if and only if everything it names exists and the key is free; no other row changes |
| `AccessUsers.ReactivationKeepsInv` | packages/auth/src/access-users.ts:165-267 | the rows reactivation inserts all have their referents, so it cannot fail on a foreign key |
| `AccessUsers.ReachableStates` | packages/auth/src/access-users.ts:110-154 | in every reachable state a group membership implies the org membership and a snapshot an inactive user |
| `AccessUsers.SnapshotPersists` | packages/auth/src/access-users.ts:110-115 | the first deactivation’s snapshot survives further deactivations and any deletions |
| `AccessUsers.ReactivationRestores` | packages/auth/src/access-users.ts:156-267 | after anything that spares the user, reactivation yields the rows present plus exactly the rows of the first deactivation whose referents exist |
| `AccessUsers.ReactivationIsExact` | packages/auth/src/access-users.ts:156-267 | with nothing added meanwhile the rows are exactly those survivors |
| `AccessUsers.OffAndOnIsNothing` | packages/auth/src/access-users.ts:269-306 | switching an active user off and on restores the whole state |
| `AccessUsers.RemovedWhileInactiveReturns` | packages/auth/src/access-users.ts:321-333 | a user removed from an organization while inactive is a member again after reactivation exactly when the snapshot has the organization and it exists |

## Left out

- Heartbeats are events of the outbox protocol that may happen or not, and only `ScanOutboxProtocol.BeatRenews` speaks of them: in the source the interval is stopped as soon as the scan is started, so a live scan can be reclaimed and the token is what protects the row.
- The token guards the outbox row only; writes of a stale worker to the artifacts table are not part of this model.
- EmailLease.OnlyOwnClaimsIff: a losing claim may be as late as it likes; confirming restamps the row, as the column's update hook does.
- EmailLease.NeverRestampedIff: a confirmation reads the clock once, where the source reads it once for `sentAt` and again, in the same stretch, for the update hook.
- EmailLease.SendsAreBounded: needs live workers to settle within the takeover time; `EmailLease.SendsAreBoundedIff` shows the time exact.
- Database isolation, SQL and the mapping library: each statement or transaction is one atomic step.
- Loading an artifact, its repository and module, persisting findings, telemetry, logging and timers.
- Scanner results, manifest references and dependency findings are inputs; severity is the order of the policy, five levels above the unknown one, and scores are reals.
- ScanRun.ProcessScan: a walk that succeeds is given by its result, constrained to be one a settled walk yields, rather than interleaved again with the byte scans.
- ManifestWalk.Walk: the cooperative workers are driven by a choice of the model; that every schedule gives the same result is `ManifestWalk.ScheduleDoesNotMatter`.
- The request authorizer's memo, whose key leaves out part of what the decision depends on.
- Grants.NoGrantExceedsGiver: speaks of repositories that existed at the check, of packages and artifacts named by the grant or the request, of a named token target, and of a giver whose own patterns have no inner star; `GrantLimits.NeverExceedsIff` and `GrantLimits.PatternIsSafeIff` show for which grants and patterns each condition is needed.
- GrantLimits.NeverExceedsIff: keeps the condition that the giver's own patterns are sound; `GrantLimits.PatternIsSafeIff` is about that one.
- GrantLimits.AddingMemberNeverEscalates: under the same conditions on the group's rows and the acting principal's patterns, and for the rows the check read; of later ones `GrantLimits.LaterGroupGrantEscapes` speaks.
- GrantLimits.PatternIsSafeIff: the holder has the one grant with that one pattern; policy permissions are left out: they are checked under the names of existing repositories, never under a pattern.
- ArchVersion.ArchVercmpIsTotalPreorder: epochs are integers, so the rounding of epochs from 2^53 on is not modelled.
- Semver.CompareSemver: versions are those the publishing validation accepts, with components below 2^53.
- Chocolatey.NormalizeIsIdempotent: numbers are below 2^53; how larger ones are printed is a parameter of the model, so nothing is said of reading them again. Chocolatey.CompareChocolateyVersions is stated on normal forms, which have such numbers.
- Text is a sequence of code units; surrogate pairs, UTF-8 encoding and decoding are not modelled. Tar paths are the ASCII that validation lets through.
- Header parameters of a multipart part (`name`, `filename`) and the boundary parameter, which are regular-expression searches.
- Multipart.ParseMultipartParts: works on the byte strings it looks for, and the test of the two closing dashes is the search for them at the cursor.
- Rendering the `desc` text of a database entry; it is a field of the entry.
- Compression and hashing (gzip, zstd, inflate, SHA): foreign calls.
- TarReader.HeaderSeen: of the UTF-8 decoder, a parameter, only that it reads ASCII as it stands is used.
- Octal size text follows `parseInt` with sign and leading blanks; a size is limited by its twelve characters, so no rounding occurs.
- `isIP`, which decides the syntax of an address, is a parameter of `AddressText`; the addresses of `ProxyRange` enter parsed.
- IpText.MappedReadsBack: of the embedded IPv4 forms only the mapped one is stated.
- `attrMap`, `parseODataKey`, `scanXmlTags` and the zip directory reader of the nuspec file.
- LruCache.HitIff: histories of gets and sets; with deletions the general statement is `LruCache.HistoryInvariant`.
- Starvation and fairness of the JavaScript event loop; every schedule is allowed.
- AccessUsers.AccessStore.AddGroupMember: the verdict on the group's grants is a parameter here; `GrantLimits.AddGroupMember` models the check itself. The group is looked up before the transaction and here in the same step; one deleted in between makes the insert fail on its foreign key, with nothing changed either way.
- BoundedMap.NeverAboveLimit: the values given to a worker are inputs of the run; a worker that never settles keeps its index.
- AccessUsers.StepKeepsInv: sessions, token revocation, profile fields and the sign-in synchronisation of groups are not part of the state; identifiers are numbers and the all-zero identifier is taken to be unused.
- The stored hash of throttle scope and key stands for the pair.
