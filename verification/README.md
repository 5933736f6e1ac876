# Models of totoggle, with proofs

totoggle keeps feature toggles in trees of dotted paths, serves each application's tree to client
libraries under a service key, and lets teams approve sensitive changes. This project models the parts
whose correctness is not visible from any one function, and proves what they promise.

**Toggle trees** (`ToggleStore`, `ToggleOperations`, `ToggleEffects`, `ToggleService`, `ToggleEvaluation`,
`ToggleHierarchy`, `ToggleCounterexamples`, `Paths`). Rows point to their parents and are archived, never
removed. Every use case is a method over a mutable repository, proved equal to a transition on the table;
the transitions are shown to keep the tree well-formed over whole runs, with the exact condition under
which a restore does. A table is well-formed when live paths are unique per application, a live row's
parent is live, and path and level follow from the parent's.

**Evaluation** (`ToggleEvaluation`, `SdkEvaluation`, `PathValidation`, `CatalogueDecoding`). Whether a
toggle is on is computed four times: by recursion over parent links, by looking for a blocking ancestor, by
pushing bits down while building the UI's tree, and by the Go client from path prefixes alone. All four are
shown to agree, the last one for every catalogue that the client can decode, and over every run whose
creations passed the endpoint's check of their paths.

**Catalogue, entity-tags, client cache** (`Catalogue`, `EntityTags`, `RefreshCache`). The served catalogue
has one canonical order and its revision identifies it; the `If-None-Match` loops are proved against a
printer of entity-tag lists (RFC 9110).

**Client protocols** (`RefreshProtocol`, `RefreshEvents`, `ShutdownProtocol`, `NodeClient`, `Backoff`, `Powers`). The Go
client is a transition system whose steps are the individual lock, load, channel and cache operations of
Start, the background loop, Refresh and Shutdown, interleaved with server edits. The Node client is an
object whose methods are the turns of the event loop.

**Service keys and approvals** (`SecretKeys`, `Approvals`). Rotation with one overlap slot, and the request
workflow that alone switches requested keys on.

**Limiter, paging, address matching** (`RateLimiter`, `AuditPaging`, `Cidr`, `Ipv6Cidr`).

`Wrappers` holds the option and error types.

## Assumptions

- Generated identifiers are never reused. Only insertions of toggle rows and of approval requests can
  fail; reads and key-store writes do not.
- The catalogue digest prints as 64 hexadecimal digits and tells apart the catalogues of the run at hand,
  those and no others; nothing is assumed of it where the catalogues do not matter. Key hashes are compared
  as given.
- The answers of the access policy (may this user read, act), of lookups of users, teams and applications,
  and of approved actions that are not about keys are arguments of each operation.
- A response may lose its ETag header and a fetch may fail in any way; a catalogue that arrives is the
  server's own.
- Rule evaluation is an arbitrary function of the published row. Metrics listeners do not call back into
  the client.
- The clocks of the limiter and of audit requests never run backwards. The audit log is ordered by time and
  id, both descending, and entries that arrive later are newer.
- Node's isIP accepts hexadecimal groups, at most one "::" and a final dotted quad without leading zeros.
- Start and Shutdown are modelled with any number of callers of which one wins each compare-and-swap;
  Refresh with any number of callers.

## Where the code and what is said about it differ

- `newSlidingWindowLimiter` is a fixed window that opens with a call: the bound over an interval of one
  window length is 2*max(limit, 1)-1, and it is reached (max(limit, 1) for a window of zero).
- Shutdown during Start (`totoggle_go/client.go:133-135`) either waits forever on a channel that did not
  exist when it looked, or leaves a loop that nothing stops. `ShutdownSafeIff` is the exact condition.
- The collision check of a restore looks at live rows only, so two archived rows on one path can both come
  back; and nothing checks that the parent is live. `RestoreKeepsWellFormedIff` is the exact condition.
- The endpoint refuses paths with empty segments, but an approved creation is executed without that check
  (`server/internal/app/usecase/approval_usecase.go:900-927`), and the Go client rejects a catalogue that shows
  such a path as a whole. `CreateKeepsDecodableIff` is the exact condition, failed creations included.
- A page size of 100 loses the look-ahead row to the clamp, and with a time range every request measures the
  range anew, so that a row can leave it before its page comes. `WalkIsCompleteIff` is the exact condition.
- An IPv6 text that ends in a dotted quad is cut into one part too few, and of the quad only the first octet is
  read, in hexadecimal. `ReadsRightIff` is the exact condition, and
  `AddressMatchedRightIff` and `NetworkMatchedRightIff` say what it means for matching.
- When the insertion of a key request fails, its inactive key stays behind with no owner.
  `OwnershipKeptIff` is the exact condition.
- `server/internal/app/usecase/mocks.go:180-199` deletes archived descendants again, which a repository that
  only walks live rows does not; both leave the same table (`ArchivingLiveRowsIsEnough`).

## Model

| member | source | states |
|---|---|---|
| `Paths.SplitJoinWith` | server/internal/app/domain/entity/toggle.go:113-120 | splitting undoes joining, for parts without the separator |
| `Paths.JoinSplitAt` | server/internal/app/domain/entity/toggle.go:113-120 | joining undoes splitting, for every text |
| `ToggleService.ToggleRepository.Delete` | server/internal/app/usecase/mocks.go:180-199 | the recursive soft delete archives exactly the subtree, archived rows included, and returns on every well-structured table |
| `ToggleService.ToggleRepository.Restore` | server/internal/app/usecase/mocks.go:267-285 | the recursive restore revives exactly the archived subtree |
| `ToggleService.ToggleUseCase.CreateToggle` | server/internal/app/usecase/toggle_usecase.go:25-53 | new table and error of a creation from a dotted path, blank inputs, unknown application, taken path and failing insertion included |
| `ToggleService.ToggleUseCase.CreateToggleHierarchy` | server/internal/app/usecase/toggle_usecase.go:56-99 | the level-by-level creation: existing ancestors are reused, the others inserted in order up to the first failing insertion |
| `ToggleService.ToggleUseCase.UpdateToggle` | server/internal/app/usecase/toggle_usecase.go:169-191 | finds the live row at the path and sets its bit, that bit and that row only; refused otherwise |
| `ToggleService.ToggleUseCase.UpdateEnabledRecursively` | server/internal/app/usecase/toggle_usecase.go:276-300 | sets the bit of exactly the live subtree and changes no other row |
| `ToggleService.ToggleUseCase.UpdateToggleById` | server/internal/app/usecase/toggle_usecase.go:318-334 | sets the bit of one live row of the application, or fails without effect |
| `ToggleService.ToggleUseCase.BulkUpdateEnabled` | server/internal/app/usecase/toggle_usecase.go:343-353 | updates the listed rows up to the first one that is rejected, and reports that error |
| `ToggleService.ToggleUseCase.DeleteToggleById` | server/internal/app/usecase/toggle_usecase.go:362-382 | marks the root with its deleter and archives the subtree, or fails without effect |
| `ToggleService.ToggleUseCase.RestoreToggle` | server/internal/app/usecase/toggle_usecase.go:389-413 | revives an archived root if no path of its archived subtree is taken by a live row, or fails without effect |
| `ToggleService.ToggleUseCase.CheckRestoreCollision` | server/internal/app/usecase/toggle_usecase.go:417-436 | true exactly when no row of the subtree has a live row on its path |
| `ToggleEffects.OperationMeans` | server/internal/app/usecase/toggle_usecase.go:25-436 | what each operation means to its caller, row by row and column by column and without the transition function: the refusals in their order, which rows get which columns, and that nothing else changes |
| `ToggleOperations.CreateFromIsSafe` | server/internal/app/usecase/toggle_usecase.go:56-99 | creation keeps the tree well-formed and the old rows untouched, and inserts only rows on prefixes of the path, wherever an insertion fails |
| `ToggleOperations.CreateAddsPath` | server/internal/app/usecase/toggle_usecase.go:25-99 | a creation that succeeds leaves a live row on the requested path |
| `ToggleOperations.OperationKeepsWellFormedIff` | server/internal/app/usecase/toggle_usecase.go:25-436 | every operation keeps the live tree well-formed, except a restore, which does so if and only if its parent is live (or it is a root) and its archived subtree has no path twice |
| `ToggleOperations.RunStaysWellFormedIff` | server/internal/app/usecase/toggle_usecase.go:25-436 | a run stays well-formed at every point if and only if each of its successful restores meets the two conditions |
| `ToggleStore.RestoreKeepsWellFormedIff` | server/internal/app/usecase/toggle_usecase.go:389-436 | exactly when reviving an archived subtree is safe |
| `ToggleStore.ArchivingSubtreeKeepsWellFormed` | server/internal/app/usecase/mocks.go:180-199 | archiving a whole subtree orphans nobody |
| `ToggleStore.ArchivingLiveRowsIsEnough` | server/internal/app/infrastructure/database/toggle_repository.go:72-88 | archiving the live part of a live row's subtree leaves the same table as archiving all of it |
| `ToggleCounterexamples.RestoreUnderArchivedParent` | server/internal/app/usecase/toggle_usecase.go:389-413 | a concrete run in which only the first condition fails, and a live row ends up under an archived parent |
| `ToggleCounterexamples.RestoreOfTwinRows` | server/internal/app/usecase/toggle_usecase.go:417-436 | a concrete run in which only the second condition fails, and two live rows end up on one path |
| `ToggleOperations.RestoreRevivesSubtree` | server/internal/app/usecase/mocks.go:267-285 | after a successful restore the live rows are the old ones and the archived descendants, and nothing outside the subtree changed |
| `ToggleOperations.DeleteThenRestore` | server/internal/app/usecase/toggle_usecase.go:362-413 | deleting a subtree without archived rows and restoring it brings the live tree back exactly |
| `ToggleEvaluation.AncestorBlocker` | server/internal/app/usecase/toggle_usecase.go:146-166 | reports no blocker exactly when every proper ancestor is enabled, and otherwise names the disabled one closest to the root |
| `ToggleEvaluation.Climb` | server/internal/app/usecase/toggle_usecase.go:146-156 | collects the proper ancestors, nearest first |
| `ToggleEvaluation.EnabledIffChain` | server/internal/app/usecase/toggle_usecase.go:122-137 | the recursion holds exactly when every row from the root down is enabled |
| `ToggleEvaluation.EnabledIffNotBlocked` | server/internal/app/usecase/toggle_usecase.go:122-166 | the recursion agrees with own bit and no blocker, on every live row |
| `ToggleHierarchy.BuildHierarchyArray` | server/internal/app/usecase/toggle_usecase.go:228-244 | the two loops build the tree that the level-wise specification describes |
| `ToggleHierarchy.BuildToggleNode` | server/internal/app/usecase/toggle_usecase.go:246-273 | the recursion over buckets terminates and builds one node with its children, bit pushed down |
| `ToggleHierarchy.HierarchyConserves` | server/internal/app/usecase/toggle_usecase.go:228-273 | flattened, the array holds every live row of the application exactly once, with its name, under its own parent, with the bit the recursion computes |
| `ToggleHierarchy.HierarchyIsOrdered` | server/internal/app/usecase/toggle_usecase.go:228-273 | siblings come in the order of the listing, at every depth |
| `Catalogue.SimplifyCatalogueToggles` | server/internal/app/handler/secret_key_handler.go:67-95 | shows every column of every row, except deletion marks and stale rules, and nothing else, ordered by path, then id |
| `Catalogue.StringLessIff` | server/internal/app/handler/secret_key_handler.go:86-94 | the order of paths and ids is the one of their first difference |
| `Catalogue.SortIsCanonical` | server/internal/app/handler/secret_key_handler.go:86-94 | sorting yields a strictly ordered permutation when ids are distinct |
| `Catalogue.CanonicalIsUnique` | server/internal/app/handler/secret_key_handler.go:86-94 | there is only one strictly ordered listing of given rows |
| `Catalogue.CatalogueIgnoresQueryOrder` | server/internal/app/handler/secret_key_handler.go:67-95 | any two orders of the same rows give the same catalogue |
| `Catalogue.RevisionIdentifiesCatalogue` | server/internal/app/handler/secret_key_handler.go:53-95 | two reads, of any applications, get equal revisions if and only if they show the same application id, name and visible rows |
| `SdkEvaluation.NewPath` | totoggle_go/internal/toggle/path.go:28-38 | accepts exactly the non-blank dotted paths without an empty segment |
| `SdkEvaluation.AncestorPaths` | totoggle_go/internal/toggle/path.go:49-56 | yields the proper prefixes of the path, shortest first |
| `SdkEvaluation.NewApplication` | totoggle_go/internal/toggle/application.go:12-18 | indexes the catalogue by path; of several rows on one path the last one stays |
| `SdkEvaluation.AncestorsOf` | totoggle_go/internal/toggle/application.go:29-38 | exactly the rows at the configured prefixes, in their order, root first |
| `SdkEvaluation.AncestorsOnIff` | totoggle_go/client.go:287-294 | walking the ancestors that exist asks for the enabled bit of every configured prefix |
| `SdkEvaluation.Evaluate` | totoggle_go/client.go:263-294 | what one evaluation answers: no empty segment, the row exists and is on, every catalogued prefix is on, and the rule, if there is one, matches |
| `SdkEvaluation.SdkAgreesWithServer` | totoggle_go/client.go:263-294 | on every well-formed table and decodable catalogue the path-prefix walk gives the answer of the server's parent links, for every path and every rule matcher |
| `PathValidation.ValidateTogglePath` | server/internal/app/domain/entity/validation.go:71-105 | accepts exactly the paths of at most 1000 characters whose segments are all names, and lists exactly the complaints that are due, in order |
| `PathValidation.NameCharIff` | server/internal/app/domain/entity/validation.go:95 | the characters of a name, by their code points |
| `PathValidation.StrayDotsAreRefused` | server/internal/app/domain/entity/validation.go:84-92 | a dot at an end or two in a row leave a segment that is no name |
| `CatalogueDecoding.DecodesIff` | totoggle_go/internal/toggle/path.go:28-38 | a catalogue decodes exactly when no visible path has an empty segment |
| `CatalogueDecoding.CreateKeepsDecodableIff` | server/internal/app/usecase/toggle_usecase.go:25-99 | a creation, whatever its outcome, makes a catalogue undecodable if and only if it is accepted, for the same application, its path has an empty segment, and no insertion fails up to the first such segment |
| `CatalogueDecoding.OccupiedAfterIff` | server/internal/app/usecase/toggle_usecase.go:56-99 | after a creation, whatever its outcome, a prefix of the path is taken if and only if it was before or no insertion failed up to it |
| `CatalogueDecoding.SuccessKeepsDecodableIff` | server/internal/app/usecase/toggle_usecase.go:25-99 | a creation that goes through keeps a catalogue decodable if and only if its path has no empty segment or it is for another application |
| `CatalogueDecoding.ValidatedRunAgrees` | server/internal/app/handler/toggle_handler.go:121-127 | after any run whose creations passed the endpoint's check, the client answers as the server for every application, path and rule matcher |
| `CatalogueDecoding.EmptySegmentDisagrees` | server/internal/app/usecase/approval_usecase.go:900-927 | a concrete approved creation, of "a..b", that goes through unchecked and after which client and server disagree about "a" |
| `CatalogueDecoding.DisablingNeverActivates` | server/internal/app/usecase/toggle_usecase.go:169-353 | clearing bits, by path, id, list or tree, turns no client answer from false to true, whatever the catalogue |
| `CatalogueDecoding.DisabledNodeSilencesSubtree` | totoggle_go/client.go:287-294 | below a disabled row every path answers false |
| `CatalogueDecoding.DisablingSilences` | server/internal/app/usecase/toggle_usecase.go:169-191 | once an application's path has been disabled, the client answers false for it and for every path below it, whatever the rules and the bits below |
| `CatalogueDecoding.EnablingUnblocks` | server/internal/app/usecase/toggle_usecase.go:122-191 | once a path has been enabled, its toggle is on if and only if no ancestor is off |
| `EntityTags.IfNoneMatchMatches` | server/internal/app/handler/secret_key_handler.go:99-139 | the scanning loops stay in range, terminate on every header, and answer true exactly for an asterisk or a list that begins with quoted tags the last of which is the current one |
| `EntityTags.ListReadsPrinted` | server/internal/app/handler/secret_key_handler.go:104-138 | the list part, on any printed list, finds exactly the tags in it |
| `EntityTags.MatchesPrintedIff` | server/internal/app/handler/secret_key_handler.go:99-139 | on every printed non-empty list of plain tags, weak or not and with any blanks, true exactly when some opaque tag is the current one (sections 8.8.3.2 and 13.1.2 of RFC 9110) |
| `EntityTags.MatchesSingleIff` | server/internal/app/handler/secret_key_handler.go:99-139 | a replayed single tag matches exactly when it is the current one |
| `EntityTags.ListMatchOccurs` | server/internal/app/handler/secret_key_handler.go:104-138 | on any header at all, a list match implies that the current tag occurs in it literally |
| `EntityTags.ListMatchesIff` | server/internal/app/handler/secret_key_handler.go:104-138 | on every text, the list part matches exactly if the text begins with a comma-separated list of quoted tags, weak or not and with escaped quotes inside, the last of which is the current one |
| `EntityTags.FindClosingQuote` | server/internal/app/handler/secret_key_handler.go:114-124 | stops at the first quote that is not escaped by a backslash |
| `Paths.TrimsTo` | server/internal/app/handler/secret_key_handler.go:99-103 | trimming takes the spaces off both ends and nothing else |
| `RefreshCache.Cache.UpdateCatalog` | totoggle_go/internal/cache/cache.go:39-49 | replaces snapshot, tag, revision and counters together |
| `RefreshCache.Cache.RecordFreshness` | totoggle_go/internal/cache/cache.go:53-65 | refused without a snapshot; otherwise keeps it, clears the failures and replaces the tag if one came |
| `RefreshCache.Cache.RecordFailure` | totoggle_go/internal/cache/cache.go:68-74 | counts one more failure, keeps its error and time, and keeps the snapshot and its tag |
| `RefreshCache.Cache.Clear` | totoggle_go/internal/cache/cache.go:96-102 | back to the empty cache |
| `RefreshCache.IsSafeETag` | totoggle_go/internal/serverapi/fetch.go:55-65 | the scanning loop accepts exactly the safe tags, their length counted in bytes |
| `RefreshCache.HexTagIsSafe` | totoggle_go/internal/serverapi/fetch.go:55-65 | every hexadecimal tag survives the client's filter |
| `RefreshCache.NotModifiedIff` | server/internal/app/handler/secret_key_handler.go:280-292 | a replayed tag is answered 304 exactly when the catalogue is still the same one, if the digest tells these two apart |
| `RefreshCache.ServesCurrent` | server/internal/app/handler/secret_key_handler.go:280-292 | an answer carries the current tag, and the current catalogue unless it is a 304 |
| `RefreshCache.InterpretedIff` | totoggle_go/internal/serverapi/fetch.go:70-112 | which result a response leads to, exactly, and with which contents |
| `RefreshProtocol.SomeDigestServes` | server/internal/app/handler/secret_key_handler.go:53-65 | for any two catalogues a digest that tells them apart, and a run that serves both |
| `RefreshProtocol.RunKeepsOrder` | totoggle_go/client.go:123-240 | mutual exclusion and shutdown phases, in every interleaving, for any digest |
| `RefreshProtocol.RunKeepsInv` | totoggle_go/client.go:123-240 | the cached data stay valid in every interleaving with server edits, if the digest tells apart the catalogues of that run |
| `RefreshProtocol.RecordedIsCoherent` | totoggle_go/client.go:187-218 | a recorded 200 or 304 leaves the cache equal to the server's catalogue at the instant it answered; a 304 never precedes the first snapshot; a failure keeps the snapshot |
| `RefreshProtocol.EarlyNotModifiedFails` | totoggle_go/client.go:205-212 | a 304 before any snapshot, from whatever server, is a failure of its own kind and keeps the empty cache |
| `RefreshProtocol.ReadsNeverGoBack` | totoggle_go/client.go:263-283 | a read answers exactly as one catalogue the server had, or false without a snapshot, and never as an older one than an earlier read |
| `RefreshProtocol.ShutdownIsTerminal` | totoggle_go/client.go:379-392 | from the clear on the cache stays empty, nothing is recorded or notified and every evaluation is false, whatever its loads saw before |
| `RefreshEvents.ReportsAreRecorded` | totoggle_go/client.go:187-218 | in every interleaving each reported failure counts itself, and the last report agrees with the failures, the error and the number of toggles in the cache |
| `RefreshEvents.LateAnswersAreDropped` | totoggle_go/client.go:187-200 | an answer that arrives after Shutdown has begun is never recorded or reported |
| `RefreshEvents.NothingBeforeStart` | totoggle_go/client.go:220-240 | in every interleaving, before a Start has won nobody refreshes, nothing is cached and nothing is reported |
| `RefreshEvents.NothingBeginsAfterShutdown` | totoggle_go/client.go:187-200 | once Shutdown has begun and no refresh is past its check, no request is sent and nothing is recorded or reported any more |
| `ShutdownProtocol.ShutdownSafeIff` | totoggle_go/client.go:123-138 | calling Shutdown is safe in every continuation if and only if no Start call is under way |
| `ShutdownProtocol.StuckForever` | totoggle_go/client.go:379-392 | once Shutdown waits on a channel that did not exist when it looked, it waits forever |
| `ShutdownProtocol.LeakForever` | totoggle_go/client.go:133-156 | a loop that Shutdown did not see is never told to stop |
| `ShutdownProtocol.ReturnedMeansLoopGone` | totoggle_go/client.go:379-392 | after any run, a Shutdown that begins with no Start under way returns only after the loop has exited |
| `ShutdownProtocol.EveryScheduleEnds` | totoggle_go/client.go:379-392 | every schedule of such a shutdown takes a bounded number of effective steps besides edits and timers, and one that can take no more has returned |
| `ShutdownProtocol.RefreshNeverDeadlocks` | totoggle_go/client.go:187-218 | whoever waits for the refresh mutex, its holder can take a step |
| `ShutdownProtocol.ShutdownCanFinish` | totoggle_go/client.go:379-392 | wherever a schedule has brought such a shutdown, some continuation completes it |
| `Backoff.MultipliedDuration` | totoggle_go/config.go:127-132 | the product, saturated at the largest duration |
| `Backoff.NewConfig` | totoggle_go/config.go:111-119 | exactly which pairs of durations are refused, and the default maximum of sixteen intervals |
| `Backoff.DoubledDelay` | totoggle_go/client.go:158-169 | the loop computes min(max, interval * 2^(failures-1)) with no 64-bit overflow |
| `Backoff.BackoffDelay` | totoggle_go/client.go:158-185 | for any jitter the delay is that value moved by at most a fifth, positive, at most the maximum, with no overflow |
| `Backoff.ExponentialGrows` | totoggle_go/client.go:158-169 | more failures never shorten the delay before jitter |
| `Backoff.ExponentialSchedule` | totoggle_go/client.go:158-169 | the first failure waits one interval and each further one twice as long, up to the maximum |
| `NodeClient.EventLoopClient.Refresh` | totoggle_node/src/client.ts:189-203 | the state after a refresh call, guards included |
| `NodeClient.EventLoopClient.CallRefreshOnce` | totoggle_node/src/client.ts:146-155 | joins the fetch in flight or starts one |
| `NodeClient.EventLoopClient.ScheduleRefresh` | totoggle_node/src/client.ts:118-129 | replaces the armed timer, unless shut down |
| `NodeClient.EventLoopClient.OnFetchSettled` | totoggle_node/src/client.ts:157-182 | takes a response in, or drops it after shutdown |
| `NodeClient.EventLoopClient.Shutdown` | totoggle_node/src/client.ts:329-339 | disarms the timer and clears the cache |
| `NodeClient.EverySchedule` | totoggle_node/src/client.ts:96-203 | in every schedule at most one fetch in flight and one timer armed; between start and shutdown a timer or a refresh that will arm one; after shutdown none |
| `NodeClient.ShutdownIsTerminal` | totoggle_node/src/client.ts:329-339 | after shutdown no late response is applied or reported and no fetch is started |
| `NodeClient.SomeTurnAdvances` | totoggle_node/src/client.ts:118-203 | an outstanding refresh always has a next turn of its own that can happen, whatever its fetch returns |
| `NodeClient.OutstandingRefreshRearms` | totoggle_node/src/client.ts:118-203 | in every schedule of a client that is not shut down, an outstanding refresh is over exactly when the schedule took its at most three own turns, and it ended with a timer armed, whatever the fetches returned |
| `NodeClient.EventLoopClient.TakeResponse` | totoggle_node/src/client.ts:157-182 | a 200 replaces toggles and tag, a 304 keeps the toggles and clears the failures, a useless response is only counted; each is reported |
| `NodeClient.CacheReflectsResponses` | totoggle_node/src/client.ts:146-182 | over whole schedules before shutdown: toggles, tag and failure count of the cache, and every report, are those of the responses in the order in which they settled |
| `SecretKeys.SecretKeyUseCase.RotateExistingKeys` | server/internal/app/usecase/secret_key_usecase.go:75-97 | whatever the iteration order, the current key becomes previous, the previous one is gone, pending keys stay |
| `SecretKeys.SecretKeyUseCase.ActivateAndRotateSecretKey` | server/internal/app/usecase/secret_key_usecase.go:118-130 | rotation, then the key is switched on if it is still there |
| `SecretKeys.SecretKeyUseCase.RegenerateSecretKey` | server/internal/app/usecase/secret_key_usecase.go:202-208 | rotation, then a new current key with this hash, owner and application; a refused creation still leaves the rotation done |
| `SecretKeys.SecretKeyUseCase.ValidateSecretKey` | server/internal/app/usecase/secret_key_usecase.go:174-197 | only an active key with the hash authenticates, and only its timestamp changes |
| `SecretKeys.ActivateKeepsSlots` | server/internal/app/usecase/secret_key_usecase.go:118-130 | at most one active current and one active previous key per application, also when an activation is repeated |
| `SecretKeys.RegenerateKeepsSlots` | server/internal/app/usecase/secret_key_usecase.go:202-208 | the same for a regeneration |
| `SecretKeys.LastTwoAuthenticate` | server/internal/app/usecase/secret_key_usecase.go:75-130 | the two slots of an application after any run of rotations, requests and withdrawals |
| `SecretKeys.RotationsFromEmpty` | server/internal/app/usecase/secret_key_usecase.go:75-208 | after n rotations exactly the keys of the last min(n, 2) authenticate |
| `SecretKeys.LastTwoHashesValidate` | server/internal/app/usecase/secret_key_usecase.go:43-197 | after any run a presented hash is let in if and only if it was given to one of the last min(n, 2) keys that the rotations of an application made current |
| `SecretKeys.PendingIsUntouched` | server/internal/app/usecase/secret_key_usecase.go:75-97 | over any run a pending key that is neither activated nor dropped stays as it is |
| `Approvals.ApprovalUseCase.CreateKeyRequest` | server/internal/app/usecase/approval_usecase.go:185-287 | after the lookups, creates the inactive key first and the request that owns it second, error cases included |
| `Approvals.ApprovalUseCase.CreateOtherRequest` | server/internal/app/usecase/approval_usecase.go:185-287 | the same lookups for every other kind of request, which creates nothing but itself |
| `Approvals.ApprovalUseCase.MarkExpiredRequests` | server/internal/app/infrastructure/database/approval_request_repository.go:564-569 | only the status of overdue pending requests changes |
| `Approvals.ApprovalUseCase.ApproveRequest` | server/internal/app/usecase/approval_usecase.go:410-442 | only a pending, unexpired request of somebody else, and only by an authorised user |
| `Approvals.ApprovalUseCase.RejectRequest` | server/internal/app/usecase/approval_usecase.go:444-491 | the same guards; the owned key is revoked |
| `Approvals.ApprovalUseCase.WithdrawRequest` | server/internal/app/usecase/approval_usecase.go:498-533 | only the requester, only while pending; request and owned key are gone |
| `Approvals.ApprovalUseCase.ExecuteApprovedAction` | server/internal/app/usecase/approval_usecase.go:673-766 | only approved requests, only authorised users; the key is switched on after a rotation, deleted, or gone with its application, exactly as the request says, and the log has it |
| `Approvals.OperationKeepsInv` | server/internal/app/usecase/approval_usecase.go:185-766 | every operation, failed insertions and repeated executions included, keeps the link between requests, keys and audit trail |
| `Approvals.KeyNeedsApprovalAndExecution` | server/internal/app/usecase/approval_usecase.go:673-766 | over whole runs a requested key authenticates only after approval by an authorised user other than the requester and a later authorised execution |
| `Approvals.RefusedKeysAreGone` | server/internal/app/usecase/approval_usecase.go:444-533 | no rejected or withdrawn request leaves its key in the store |
| `Approvals.DeletedKeyIsGoneForGood` | server/internal/app/usecase/approval_usecase.go:1130-1158 | once an approved deletion has been executed, the key is not there in any continuation |
| `Approvals.OwnershipKeptIff` | server/internal/app/usecase/approval_usecase.go:185-287 | a step keeps every inactive key owned if and only if it is not a request whose insertion fails after its key was created |
| `Approvals.InactiveKeyHasOneOwner` | server/internal/app/usecase/approval_usecase.go:185-533 | without such a failure every inactive key belongs to exactly one request that was not refused |
| `RateLimiter.WindowLimiter.Allow` | server/internal/app/middleware/rate_limiter.go:32-48 | the verdict and the new counter of one call |
| `RateLimiter.RoomIsEnough` | server/internal/app/middleware/rate_limiter.go:32-48 | from any table, how many calls an interval can still see |
| `RateLimiter.RateBound` | server/internal/app/middleware/rate_limiter.go:32-48 | any closed interval of one window length holds at most 2*max(limit, 1)-1 allowed calls of a key, and max(limit, 1) if the window is zero |
| `RateLimiter.BoundIsTight` | server/internal/app/middleware/rate_limiter.go:32-48 | for every limit and window, zero and negative ones included, a run that reaches the bound |
| `RateLimiter.KeysAreIndependent` | server/internal/app/middleware/rate_limiter.go:32-54 | dropping all calls of other keys leaves the sequence of verdicts on a key as it is |
| `AuditPaging.GetAuditLog` | server/internal/app/handler/audit_handler.go:123-158 | one page: the first wanted rows after the cursor, as many as the clamped size allows, and a next cursor exactly if some are left and the size is below the maximum |
| `AuditPaging.AuditRangeCutoff` | server/internal/app/handler/audit_handler.go:19-33 | the instant before which a range cuts off, measured from the clock of the request |
| `AuditPaging.CursorLeavesSuffix` | server/internal/app/infrastructure/database/audit_log_repository.go:23-45 | a cursor leaves exactly the entries after it |
| `AuditPaging.LaterCutoffShortens` | server/internal/app/infrastructure/database/audit_log_repository.go:23-45 | a later cutoff takes rows off the end of a listing |
| `AuditPaging.WalkIsCompleteIff` | server/internal/app/handler/audit_handler.go:108-158 | while entries arrive and the clock moves, following the cursors ends and returns, in order and once each, a beginning of the first listing; all of it if and only if the page size is below the maximum and every row is in range when its page is asked for, or everything fits into one page of the maximum |
| `AuditPaging.UnboundedWalkIsCompleteIff` | server/internal/app/usecase/audit_usecase.go:146-184 | without a time range only the page size matters |
| `AuditPaging.RowLeavesTheRange` | server/internal/app/handler/audit_handler.go:19-33 | a concrete walk over the last day that loses a row between two pages |
| `AuditPaging.PageAtMaximum` | server/internal/app/usecase/audit_usecase.go:146-155 | at the maximum the clamp swallows the look-ahead row and no page announces another one |
| `AuditPaging.NewArrivalsAreNotPast` | server/internal/app/handler/audit_handler.go:108-114 | entries that arrive later are never past a cursor |
| `Cidr.ParsedIpv4` | totoggle_node/src/http/request-context.ts:176-178 | accepts exactly four decimal parts of at most 255 and yields their 32 bits |
| `Cidr.Ipv4MatchIff` | totoggle_node/src/http/request-context.ts:176-182 | holds exactly when both are dotted quads whose first `prefix` bits agree, for every prefix from 0 to 32 |
| `Cidr.DecimalOfWritten` | totoggle_node/src/http/request-context.ts:177 | reading an octet undoes writing it |
| `Cidr.BitAt` | totoggle_node/src/http/request-context.ts:176-182 | the bits that are compared, each by division |
| `Ipv6Cidr.ParsedIpv6` | totoggle_node/src/http/request-context.ts:162-169 | accepts the addresses with or without "::" and a final dotted quad, and yields the 128 bits of the parts as they are read |
| `Ipv6Cidr.HexOfWritten` | totoggle_node/src/http/request-context.ts:168 | reading a group undoes writing it, in capital letters as in small ones |
| `Ipv6Cidr.NormalizedIff` | totoggle_node/src/http/request-context.ts:146-150 | the mapped form of an address loses its prefix, any other address stays, and what is no address is dropped |
| `Ipv6Cidr.Ipv6MatchIff` | totoggle_node/src/http/request-context.ts:162-174 | holds exactly when both texts are addresses whose first `prefix` bits, as read, agree, for every prefix from 0 to 128 |
| `Ipv6Cidr.ReadsRightIff` | totoggle_node/src/http/request-context.ts:163-169 | a text is read as the eight groups it denotes if and only if it has no dotted quad, or one of zeros that follows nothing but zeros |
| `Ipv6Cidr.Ipv6MatchDenotedIff` | totoggle_node/src/http/request-context.ts:162-174 | for texts that are read right, matching is agreement of the first `prefix` bits denoted |
| `Ipv6Cidr.AddressMatchedRightIff` | totoggle_node/src/http/request-context.ts:162-174 | an address is matched by what it denotes against every well-read network and every prefix if and only if it is read right itself |
| `Ipv6Cidr.NetworkMatchedRightIff` | totoggle_node/src/http/request-context.ts:151-174 | a configured network matches every well-read peer by what it denotes, for every prefix, if and only if it is read right itself |
| `Ipv6Cidr.EmbeddedQuadsMatch` | totoggle_node/src/http/request-context.ts:146-174 | a concrete pair of different addresses with dotted quads that match in full, of which the peer's is left as it is by the normalization before the match |
| `Ipv6Cidr.ShorterPrefixMatches` | totoggle_node/src/http/request-context.ts:162-182 | a match on a longer prefix is a match on every shorter one, in both forms |
| `Ipv6Cidr.CompressionIsTransparent` | totoggle_node/src/http/request-context.ts:163-168 | an address with "::" has the bits of its eight groups written in full |

## Left out

- Rows are values in a map: the sharing of row objects between the in-memory repository and its callers is not modelled.
- ToggleService.ToggleUseCase.CreateToggle: the `editable` flag is not modelled, because nothing reads it back.
- Updating a toggle together with its rule, and rule validation: no effect on the tree.
- Rule evaluators (time, list, presence, percentage): an arbitrary function here.
- The Node client's delay arithmetic: floating point; any delay is allowed.
- Staleness and health flags of the clients: simple reads of the cache.
- HTTP, JSON, SQL, cookies, logging and audit texts: input and output.
- AuditPaging.GetAuditLog: the cursor is a value; its base64 text form is not modelled.
- Approvals.ApprovalUseCase.ExecuteApprovedAction: the eight kinds of action that touch no key appear with the outcome they report, not with what they do to toggles and applications; a failing key-store write is not modelled, a missing key is.
- SecretKeys.SecretKeyUseCase.RotateExistingKeys: a failing key-store write half way through the rotation is not modelled.
- SecretKeys.SecretKeyUseCase.ValidateSecretKey: with two keys of one hash any one of them is looked at, as in the in-memory store.
- Ipv6Cidr.Ipv6MatchIff: addresses with a zone ("%eth0") are not modelled.
- Teams, users, sessions, favourites, the web interface, the Kotlin library and the command-line runners: shallow branching or plumbing.
