# AssetBundleManager, modelled in Dafny

AssetBundleManager is a Unity runtime library that downloads asset bundles and extracts assets from them. Each game tick it runs three passes:

- Pending bundle requests are moved, first in first out, into two active sets: *loading* for bundles already in the version cache, and *downloading* for the rest. At most `loadRequestMaxCount` requests are active at a time.
- Every active bundle request's state machine is ticked. Failures go to an error queue and to an optional error callback.
- Every live asset request is ticked. Finished assets go into a cache keyed by asset name.

Bundle requests are shared by name. Adding a bundle walks its manifest dependencies depth first. The first sighting of a name creates the request with reference count 0 and enqueues it; later sightings only raise the count. Removing walks the same order and lowers the counts. A request whose count is already 0 leaves the map, the pending queue and the active sets, and is disposed. Removing from the pending queue rotates the remaining requests.

The model has these modules, one file each:

| file | models |
|---|---|
| `manifest_parser.dfy` | `AssetBundleManifestParser`: the line-by-line `.manifest` reader with its scopes, and the constructor's loop over bundles |
| `asset_bundle_info.dfy` | the info record (name, parsed manifest, size) and the helper (`IAssetBundleHelper`) as a record of its URL and bundle-name functions |
| `ref_count.dfy` | reference counts as a map and the add and release folds along a walk |
| `dependency_walk.dfy` | the depth-first walk of the manifest dependency graph |
| `bundle_load_request.dfy` | `AssetBundleLoadRequest`: a class over its fields, proved equal to a pure step function |
| `asset_load_request.dfy` | `AssetLoadRequest`: a class over its fields, proved equal to a pure step function, with the `.unity` rule |
| `request_queue.dfy` | the rotating removal from the pending queue |
| `manager_state.dfy` | the manager's collections as one value, the invariant linking them, and the lemmas about walks, promotion and the ticks |
| `manager.dfy` | `AssetBundleManager`: a class whose methods update the queues, sets and maps in place |

The engine is passed in as parameters:

- `cached`: `Caching.IsVersionCached`.
- `poll`: each `UnityWebRequest`'s report for this tick (done, error text, downloaded fraction).
- `ext`: each asset extraction's report for this tick.
- `now`: `Time.time`.

A `Hash128` is identified by the text it was parsed from. Progress values are reals in [0, 1].

A ghost `rank` map orders the manifest graph. That is what makes the recursive walks terminate: each dependency has a lower rank than the bundle that lists it.

## Model

| member | source | states |
|---|---|---|
| ManifestParser.GetScope | Assets/AssetBundleManager/Scripts/Lib/AssetBundleManifestParser.cs:100-111 | CRC scope exactly for a line starting with "CRC: " (an ordinal prefix test), Hashes, Assets and Dependencies exactly for lines equal to their headers, never a hash sub-scope, None otherwise |
| ManifestParser.ParseUInt | Assets/AssetBundleManager/Scripts/Lib/AssetBundleManifestParser.cs:61 | `uint.Parse` with the default integer style: white space is skipped on both sides, one `+` or `-` may precede the decimal digits, a minus only before a zero value, and a result is at most 2^32-1 |
| ManifestParser.ParseUIntPadded | Assets/AssetBundleManager/Scripts/Lib/AssetBundleManifestParser.cs:61 | every padded, optionally signed run of digits parses to its value when that fits in 32 bits (a minus sign only for zero), and to nothing otherwise |
| ManifestParser.ParseUIntShape | Assets/AssetBundleManager/Scripts/Lib/AssetBundleManifestParser.cs:61 | conversely, every string that parses is white space, an optional sign, a non-empty run of digits and white space |
| ManifestParser.TryParse | Assets/AssetBundleManager/Scripts/Lib/AssetBundleManifestParser.cs:49-98 | true exactly when the file opens and every line parses, and then the record is the one the line-by-line reading builds, with ordinal prefix tests |
| ManifestParser.ScopeChangesOnlyOnHeaders | Assets/AssetBundleManager/Scripts/Lib/AssetBundleManifestParser.cs:54-69 | the scope changes only on a header line, or on a hash sub-header line while in Hashes; a header line sets its own scope, except that a Hashes header sets a hash sub-scope when it starts with one |
| ManifestParser.TypeTreeHeaderKeepsAssetFileHashScope | Assets/AssetBundleManager/Scripts/Lib/AssetBundleManifestParser.cs:63-79 | in AssetFileHash scope the "  TypeTreeHash:" line switches nothing and changes nothing, so a later hash line still overwrites assetFileHash |
| ManifestParser.HashLinesOverwrite | Assets/AssetBundleManager/Scripts/Lib/AssetBundleManifestParser.cs:70-74 | in AssetFileHash scope with no header in the way, the last "    Hash: " line decides assetFileHash, nothing else changes, and with no such line the hash keeps its value |
| ManifestParser.AssetItemsInFileOrder | Assets/AssetBundleManager/Scripts/Lib/AssetBundleManifestParser.cs:80-84 | in Assets scope the "- " items are appended to the asset list in file order, without the prefix |
| ManifestParser.DependencyItemsStripped | Assets/AssetBundleManager/Scripts/Lib/AssetBundleManifestParser.cs:85-89 | in Dependencies scope parsing fails exactly when an item is shorter than the prefix, output path and separator; otherwise the items are appended in order with those characters cut |
| ManifestParser.CrcScopeRejectsNonNumber | Assets/AssetBundleManager/Scripts/Lib/AssetBundleManifestParser.cs:60-62 | in CRC scope a non-header line that is shorter than the prefix, or whose tail `uint.Parse` rejects, makes the whole parse fail |
| ManifestParser.FirstFailure | Assets/AssetBundleManager/Scripts/Lib/AssetBundleManifestParser.cs:38-47 | the index of the first bundle whose manifest does not parse; every earlier one parses |
| ManifestParser.AssetBundleManifestParser.constructor | Assets/AssetBundleManager/Scripts/Lib/AssetBundleManifestParser.cs:38-47 | the dictionary holds exactly the bundles before the first failure (the loop breaks there), each with its parsed record |
| RefCount.AddOne | Assets/AssetBundleManager/Scripts/AssetBundleManager.cs:469-479 | a sighting of a name gives it an entry: the keys grow by exactly that name |
| RefCount.RemoveOne | Assets/AssetBundleManager/Scripts/AssetBundleManager.cs:489-508 | a release never adds an entry |
| RefCount.OneStep | Assets/AssetBundleManager/Scripts/AssetBundleManager.cs:469-508 | one add step: a new name gets count 0, a mapped name one more; one release step: a count above 0 drops by one, a count of 0 or less removes the entry; other names keep theirs |
| RefCount.AddAllConcat | Assets/AssetBundleManager/Scripts/AssetBundleManager.cs:457-467 | the counts after two walks are the counts after the walk along both |
| RefCount.RemoveAllConcat | Assets/AssetBundleManager/Scripts/AssetBundleManager.cs:481-487 | the same for release walks |
| RefCount.CreatedConcat | Assets/AssetBundleManager/Scripts/AssetBundleManager.cs:457-467 | the first sightings of two walks are those of the first, then those of the second among names still unmapped |
| RefCount.AddAllAt | Assets/AssetBundleManager/Scripts/AssetBundleManager.cs:469-479 | after an add walk a name is mapped exactly when it was or was visited, with count old + visits, or visits - 1 for a new one |
| RefCount.RemoveAllAt | Assets/AssetBundleManager/Scripts/AssetBundleManager.cs:489-508 | after a release walk a name stays mapped exactly when its visits do not exceed its count, and its count drops by its visits |
| RefCount.AddAllKeepsNonNegative | Assets/AssetBundleManager/Scripts/AssetBundleManager.cs:469-479 | an add walk keeps every count non-negative |
| RefCount.RemoveAllKeepsNonNegative | Assets/AssetBundleManager/Scripts/AssetBundleManager.cs:489-508 | a release walk keeps every count non-negative |
| RefCount.RoundTrip | Assets/AssetBundleManager/Scripts/AssetBundleManager.cs:457-508 | a release walk along the names an add walk visited restores the counts exactly |
| RefCount.CreatedMembers | Assets/AssetBundleManager/Scripts/AssetBundleManager.cs:469-479 | the names that get a new entry are exactly the visited names that had none |
| RefCount.CreatedDistinct | Assets/AssetBundleManager/Scripts/AssetBundleManager.cs:469-479 | each new entry is created once |
| DependencyWalk.VisitListSnoc | Assets/AssetBundleManager/Scripts/AssetBundleManager.cs:457-467 | walking one more dependency appends exactly that dependency's walk |
| DependencyWalk.VisitOrderRanks | Assets/AssetBundleManager/Scripts/AssetBundleManager.cs:457-467 | a walk visits only names in the info map of rank at most its start, and visits its start exactly once |
| DependencyWalk.VisitListRanks | Assets/AssetBundleManager/Scripts/AssetBundleManager.cs:457-467 | the walks of a dependency list visit only names below the bound |
| DependencyWalk.WithinRanked | Assets/AssetBundleManager/Scripts/AssetBundleManager.cs:457-467 | on a ranked manifest the unguarded recursion ends within its rank, visiting the names VisitOrder gives |
| DependencyWalk.CycleNeverEnds | Assets/AssetBundleManager/Scripts/AssetBundleManager.cs:457-467 | on a manifest where a set of bundles each list one of the set, the recursion from any of them does not end at any depth |
| DependencyWalk.GuardedOrder | Assets/AssetBundleManager/Scripts/AssetBundleManager.cs:457-467 | the walk with a path guard ends on every closed manifest, visits only known names off its path, and visits its start last |
| DependencyWalk.GuardedRanked | Assets/AssetBundleManager/Scripts/AssetBundleManager.cs:457-467 | on a ranked manifest the guarded walk equals VisitOrder, so the guard changes nothing where the source ends |
| BundleLoad.OperationsKeepConsistent | Assets/AssetBundleManager/Scripts/AssetBundleLoadRequest.cs:73-161 | a tick, Load, Dispose and a retry from LoadingWWW keep the fields consistent (a bundle only in Done, a non-empty error exactly in Error, a web request while downloading, progress in [0, 1]) |
| BundleLoad.LoadChoosesWait | Assets/AssetBundleManager/Scripts/AssetBundleLoadRequest.cs:73-82 | Load does nothing unless Idle; from Idle it waits for dependencies exactly when the list is non-empty, otherwise for a fetch, changing only the state |
| BundleLoad.DependencyWaitDoesNotBlock | Assets/AssetBundleManager/Scripts/AssetBundleLoadRequest.cs:102-107 | from WaitingDependencies a tick always moves on to WaitingRequestWWW (the `return` only leaves the lambda) |
| BundleLoad.FetchStart | Assets/AssetBundleManager/Scripts/AssetBundleLoadRequest.cs:108-113 | from WaitingRequestWWW a tick issues the bundle's web request, stamps the clock and moves to LoadingWWW, changing nothing else |
| BundleLoad.RestingStates | Assets/AssetBundleManager/Scripts/AssetBundleLoadRequest.cs:100-144 | Idle, Done and Error are fixed points of a tick |
| BundleLoad.ProgressNeverFalls | Assets/AssetBundleManager/Scripts/AssetBundleLoadRequest.cs:114-141 | while downloading, a tick either retries (progress 0, one more retry, clock restamped) or keeps the retry count with progress raised to the larger of the old and the reported value, restamping the clock only when progress rose |
| BundleLoad.FinishTakesContent | Assets/AssetBundleManager/Scripts/AssetBundleLoadRequest.cs:120-124 | a download that finishes without an error text ends in Done holding exactly what `GetContent` returned, null included, with the retry count, web request and error kept |
| BundleLoad.RetryBound | Assets/AssetBundleManager/Scripts/AssetBundleLoadRequest.cs:125-140 | the retry count grows by at most one per tick, only below the limit |
| BundleLoad.ErrorOnlyAtLimit | Assets/AssetBundleManager/Scripts/AssetBundleLoadRequest.cs:125-137 | a tick ends in Error only from a running download with its retries used up, with the transport's error, or with "timeout:" and the name and the web request dropped |
| BundleLoad.RetryBelowLimit | Assets/AssetBundleManager/Scripts/AssetBundleLoadRequest.cs:125-140 | a failure or stall below the limit retries instead of failing |
| BundleLoad.RetryResets | Assets/AssetBundleManager/Scripts/AssetBundleLoadRequest.cs:84-98 | a retry lands in WaitingRequestWWW with no web request, progress 0, no error and one more retry |
| BundleLoad.DisposeIdempotent | Assets/AssetBundleManager/Scripts/AssetBundleLoadRequest.cs:146-161 | Dispose leaves Idle with no bundle, web request or error and 0 retries, keeps progress and the clock, and twice is once |
| BundleLoad.ProgressBounds | Assets/AssetBundleManager/Scripts/AssetBundleLoadRequest.cs:30-42 | the progress getter is in [0, 1]: 1 in Done, 0 in Idle and WaitingDependencies, the stored value otherwise |
| BundleLoad.BundleLoadRequest.constructor | Assets/AssetBundleManager/Scripts/AssetBundleLoadRequest.cs:60-67 | name, hash, size and CRC from the info entry, Idle with nothing fetched |
| BundleLoad.BundleLoadRequest.IsDone | Assets/AssetBundleManager/Scripts/AssetBundleLoadRequest.cs:24-28 | isDone exactly in Done, the only state that may hold a bundle |
| BundleLoad.BundleLoadRequest.IsError | Assets/AssetBundleManager/Scripts/AssetBundleLoadRequest.cs:18-22 | isError exactly in Error, which is exactly when an error text is held |
| BundleLoad.BundleLoadRequest.Progress | Assets/AssetBundleManager/Scripts/AssetBundleLoadRequest.cs:30-42 | progress in [0, 1], 1 when Done, 0 when Idle or waiting for dependencies |
| BundleLoad.BundleLoadRequest.Load | Assets/AssetBundleManager/Scripts/AssetBundleLoadRequest.cs:73-82 | the fields after Load are Loaded of the fields before |
| BundleLoad.BundleLoadRequest.Retry | Assets/AssetBundleManager/Scripts/AssetBundleLoadRequest.cs:84-98 | the fields after the private Retry are Retried of the fields before |
| BundleLoad.BundleLoadRequest.Update | Assets/AssetBundleManager/Scripts/AssetBundleLoadRequest.cs:100-144 | the fields after Update are Step of the fields before, and a web request is issued exactly on leaving WaitingRequestWWW |
| BundleLoad.BundleLoadRequest.Dispose | Assets/AssetBundleManager/Scripts/AssetBundleLoadRequest.cs:146-161 | the fields after Dispose are Disposed of the fields before |
| AssetLoad.GetExtension | Assets/AssetBundleManager/Scripts/AssetLoadRequest.cs:145 | `Path.GetExtension`: a suffix of the path, empty or a dot followed by at least one character |
| AssetLoad.UnityExtension | Assets/AssetBundleManager/Scripts/AssetLoadRequest.cs:144-148 | the extension is ".unity" exactly when the name ends with ".unity" |
| AssetLoad.NecessityRule | Assets/AssetBundleManager/Scripts/AssetLoadRequest.cs:142-152 | an asset must be extracted exactly when its name is non-null, non-empty and does not end with ".unity" |
| AssetLoad.StepKeepsConsistent | Assets/AssetBundleManager/Scripts/AssetLoadRequest.cs:99-140 | a tick keeps the fields consistent (a bundle request once past Idle, the extraction wait and an asset only for a name that needs loading, a handle only for the request's own name and sub-asset choice) and never changes the bundle request; the handle changes only when the extraction starts, so a Done request keeps its handle |
| AssetLoad.FixedPoints | Assets/AssetBundleManager/Scripts/AssetLoadRequest.cs:100-103 | Idle and Done are fixed points of a tick |
| AssetLoad.WaitingForBundle | Assets/AssetBundleManager/Scripts/AssetLoadRequest.cs:104-117 | nothing happens until the bundle request is Done; then the extraction starts on its bundle, with sub-assets exactly when a sub-asset name is given, or the request is done at once when the name needs no loading |
| AssetLoad.Completion | Assets/AssetBundleManager/Scripts/AssetLoadRequest.cs:118-137 | once the extraction is done the request is Done with whatever asset it found, possibly none; until then nothing changes |
| AssetLoad.MissingBundleFaults | Assets/AssetBundleManager/Scripts/AssetLoadRequest.cs:104-121 | a bundle request done without a bundle leaves an asset that needs loading in the extraction wait with no handle; from there every tick throws and changes nothing, and progress stays at one half |
| AssetLoad.ProgressBounds | Assets/AssetBundleManager/Scripts/AssetLoadRequest.cs:34-46 | progress is the average of the two parts, 0 when Idle, 1 when Done and in [0, 1] |
| AssetLoad.AssetLoadRequest.constructor | Assets/AssetBundleManager/Scripts/AssetLoadRequest.cs:64-68 | the three names as given, Idle with no bundle request, handle or asset |
| AssetLoad.AssetLoadRequest.IsDone | Assets/AssetBundleManager/Scripts/AssetLoadRequest.cs:28-32 | isDone exactly in Done |
| AssetLoad.AssetLoadRequest.GetAsset | Assets/AssetBundleManager/Scripts/AssetLoadRequest.cs:70-72 | the held asset, which exists only for a name that needs loading |
| AssetLoad.AssetLoadRequest.SetRequest | Assets/AssetBundleManager/Scripts/AssetLoadRequest.cs:74-77 | the bundle request is attached and the state is WaitingDownload; nothing else changes |
| AssetLoad.AssetLoadRequest.Progress | Assets/AssetBundleManager/Scripts/AssetLoadRequest.cs:34-46 | progress in [0, 1], 0 when Idle and 1 when Done |
| AssetLoad.AssetLoadRequest.Update | Assets/AssetBundleManager/Scripts/AssetLoadRequest.cs:99-140 | the fields after Update are Step of the fields before, given the bundle request's fields and the extraction's report |
| RequestQueue.RemoveFromQueue | Assets/AssetBundleManager/Scripts/AssetBundleManager.cs:493-500 | the rotating removal loop gives Rotated of the queue, or the queue itself when the request is absent |
| RequestQueue.RotationKeepsOthers | Assets/AssetBundleManager/Scripts/AssetBundleManager.cs:493-500 | the rotation keeps every other request once, in a queue one shorter, without the removed one |
| RequestQueue.RotationOrder | Assets/AssetBundleManager/Scripts/AssetBundleManager.cs:493-500 | the rotation equals plain removal only when the removed request was last; otherwise the old last request comes first, and with three or more requests the order differs from plain removal |
| RequestQueue.RotatedAt | Assets/AssetBundleManager/Scripts/AssetBundleManager.cs:493-500 | the rotated queue written out: the last request, then the ones before the removed one, then the ones after it |
| RequestQueue.RemovedOnce | Assets/AssetBundleManager/Scripts/AssetBundleManager.cs:489-508 | what the removal leaves: no duplicates, and exactly the other requests |
| ManagerState.CreateCoherent | Assets/AssetBundleManager/Scripts/AssetBundleManager.cs:469-479 | a first sighting (new entry, count 0, enqueued) keeps the collections coherent |
| ManagerState.GrownCompose | Assets/AssetBundleManager/Scripts/AssetBundleManager.cs:457-467 | two add walks one after the other are one walk along both |
| ManagerState.ReleaseAbsent | Assets/AssetBundleManager/Scripts/AssetBundleManager.cs:489-491 | releasing a name without an entry changes nothing |
| ManagerState.ReleaseOne | Assets/AssetBundleManager/Scripts/AssetBundleManager.cs:505-507 | releasing a request with references left takes one away and changes nothing else |
| ManagerState.DropOne | Assets/AssetBundleManager/Scripts/AssetBundleManager.cs:492-504 | releasing the last reference removes the entry and count and takes the request out of the pending queue and both active sets; the collections stay coherent |
| ManagerState.ReleaseOrder | Assets/AssetBundleManager/Scripts/AssetBundleManager.cs:492-500 | a release that drops the last pending request keeps the order of the rest; otherwise the former last request comes first, and with three or more pending the order differs from plain removal |
| ManagerState.ReleasedQueueConcat | Assets/AssetBundleManager/Scripts/AssetBundleManager.cs:481-508 | the pending queue after a release walk along two halves is the second half's walk from the queue and counts the first half left |
| ManagerState.RoundTrip | Assets/AssetBundleManager/Scripts/AssetBundleManager.cs:457-508 | releasing along the walk that added restores the map and counts exactly, and the pending queue, active sets and error queue as sets |
| ManagerState.DroppedAreAdded | Assets/AssetBundleManager/Scripts/AssetBundleManager.cs:457-508 | the requests such a release drops are exactly the ones the add walk enqueued, none of which was pending or active before |
| ManagerState.AddedIsCreated | Assets/AssetBundleManager/Scripts/AssetBundleManager.cs:469-479 | a request the add walk enqueued is the new entry of a name that had none |
| ManagerState.ActivateCoherent | Assets/AssetBundleManager/Scripts/AssetBundleManager.cs:510-518 | a request that is neither pending nor failed may join an active set: the collections stay coherent |
| ManagerState.DequeueCoherent | Assets/AssetBundleManager/Scripts/AssetBundleManager.cs:329-338 | taking the front off the pending queue keeps the collections coherent, and the request taken is in no other collection |
| ManagerState.DequeueErrorCoherent | Assets/AssetBundleManager/Scripts/AssetBundleManager.cs:215-228 | taking the front off the error queue keeps the collections coherent, and the request taken is in no other collection |
| ManagerState.PromotionCount | Assets/AssetBundleManager/Scripts/AssetBundleManager.cs:329-338 | a pass promotes at most the pending requests, stops short of them only at the limit, and never goes past it |
| ManagerState.PromotionCountOf | Assets/AssetBundleManager/Scripts/AssetBundleManager.cs:329-338 | any count that meets those three bounds is the PromotionCount |
| ManagerState.PromotionEnds | Assets/AssetBundleManager/Scripts/AssetBundleManager.cs:329-338 | a pass that stopped at the end of the queue or at the limit has promoted PromotionCount requests, the front of the queue |
| ManagerState.SettleCoherent | Assets/AssetBundleManager/Scripts/AssetBundleManager.cs:340-361 | taking the ended requests out of the active sets and appending the failed ones to the error queue keeps the collections coherent |
| ManagerState.ClearedCoherent | Assets/AssetBundleManager/Scripts/AssetBundleManager.cs:230-245 | emptying the live set, both queues and the loading set, then the map, keeps the collections coherent, with or without the downloading set |
| ManagerState.CountedRequests | Assets/AssetBundleManager/Scripts/AssetBundleManager.cs:84-91 | the loading set, the pending queue and the error queue share no request and repeat none |
| ManagerState.SizeOfRemove | Assets/AssetBundleManager/Scripts/AssetBundleManager.cs:64-82 | the total size does not depend on the order a set yields its requests |
| ManagerState.SumSizes | Assets/AssetBundleManager/Scripts/AssetBundleManager.cs:64-82 | a `foreach` over a set adding sizes in a wrapping `ulong` gives the start plus the set's total, modulo 2^64 |
| ManagerState.SumQueue | Assets/AssetBundleManager/Scripts/AssetBundleManager.cs:64-82 | the same over the pending queue |
| Manager.TickAll | Assets/AssetBundleManager/Scripts/AssetBundleManager.cs:342-350 | every request of an active set is ticked once, in whatever order; the ones that ended and the failed ones (each once) are gathered |
| Manager.File | Assets/AssetBundleManager/Scripts/AssetBundleManager.cs:342-358 | the ended and the failed requests of a ticked set, whatever the order of visit |
| Manager.FailuresQueuedOf | Assets/AssetBundleManager/Scripts/AssetBundleManager.cs:342-358 | the error queue gains exactly the failed requests, each once, the downloading set's first |
| Manager.TickAssets | Assets/AssetBundleManager/Scripts/AssetBundleManager.cs:363-379 | every live asset request is ticked once and each finished one's asset is stored under its name; the tick stops (`ok` false), with the old entries kept, at a finished asset whose name is already cached or at a request whose tick throws (waiting for the extraction with no bundle handle, see `AssetLoad.MissingBundleFaults`) |
| Manager.StoreAsset | Assets/AssetBundleManager/Scripts/AssetBundleManager.cs:367-372 | storing a finished request: the old entries are kept, and the store fails exactly when the request holds an asset whose name is already cached |
| Manager.StoreAssetFiles | Assets/AssetBundleManager/Scripts/AssetBundleManager.cs:366-374 | one stored request extends what the tick has stored so far, or a clash shows that the names were not fresh |
| Manager.ClashWidens | Assets/AssetBundleManager/Scripts/AssetBundleManager.cs:367-372 | a name clash among some requests is a clash among all of them |
| Manager.DisposeEach | Assets/AssetBundleManager/Scripts/AssetBundleManager.cs:240-242 | every mapped request is disposed |
| Manager.DisposedNeverEnds | Assets/AssetBundleManager/Scripts/AssetBundleManager.cs:230-245 | a disposed request is Idle and a tick leaves it so: left in an active set it never ends |
| Manager.AssetBundleManager.AddRequestInternalByName | Assets/AssetBundleManager/Scripts/AssetBundleManager.cs:469-479 | a mapped name gets one more reference; a new one gets a request from the info map with count 0, stored and enqueued |
| Manager.AssetBundleManager.AddRequestInternalWithDependencies | Assets/AssetBundleManager/Scripts/AssetBundleManager.cs:457-467 | the counts are the add fold along the walk, old entries stay, the visited names are mapped, exactly the first sightings are enqueued in walk order, and every request on the walk holds its dependency list |
| Manager.AssetBundleManager.AddDependencies | Assets/AssetBundleManager/Scripts/AssetBundleManager.cs:459-463 | the requests the dependency walks end at, named as the manifest lists the dependencies |
| Manager.AssetBundleManager.RemoveRequestInternalWithDependencies | Assets/AssetBundleManager/Scripts/AssetBundleManager.cs:481-487 | the release walk visits the same names as the add walk: the counts are the release fold, the pending queue is `ReleasedQueue`, each drop's rotation applied in walk order, dropped requests leave the active sets, the error queue is untouched; exactly the requests dropped from the map are disposed and every other bundle request keeps its state |
| Manager.AssetBundleManager.RemoveRequestInternal | Assets/AssetBundleManager/Scripts/AssetBundleManager.cs:489-508 | a missing name changes nothing; a count above 0 is decremented; otherwise the request leaves every collection but the error queue and is disposed, and the pending queue is `RequestQueue.Rotated` past it when it was pending; no other bundle request changes |
| Manager.AssetBundleManager.DisposeRequest | Assets/AssetBundleManager/Scripts/AssetBundleManager.cs:503 | the request's fields become Disposed of the old ones; no other bundle request changes |
| Manager.AssetBundleManager.RemoveLoadingRequest | Assets/AssetBundleManager/Scripts/AssetBundleManager.cs:520-527 | the request leaves both active sets and nothing else does |
| Manager.AssetBundleManager.IsAssetBundleCachedByFullPath | Assets/AssetBundleManager/Scripts/AssetBundleManager.cs:274-279 | false before the manager is ready, the version cache's answer after (the body; CachedVersionAsked states what it decides) |
| Manager.AssetBundleManager.CachedVersionAsked | Assets/AssetBundleManager/Scripts/AssetBundleManager.cs:274-279 | the cache test the promotion and the retry use to choose a request's active set is IsAssetBundleCachedByFullPath on the request's own name and hash, not the URL that IsAssetBundleCached asks about |
| Manager.AssetBundleManager.IsAssetBundleCached | Assets/AssetBundleManager/Scripts/AssetBundleManager.cs:267-272 | the same question about the helper's URL for the name |
| Manager.AssetBundleManager.AddLoadingRequest | Assets/AssetBundleManager/Scripts/AssetBundleManager.cs:510-518 | nothing for an active request; otherwise it joins the loading set when its version is cached and the downloading set when not |
| Manager.AssetBundleManager.UpdateAssetBundleLoadRequestQueue | Assets/AssetBundleManager/Scripts/AssetBundleManager.cs:329-338 | afterwards the queue is empty or the limit is reached; exactly the PromotionCount requests at the front have left the queue and joined the loading set when cached and the downloading set when not; each of them was loaded with its dependency list and no other bundle request changed |
| Manager.AssetBundleManager.PromoteNext | Assets/AssetBundleManager/Scripts/AssetBundleManager.cs:330-337 | one turn of the promotion loop: the next request of the queue as it was is promoted and loaded, and the account of the loop so far grows by exactly that request |
| Manager.AssetBundleManager.PromoteOne | Assets/AssetBundleManager/Scripts/AssetBundleManager.cs:334-336 | the front of the queue is dequeued, loaded with its dependency list and made active by the cache test; no other bundle request changes |
| Manager.AssetBundleManager.Retry | Assets/AssetBundleManager/Scripts/AssetBundleManager.cs:215-228 | nothing before ready; after, the error queue is empty and every failed request has joined the loading set when its version is cached and the downloading set when not, whatever the limit; each was disposed and then loaded with its dependency list, and no other bundle request changed |
| Manager.AssetBundleManager.RetryOne | Assets/AssetBundleManager/Scripts/AssetBundleManager.cs:220-225 | one turn: the front of the error queue is dequeued; it is never active (the `Contains` test always passes), so it is disposed, loaded with its dependency list and made active by the cache test |
| Manager.AssetBundleManager.RetryNext | Assets/AssetBundleManager/Scripts/AssetBundleManager.cs:219-226 | one turn of the retry loop over the error queue as it was: its next request is retried and joins the account of the loop so far |
| Manager.AssetBundleManager.Reactivate | Assets/AssetBundleManager/Scripts/AssetBundleManager.cs:223-225 | a request that is neither pending nor failed is disposed, loaded with its dependency list and joins the active set the cache test picks; no other bundle request changes |
| Manager.AssetBundleManager.UpdateAssetBundleLoadRequest | Assets/AssetBundleManager/Scripts/AssetBundleManager.cs:340-361 | every active request is ticked once; a request stays active exactly when it has not ended; the error queue gains exactly the failed ones, downloading first; the callback sees them when set |
| Manager.AssetBundleManager.UpdateAssetLoadRequest | Assets/AssetBundleManager/Scripts/AssetBundleManager.cs:363-379 | every live request is ticked once (up to the clash, if any); `ok` exactly when no request's tick throws (a request waiting for the extraction with no bundle handle) and no finished asset's name is already cached or shared by two finished assets; then each asset is cached under its name and exactly the Done requests leave the live set; otherwise the live set is unchanged and the old cache entries are kept |
| Manager.AssetBundleManager.AddRequest | Assets/AssetBundleManager/Scripts/AssetBundleManager.cs:196-213 | refused (nothing changes) before ready, without a bundle name, or for an asset already loaded; otherwise a new request for the resolved names joins the live set, and is attached to the add walk's request when the info map knows the name |
| Manager.AssetBundleManager.AddRequestInternal | Assets/AssetBundleManager/Scripts/AssetBundleManager.cs:448-455 | the request joins the live set; for a known name the add walk runs and the request waits on the walk's request; for an unknown name nothing else changes |
| Manager.AssetBundleManager.AddRequestByName | Assets/AssetBundleManager/Scripts/AssetBundleManager.cs:160-166 | AddRequest for an asset name alone |
| Manager.AssetBundleManager.AddDownloadRequest | Assets/AssetBundleManager/Scripts/AssetBundleManager.cs:168-174 | AddRequest for a bundle name alone, with no asset name |
| Manager.AssetBundleManager.AddRequests | Assets/AssetBundleManager/Scripts/AssetBundleManager.cs:176-184 | nothing before ready (no outcome); after, one outcome per name up to the first name whose bundle is unknown, where the loop throws and stops; each outcome is the single-name add's effect between the tables before and after it; the live set only grows and each registered request is live and carries its asset name |
| Manager.AssetBundleManager.AddDownloadRequests | Assets/AssetBundleManager/Scripts/AssetBundleManager.cs:186-194 | the same for bundle names: up to the first unknown bundle, each outcome is AddDownloadRequest's effect, and each registered request is live and carries its bundle name |
| Manager.AssetBundleManager.AddAssetNames | Assets/AssetBundleManager/Scripts/AssetBundleManager.cs:181-183 | the loop of AddRequests once ready: it stops after the first unknown bundle, and the tables step from one add to the next |
| Manager.AssetBundleManager.AddBundleNames | Assets/AssetBundleManager/Scripts/AssetBundleManager.cs:191-193 | the same loop for AddDownloadRequests |
| Manager.AssetBundleManager.BatchLive | Assets/AssetBundleManager/Scripts/AssetBundleManager.cs:176-194 | along a chain of adds the live set and the bundle requests only grow, so each registered request is live at the end and carries its name |
| Manager.AssetBundleManager.RemoveRequest | Assets/AssetBundleManager/Scripts/AssetBundleManager.cs:247-253 | nothing before ready or for a request that is not live; otherwise it leaves the live set and, for a known name, the release walk runs, the pending queue becomes `ReleasedQueue` along the walk (rotations in order), and exactly the requests it drops from the map are disposed |
| Manager.AssetBundleManager.RemoveAllRequests | Assets/AssetBundleManager/Scripts/AssetBundleManager.cs:230-245 | nothing before ready; after, the live set, both queues, the loading set and the map are empty and every mapped request is disposed, but the downloading set is as it was |
| Manager.AssetBundleManager.RemoveAllRequestsCorrected | Assets/AssetBundleManager/Scripts/AssetBundleManager.cs:230-245 | as RemoveAllRequests, with the downloading set emptied too: afterwards nothing is downloading, loading or failed and the request count is 0 |
| Manager.AssetBundleManager.IsDownloading | Assets/AssetBundleManager/Scripts/AssetBundleManager.cs:35-44 | true exactly when some request is loading, downloading or pending |
| Manager.AssetBundleManager.IsLoading | Assets/AssetBundleManager/Scripts/AssetBundleManager.cs:46-53 | true exactly when some asset request is live |
| Manager.AssetBundleManager.HasError | Assets/AssetBundleManager/Scripts/AssetBundleManager.cs:55-62 | true exactly when the error queue is not empty |
| Manager.AssetBundleManager.RequestCountCounts | Assets/AssetBundleManager/Scripts/AssetBundleManager.cs:84-91 | the count is the number of distinct requests loading, pending or failed (downloading ones are not counted) |
| Manager.AssetBundleManager.AllDownloadingSize | Assets/AssetBundleManager/Scripts/AssetBundleManager.cs:64-82 | the total size of the downloading set, the loading set and the pending queue, modulo 2^64 |
| Manager.AssetBundleManager.GetCrc | Assets/AssetBundleManager/Scripts/AssetBundleManager.cs:529-535 | the info map's CRC, 0 for an unknown name, at most 2^32-1 |
| Manager.AssetBundleManager.GetSize | Assets/AssetBundleManager/Scripts/AssetBundleManager.cs:537-543 | the info map's size, 0 for an unknown name (the body; InfoMatches ties it to the requests) |
| Manager.AssetBundleManager.SetErrorCallback | Assets/AssetBundleManager/Scripts/AssetBundleManager.cs:281-283 | the callback is set or cleared |
| Manager.AssetBundleManager.OnUpdate | Assets/AssetBundleManager/Scripts/AssetBundleManager.cs:320-327 | nothing before ready; then three passes through two intermediate states: the promotion pass (only the queue and active sets change, each promoted request is loaded, the queue is empty or the limit is reached), the bundle tick (each active request ticked from its state after promotion, exactly the unended ones stay active, exactly the failed ones queued) and the asset tick (each live request ticked from its state at the start, the cache extended exactly when no key clashes) |
| Manager.AssetBundleManager.ReadyUpdate | Assets/AssetBundleManager/Scripts/AssetBundleManager.cs:324-326 | the three passes of a ready manager, each pass's contract holding between its states |
| Manager.AssetBundleManager.PromotionPass | Assets/AssetBundleManager/Scripts/AssetBundleManager.cs:329-338 | the promotion pass as a step between two states of the collections and of every bundle request |
| Manager.AssetBundleManager.TickPasses | Assets/AssetBundleManager/Scripts/AssetBundleManager.cs:325-326 | the bundle tick, then the asset tick from the asset requests' states before both |
| Manager.AssetBundleManager.TickPass | Assets/AssetBundleManager/Scripts/AssetBundleManager.cs:340-361 | the bundle tick as a step between two states: each active request is ticked, exactly the unended ones stay active and exactly the failed ones join the error queue |
| Manager.AssetBundleManager.AssetPass | Assets/AssetBundleManager/Scripts/AssetBundleManager.cs:363-379 | the asset tick stated against given states of the live requests and the cache |
| Manager.AssetBundleManager.InfoMatches | Assets/AssetBundleManager/Scripts/AssetBundleManager.cs:529-543 | every bundle request carries its info entry's name, hash, size and CRC, so GetSize and GetCrc agree with the requests |

## Left out

- The coroutines `LoadManifest`, `LoadAssetBundleManifest` and `LoadAssetBundleInfo` depend on the network, the engine's caching and time. The model begins from their outcome: the `ready` flag and an info map filled in at construction.
- `GetAsset<T>` relies on `Resources`, `AssetDatabase` and path helpers.
- `IsAssetCached` needs the engine manifest's `GetAssetBundleHash`.
- `_isUseLocalResources` and `LoadLocalAsset` are editor-only.
- The manager-wide `Progress` getter is a float average that divides by the request count. The per-request progress getters are modelled over reals.
- The `LoadAsset*` forwarders on a bundle request are thin engine wrappers. Their effect is the `ext` oracle.
- The singleton machinery, the `Instance` null checks, the settings getters (taken as constants), `Debug.Log` and the generic `UnityEngine.Object` typing are left out.
- `HashSet` enumeration order is unspecified in .NET. The model visits a set in an arbitrary order, and its contracts hold for every order.
- Floating-point progress and time are modelled as reals, so rounding is not modelled.
- `AssetBundleManifestParser.constructor`: requires distinct bundle names, because `Dictionary.Add` throws on a duplicate name and the exception is not modelled.
- Manifest dependencies must form an acyclic graph whose names are all in the info map; the ghost `rank` states this. A cycle would recurse forever in the source (see "## Findings"), and a missing name throws `KeyNotFoundException`. The walks therefore require a name that is in the info map.
- The branch of `AssetBundleLoadRequest.Retry` that resumes an in-flight fetch is unreachable, because `_progress` was set to 0 just before the test. It is an `assert false` branch.
- The sub-asset scan in `AssetLoadRequest.Update` is unreachable, because the extraction only starts when `IsNecessaryLoadAsset` holds. It is an `assert false` branch.
- The manager, not the request object, keeps each bundle request's `referencedCount` and dependency list. The manager is their only reader and writer, and the dependency list is passed when the request is loaded.
- The error callback is a flag. The requests it would be called with are recorded as a ghost `errorNotifications` sequence.
- Manager.AssetBundleManager.AddRequests: the first unknown bundle name throws `KeyNotFoundException` inside the loop. The model returns the outcomes up to and including that name and stops; the exception itself is not modelled.
- Manager.AssetBundleManager.AddDownloadRequests: the same, with bundle names.
- Manager.AssetBundleManager.AddRequestByName, Manager.AssetBundleManager.AddDownloadRequest, Manager.AssetBundleManager.AddRequests and Manager.AssetBundleManager.AddDownloadRequests take non-null names and name lists. The C# overloads also accept null. `AddRequest(null)` returns at the `IsNullOrEmpty` guards (lines 201-207), and `AddRequest` takes an `Option` and models that. `AddRequests(null)` throws in its `foreach`, which is not modelled.
- Manager.AssetBundleManager.OnUpdate: the fetch counter (the number of web requests issued) is not part of the bundle request states the passes relate.
- AssetLoad.GetExtension: the `ArgumentException` that `Path.GetExtension` throws for a path holding a character the platform deems invalid is not modelled, and the separators are the Windows set ('/', '\\', ':'), where a Unix runtime stops only at '/'. Asset names are taken to be free of invalid characters.
- ManifestParser.TryParse: the prefix tests (`line.StartsWith(string)`, lines 64-86) are taken as ordinal. The C# overload is culture-sensitive and skips ignorable code points such as U+00AD, so a line such as "\u00ADHash: …" would match in C# and not in the model. The two agree on the ASCII lines Unity writes to manifests.
- ManifestParser.GetScope: the same for its `StartsWith("CRC: ")` test (line 101).
- ManifestParser.ParseUInt: culture-specific sign symbols and the trailing NUL characters some runtimes accept are not modelled. The invariant culture's `+` and `-` are used.
- Manager.AssetBundleManager.UpdateAssetLoadRequest: the loop throws in two cases. `Dictionary.Add` throws when a finished asset's name is already cached. A request's `Update` throws a `NullReferenceException` when it waits for the extraction with no bundle handle (AssetLoadRequest.cs:118-121). In either case the tick stops at that request, the removal loop does not run, and the method returns `ok == false`. Which requests were ticked before the stop is not stated.
- In `AssetBundleLoadRequest.Update`, the `return` inside the `ForEach` lambda while waiting for dependencies is modelled as written: it leaves only the lambda, so the wait never blocks.

## Findings

| source | as written | input that shows it | evidently intended | confidence | as-written member | corrected member |
|---|---|---|---|---|---|---|
| Assets/AssetBundleManager/Scripts/AssetBundleManager.cs:235-239 | `RemoveAllRequests` clears `_requestQueue` twice and never clears `_downloadingRequests`. The requests left there that are still in the map are disposed and so are Idle, and Idle is a fixed point of their tick. They never end, so the bundle tick never removes them: they occupy `loadRequestMaxCount` slots forever and `IsDownloading` stays true. | A ready manager with one mapped request in the downloading set, then `RemoveAllRequests()`: afterwards `IsDownloading()` is true and the request stays Idle on every tick | the second `Clear` was meant for `_downloadingRequests` | not executed | Manager.AssetBundleManager.RemoveAllRequests, Manager.DisposedNeverEnds | Manager.AssetBundleManager.RemoveAllRequestsCorrected |
| Assets/AssetBundleManager/Scripts/AssetBundleManager.cs:457-487 | `AddRequestInternalWithDependencies` and `RemoveRequestInternalWithDependencies` recurse into every listed dependency with no visited set and no path check, and nothing in the code rules out a manifest whose dependencies form a cycle. On such a manifest the walk from a bundle on the cycle never ends. When every dependency path from the cycle returns to it before reaching a bundle without dependencies (the inputs named here), both walks call themselves before any table changes. Otherwise the dependencies listed before the cyclic one are added (or released) on every round, so their counts keep growing (or falling) until the stack runs out. The manager model walks along `VisitOrder` on ranked manifests, where `GuardedRanked` shows the guarded walk gives the same names. | A manifest where bundle "a" lists "a" (the cycle {"a"}, or "a" and "b" listing each other): `WalkWithin` from "a" is `None` at every depth | a dependency already on the current path is skipped | not executed | DependencyWalk.WalkWithin, DependencyWalk.CycleNeverEnds | DependencyWalk.GuardedOrder, DependencyWalk.GuardedRanked |
