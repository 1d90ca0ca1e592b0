# Synax: verified models of the desktop updater, the Computer Use supervisor and their tooling

This project models the parts of Synax whose correctness depends on several steps fitting
together, and proves what holds for every input, every failure and every interleaving.

| file | what it models |
|---|---|
| `DifferentialPlan.dfy`, `Coalescing.dfy` | copy/download plans of a differential update, and the rewriting that downloads small copy gaps |
| `DifferentialTransfer.dfy` | blockmap check, plan check, and running a plan over short reads and chunked replies |
| `LocalFiles.dfy`, `UpdateFeed.dfy` | the files, and downloading a release: differential attempt, full fallback, publication by rename |
| `ManifestFormat.dfy` | what a manifest must look like, and what the names of its files tell |
| `ManifestSigning.dfy`, `Utf8.dfy` | the JSON text that is signed, its bytes, signing and verifying |
| `JsonReader.dfy`, `SignedJson.dfy` | an independent reader of JSON, and what it reads in the signed bytes |
| `UpdateCache.dfy`, `CacheRules.dfy` | the cache of releases, the search for the newest one and for a base, and their conditions in full |
| `CachedUpgrade.dfy` | a cached release as the base of the next download |
| `CuaRuntime.dfy`, `CuaRuntimeRuns.dfy` | the supervisor of the Computer Use helper, and every interleaving of its steps |
| `CuaRuntimeHistory.dfy`, `CuaRuntimeDriver.dfy` | what those runs have in common, and the supervisor class driven through any of them |
| `HelperLifecycle.dfy`, `HelperExits.dfy` | start-up and shutdown of the helper process with its bridge, and its exit code |
| `NativeModules.dfy`, `ShippedModules.dfy`, `PackagedRoots.dfy` | copying packages with their runtime dependencies, what the copies find where they end up, and the script's own roots |
| `ProcessTree.dfy`, `SessionSeed.dfy`, `Framing.dfy` | the walk over a process tree, batching, the line and frame splitters |
| `PathIndex.dfy`, `SearchIntents.dfy`, `SearchQueries.dfy` | the path index, and the queries the search benchmark derives for it |
| `CliArgs.dfy`, `CliRoundTrip.dfy`, `CliRules.dfy` | the command line parser, a printer it undoes, and what is refused |
| `Sequences.dfy`, `Decimals.dfy`, `Results.dfy` | bytes and slicing facts, decimal notation, option and result types and faults |

How the source's effects appear:

- A read, write, request or file system call that may fail, a short read, a chunked reply and an
  abort are nondeterministic choices, so a method's contract holds for each of them. In a
  `reliable` environment no such call fails by chance, and the contract says what the inputs then
  lead to.
- Asynchronous code is cut at its awaits. Each stretch is one atomic step; a run is any sequence of
  steps, and a step that is not possible changes nothing.
- SHA-256, Ed25519, release URLs, `Number(text)` and, for the cache, the manifest check and the
  artifact check are parameters. What is assumed of them is written in the `requires` of the lemmas that need it.
- `requireLegacyUpdateSource` throws in every shipped build, so the legacy update channel is off in
  production and its code runs only in the repository's own tests. It is a flag here
  (`Release.legacyEnabled`, `Checks.legacyEnabled`), and both settings are covered.

Where the code does less than one would expect, the model keeps the code, and a lemma states
exactly when the expectation holds:

- A second `stop()` resolves at once, possibly while the helper is still starting
  (`RepeatedStop`, `SecondStopResolvesEarly`).
- A connection callback that throws on a new connection leaves it stored under status
  `unavailable` (`ReadyExactlyWhenConnected`, `ThrowingCallbackLeavesConnection`); one that throws
  in `stop()` keeps the status from ever becoming `stopped` (`StopEnds`).
- A `start()` that joins a launch which has connected but not been cleaned up can return a
  connection that was already withdrawn (`StartReturnsNewConnection`, `StartCanReturnWithdrawn`).
- If destroying the native host throws after the driver exited, the helper never calls
  `process.exit` (`ExitNumbers`, `StrandedForGood`, `DriverExitCanStrandHelper`).
- For a dependency nested beside a package, rather than inside it, the copier takes a hoisted one of
  the same name or none (`CopierAgreesWithNode`). The nested one is shipped only if the package
  around both lists it too, and only then does the shipped package find it (`NestedIsShipped`,
  `ShippedTreeResolves`, `SiblingDependencyIsMissed`).
- A hoisted dependency of a helper package goes to the server's modules, where the helper cannot
  find it, unless it is one of the helper's own packages (`HoistedForHelper`, `HelperMissesHoisted`).
- A release with long notes can be cached in a record too large to be read back
  (`CachedBaseIsFoundAgain`, `LongNotesAreLost`).
- The ripgrep side of the fuzzy query does not turn `\` into `/`, so it also counts files in which
  the derived query begins in the directories and ends in the name (`BenchmarkFuzzyCounts`,
  `FuzzyCountsDiffer`).
- A stderr line of more than 16,384 characters comes out differently for different chunkings
  (`SameForEveryChunking`).
- A temporary package file is left behind exactly when the download failed between creating and
  moving it and its final removal fails too; a temporary blockmap can also stay behind a normal return, only if its removal
  failed (`DownloadDesktopRelease`).

## Model

| member | source | states |
|---|---|---|
| DifferentialPlan.CoalesceDifferentialRanges | electron/lib/desktop-differential.ts:25-47 | the nested loops compute `Coalesced`, the function the laws below are about |
| DifferentialPlan.MergeFollowing | electron/lib/desktop-differential.ts:31-43 | the inner scan ends at the last download it can reach through gaps of at most 64 KiB |
| Coalescing.CoalescingKeepsPlansWellFormed | electron/lib/desktop-differential.ts:25-47 | an accepted plan stays accepted and covers the same output range |
| Coalescing.CoalescingOnlyFreshens | electron/lib/desktop-differential.ts:25-47 | every output byte is the one written before or the one the new artifact has there |
| Coalescing.CoalescingPreservesRebuild | electron/lib/desktop-differential.ts:25-47 | a plan that rebuilds the new artifact still rebuilds exactly it and tiles it |
| Coalescing.CoalescingCost | electron/lib/desktop-differential.ts:24-46 | requests never grow, and extra downloaded bytes are at most 65,536 per request saved |
| Coalescing.CoalescingKeepsByteCount | electron/lib/desktop-differential.ts:25-46 | copied plus downloaded bytes stay constant |
| Coalescing.CoalescingIsMaximal | electron/lib/desktop-differential.ts:33-42 | consecutive downloads of the result are more than 64 KiB of copies apart |
| Coalescing.CoalescedRequestCount | electron/lib/desktop-differential.ts:33-42 | one request plus one per gap over 64 KiB in the input, none if there was none |
| Coalescing.CoalescingIsIdempotent | electron/lib/desktop-differential.ts:25-47 | coalescing twice changes nothing |
| DifferentialTransfer.ValidateDesktopBlockMap | electron/lib/desktop-differential.ts:48-89 | accepts exactly the version 2 maps of one file whose chunks cover the artifact, stopping early or not |
| DifferentialTransfer.CheckPlan | electron/lib/desktop-differential.ts:156-178 | accepts exactly the plans that tile the artifact, with their download size and requests |
| DifferentialTransfer.TilesByPosition | electron/lib/desktop-differential.ts:159-178 | tiling says of each operation that it is in range and each download starts where the output stands |
| DifferentialTransfer.Transfer.CopyRange | electron/lib/desktop-differential.ts:203-217 | short reads append a prefix of the copied range, all of it on success, which only a fault or a short base prevents |
| DifferentialTransfer.Transfer.FetchRange | electron/lib/desktop-differential.ts:219-260 | any chunking appends a prefix of the body; success means, and but for faults needs only, a 206 reply whose range names exactly the planned positions of the artifact, with a body of the right length |
| DifferentialTransfer.ExactRangeMeans | electron/lib/desktop-differential.ts:223-241 | a reply is exact when it is a 206 for the artifact's size whose range holds the planned positions and no other, with no other length and no encoding |
| DifferentialTransfer.Transfer.ReceiveBody | electron/lib/desktop-differential.ts:243-260 | a body longer or shorter than the range is refused, and nothing past the range is written |
| DifferentialTransfer.Transfer.Report | electron/lib/desktop-differential.ts:185-193 | progress is the downloaded share of the planned bytes, stays in [0, 1] and never falls |
| DifferentialTransfer.Execute | electron/lib/desktop-differential.ts:194-264 | wherever it stops, the target holds the complete operations and part of the next; success writes exactly the artifact's size, downloads exactly the planned bytes and ends at progress 1; but for faults it stops only at an operation that cannot be completed |
| DifferentialTransfer.ReusedBytesAreCopies | electron/lib/desktop-differential.ts:183-191 | artifact size minus download size is the bytes copied |
| DifferentialTransfer.StoppedTransferIsPrefix | electron/lib/desktop-differential.ts:200-261 | with honest replies the target is always a prefix of the plan's output, and all of it at the end |
| DifferentialTransfer.CoalescedTransferRebuilds | electron/lib/desktop-differential.ts:149-261 | coalescing, checking and running a rebuilding plan reproduces the new artifact |
| DifferentialTransfer.ServedPlanCompletes | electron/lib/desktop-differential.ts:149-261 | from an intact base and exact replies the rewritten plan completes and makes the new artifact |
| UpdateFeed.LoadBlockMap | electron/lib/desktop-differential.ts:91-128 | success means the map is cached and verified; otherwise it is untouched or verified, and its temporary file is gone unless removing it failed; but for faults it succeeds exactly with a verified map, cached or fetched |
| UpdateFeed.LoadBlockMaps | electron/lib/desktop-differential.ts:145-146 | the same for both maps in turn |
| UpdateFeed.DownloadDifferential | electron/lib/desktop-differential.ts:130-274 | success means a verified temporary file, and ranges and blockmaps of together less than nine tenths of the package; returning false leaves none; but for faults it succeeds exactly when both maps load, the plan is accepted, has at most 256 requests and saves that tenth, and running it makes the package |
| UpdateFeed.TransferPlan | electron/lib/desktop-differential.ts:194-273 | only the temporary file changes, and success means it verified |
| UpdateFeed.DownloadFull | electron/lib/desktop-update-feed.ts:120-143 | streamed size and hash are those of the file written, checked before success; but for faults it succeeds exactly when the response is the package |
| UpdateFeed.Publish | electron/lib/desktop-update-feed.ts:144-146 | the destination is as it was, absent or verified at each failure |
| UpdateFeed.DownloadDesktopRelease | electron/lib/desktop-update-feed.ts:47-150 | a normal return means verified; a verified destination is kept; the destination is never left unverified; a temporary package stays exactly when the download failed between creating and moving it and its final removal failed too; the exclusive create never collides; nothing else is touched; a differential download transferred less than the package; but for faults the outcome is determined: kept, differential, full, or which error |
| UpdateFeed.TryDifferential | electron/lib/desktop-update-feed.ts:70-108 | it ends with the verified package published after transferring less than its size, or with no temporary file for the fallback to collide with, or because that removal failed |
| UpdateFeed.Attempts | electron/lib/desktop-update-feed.ts:69-146 | the same for the body of the outer try, differential attempt and fallback together |
| UpdateFeed.FallBack | electron/lib/desktop-update-feed.ts:110-146 | the full package is published verified, or the destination is as it was or absent |
| UpdateFeed.ServedUpgradeIsDifferential | electron/lib/desktop-update-feed.ts:70-96 | if the upstream plan rebuilds the package and the server serves its ranges, the differential download is the one taken exactly when it has at most 256 requests and ten times its bytes with both blockmaps are less than nine times the package |
| ManifestSigning.StringIsPrefixFree | electron/lib/desktop-update-signing.ts:39-51 | an escaped JSON string determines its text and where it ends |
| ManifestSigning.NumberIsPrefixFree | electron/lib/desktop-update-signing.ts:39-51 | a decimal number determines its value and where it ends |
| ManifestSigning.ArtifactIsPrefixFree | electron/lib/desktop-update-signing.ts:34-38 | the text of an artifact determines the artifact |
| ManifestSigning.OptionalIsPrefixFree | electron/lib/desktop-update-signing.ts:46-49 | presence or absence of an optional artifact is determined by the text |
| ManifestSigning.SigningTextIsInjective | electron/lib/desktop-update-signing.ts:33-52 | equal signed texts if and only if equal manifests, signature aside |
| SignedJson.SigningTextIsRead | electron/lib/desktop-update-signing.ts:33-52 | a reader of JSON that knows nothing of the writer finds format, version, platform, arch and artifact, then updateArchive and blockMap if present, in that order, each with the manifest's own value, and nothing else |
| SignedJson.StringIsRead | electron/lib/desktop-update-signing.ts:39-51 | the reader gets every string back from its escaped form |
| SignedJson.ArtifactIsRead | electron/lib/desktop-update-signing.ts:34-38 | an artifact is read as its name, size and sha256, in that order |
| SignedJson.EscapesAreShortest | electron/lib/desktop-update-signing.ts:39-51 | each character is written in the form JSON.stringify chooses: short escapes, lower-case \u00xx for other controls, itself otherwise |
| Utf8.EncodingIsInjective | electron/lib/desktop-update-signing.ts:39 | texts with equal UTF-8 bytes are equal |
| Utf8.EncodedIsDecoded | electron/lib/desktop-update-signing.ts:39 | a decoder of UTF-8 gives back the text from its bytes |
| ManifestSigning.SigningBytesAreInjective | electron/lib/desktop-update-signing.ts:33-52 | equal signed bytes if and only if equal manifests, signature aside |
| SignedJson.SigningBytesAreRead | electron/lib/desktop-update-signing.ts:33-52 | the signed bytes are UTF-8 of a text that reads as the manifest |
| ManifestSigning.SignedManifestVerifies | electron/lib/desktop-update-signing.ts:54-102 | signing then verifying with the matching key succeeds |
| SignedJson.SignedIsJson | electron/lib/desktop-update-signing.ts:54-82 | a manifest is signed with an ed25519 signature over its JSON, by the private half of the pinned key |
| SignedJson.AcceptedIsSigned | electron/lib/desktop-update-signing.ts:85-102 | it is accepted as genuine only if a pinned key accepts its ed25519 signature on its JSON, and let through unverified exactly when no key is pinned |
| ManifestSigning.SignatureBindsContent | electron/lib/desktop-update-signing.ts:84-102 | a copied signature is accepted exactly on manifests with the signed content |
| ManifestSigning.SignedManifestBindsContent | electron/lib/desktop-update-signing.ts:54-102 | what was signed verifies on the manifest it was made for and on no other content |
| UpdateCache.FindCachedDesktopRelease | electron/lib/desktop-update-cache.ts:106-157 | returns a verified newer candidate with none greater verified; none exactly when none verifies |
| UpdateCache.FirstVerified | electron/lib/desktop-update-cache.ts:137-157 | of candidates sorted newest first it returns a verified one that none verified exceeds |
| UpdateCache.SortIsSorted | electron/lib/desktop-update-cache.ts:134-136 | candidates are ordered newest first under the numeric comparison |
| UpdateCache.NewestVerified | electron/lib/desktop-update-cache.ts:137-155 | the first verified candidate in that order has no verified one above it |
| UpdateCache.NewestIsUnique | electron/lib/desktop-update-cache.ts:121-146 | verified candidates of numerically equal versions are the same directory |
| CacheRules.CompareMeans | electron/lib/ui-update-format.ts:118-125 | the greater major number is newer, then the greater minor, then the greater patch |
| CacheRules.EligibleMeans | electron/lib/desktop-update-cache.ts:120-151 | a candidate is a directory with a record of at most 100,000 bytes of the release it is named after, checked, with a verified package, for this platform and newer than the current version |
| UpdateCache.FindCachedDesktopBase | electron/lib/desktop-update-cache.ts:71-104 | returns the release of exactly that directory when its record and package verify and it has a blockmap |
| CacheRules.BaseMeans | electron/lib/desktop-update-cache.ts:71-104 | a base is found exactly for a plain version, a known platform and architecture, and such a directory whose release has a blockmap |
| UpdateCache.CacheDesktopRelease | electron/lib/desktop-update-cache.ts:41-59 | whatever fails, the files hold the old record or the new one and nothing else changed; the temporary file stays exactly when writing or renaming it and then removing it failed; an invalid release changes nothing; but for faults a valid one is stored |
| UpdateCache.WriteRecord | electron/lib/desktop-update-cache.ts:49-56 | the record is in place or untouched, and which failure leaves the temporary file |
| UpdateCache.ValidatedAgain | electron/lib/desktop-update-cache.ts:27-39 | validating a validated release changes nothing; notes within 20,000 are kept |
| CacheRules.ValidatedMeans | electron/lib/desktop-update-cache.ts:27-39 | a release is accepted exactly when manifest, signature, channel and URL are; its notes keep at most their first 20,000 characters |
| ManifestFormat.ChecksNamesHolds | electron/lib/desktop-update-format.ts:62-106 | a checked manifest has a version without leading zeros, a known platform and a known architecture, which is what the cache relies on |
| ManifestFormat.ManifestMeans | electron/lib/desktop-update-format.ts:47-106 | a manifest passes exactly with format 1, a known platform and architecture, artifacts of the right names and sizes with a hexadecimal digest, an archive on macOS only, and an ed25519 signature of 64 bytes if any |
| ManifestFormat.FilesAreDistinct | electron/lib/desktop-update-format.ts:33-95 | the package, archive, blockmap and record of a release have different names |
| ManifestFormat.PackageNameMeans | electron/lib/desktop-update-format.ts:33-41 | a package's name determines its version and platform, and its architecture on macOS only |
| UpdateCache.CachedBaseIsFoundAgain | electron/lib/desktop-update-cache.ts:41-104 | a cached release is found as a base, unchanged, exactly when it has a blockmap, a record within 100,000 bytes and a verified package |
| UpdateCache.CachedReleaseIsEligible | electron/lib/desktop-update-cache.ts:41-157 | a cached release is a verified candidate exactly when it is newer, within the record limit and verified |
| UpdateCache.CachedReleaseIsReturned | electron/lib/desktop-update-cache.ts:41-157 | the search returns exactly the cached release if and only if it is such a candidate and no other is newer |
| UpdateCache.LongNotesAreLost | electron/lib/desktop-update-cache.ts:37-90 | 20,000 control characters of notes are accepted and make the record unreadable |
| CachedUpgrade.CachedReleaseIsUpgraded | electron/lib/desktop-update-feed.ts:69-96 | a release that was cached is what the next download rebuilds from exactly when the next one is genuinely signed, newer and has a blockmap, the cached one has a blockmap, a readable record and a verified package, both blockmaps can be had, and the plan has at most 256 requests and saves a tenth of the package |
| CachedUpgrade.PinnedMeansGenuine | electron/lib/desktop-update-signing.ts:84-102 | once one signature is genuine, every signature not rejected is |
| CachedUpgrade.SignedAsCached | electron/lib/desktop-update-signing.ts:33-52 | what is signed for a cached manifest has its version as three numbers with dots, its platform, architecture and artifacts |
| CuaRuntime.CuaRuntimeManager.StartLaunch | electron/lib/cua-runtime.ts:225-241 | start() publishes nothing, never displaces a launch in flight, and answers at once only with what is stored |
| CuaRuntime.CuaRuntimeManager.FinishLaunch | electron/lib/cua-runtime.ts:255-270 | a new connection is stored, ready and published once, or after a stop nothing is; the invariant is kept even if the callback throws |
| CuaRuntime.CuaRuntimeManager.BeginRestart | electron/lib/cua-runtime.ts:309-313 | the connection is gone and its withdrawal published before anything is awaited |
| CuaRuntime.CuaRuntimeManager.ResumeRestart | electron/lib/cua-runtime.ts:315-316 | with nothing stored it joins the one launch in flight; after a stop it changes nothing |
| CuaRuntime.CuaRuntimeManager.MarkHelperUnavailable | electron/lib/cua-runtime.ts:323-329 | a stored connection is withdrawn exactly once; without one nothing changes |
| CuaRuntime.CuaRuntimeManager.BeginStop | electron/lib/cua-runtime.ts:331-335 | from here on stopped, without a connection, and said once; a second call changes nothing |
| CuaRuntimeDriver.Supervise | electron/lib/cua-runtime.ts:191-339 | driving the class through any interleaving ends in the state of that run, so what is proved of runs holds of its fields |
| CuaRuntimeRuns.StepKeepsInv | electron/lib/cua-runtime.ts:225-338 | every step of every call keeps the invariant behind the results below |
| CuaRuntimeRuns.PublishedIsStored | electron/lib/cua-runtime.ts:225-338 | in every run the last published value is the stored connection and no identifier is published twice |
| CuaRuntimeRuns.OneLaunchInFlight | electron/lib/cua-runtime.ts:225-241 | at most one launch is in flight, and it is the pending one |
| CuaRuntimeHistory.ReadyExactlyWhenConnected | electron/lib/cua-runtime.ts:225-329 | before a stop, status `ready` and having a connection agree unless the callback threw on the connection last published and that failure has been handled since |
| CuaRuntimeHistory.ReadyWithSoundCallback | electron/lib/cua-runtime.ts:198-329 | with a callback that does not throw on connections they always agree |
| CuaRuntimeHistory.ThrowingCallbackLeavesConnection | electron/lib/cua-runtime.ts:231-270 | a run in which a throwing callback leaves a connection under `unavailable` |
| CuaRuntimeHistory.StatusFromHistory | electron/lib/cua-runtime.ts:198-338 | in every run the status is the word for the last thing that happened: launch begun, connected, failure handled, helper lost, restarted or stopped |
| CuaRuntimeHistory.ErrorFromHistory | electron/lib/cua-runtime.ts:198-330 | in every run the error is the reason of the last failure handled or helper lost since a connection, and absent exactly without one |
| CuaRuntimeHistory.ReasonFromHistory | electron/lib/cua-runtime.ts:231-270 | the reason a failed launch has is the one its failing check or callback gave |
| CuaRuntimeRuns.NothingPublishedAfterStop | electron/lib/cua-runtime.ts:255-338 | after the first step of a stop nothing is published any more |
| CuaRuntimeHistory.CallsAfterStop | electron/lib/cua-runtime.ts:225-317 | once stopped, start() and restart() return nothing and change nothing |
| CuaRuntimeRuns.StoppedForever | electron/lib/cua-runtime.ts:331-338 | once the stopping call resolved, the status is `stopped` for good |
| CuaRuntimeRuns.RepeatedStop | electron/lib/cua-runtime.ts:331-338 | a later stop() returns at once and leaves `stopped` exactly when the first had resolved |
| CuaRuntimeRuns.SecondStopResolvesEarly | electron/lib/cua-runtime.ts:331-338 | a run in which a second stop() resolves while the status is `starting` |
| CuaRuntimeRuns.RestartReturnsNewConnection | electron/lib/cua-runtime.ts:308-317 | a connection returned by restart() was published after that restart() began, joined launches included |
| CuaRuntimeRuns.RestartReturnsFreshGeneration | electron/lib/cua-runtime.ts:308-317 | its identifier was never published before |
| CuaRuntimeHistory.StartReturnsNewConnection | electron/lib/cua-runtime.ts:225-241 | a connection start() returns was published since the call, exactly unless one was stored then or the launch it joined had already connected |
| CuaRuntimeHistory.StartCanReturnWithdrawn | electron/lib/cua-runtime.ts:225-241 | a run in which it returns a connection withdrawn before the call |
| CuaRuntimeHistory.WithdrawalsMatchCalls | electron/lib/cua-runtime.ts:255-335 | published values and the steps behind them correspond one to one and in order, the withdrawals being exactly the calls that withdraw |
| CuaRuntimeHistory.ConnectionsAlternate | electron/lib/cua-runtime.ts:225-335 | a connection is always withdrawn before the next one is published |
| CuaRuntimeHistory.StopEnds | electron/lib/cua-runtime.ts:331-338 | the stopping stop() is rejected exactly when the callback throws; the status is `stopped` from its return, and never if it is rejected |
| CuaRuntimeRuns.StartCanSucceed | electron/lib/cua-runtime.ts:225-271 | from any idle state reached, a start whose checks pass ends ready with a new connection |
| HelperLifecycle.StepKeepsInv | cua-helper/main.ts:141-207 | every step keeps the log equal to start-up's events followed by the shutdown's |
| HelperLifecycle.ResourcesReleasedInOrder | cua-helper/main.ts:145-207 | every run follows one of four courses: nothing twice, host stopped only after start-up settled, an opened bridge closed first |
| HelperLifecycle.ExitCode | cua-helper/main.ts:145-164 | at most one exit, after the host is destroyed: 0, 78 or 69 by the first request, or 1, 78, 69 or none when destroying threw |
| HelperLifecycle.RequestEnds | cua-helper/main.ts:145-164 | once start-up has settled, a requested shutdown ends with exit code 0, 78 or 69 by the first request, in any order of events, if its stretches get their turn and destroying does not throw |
| HelperExits.ExitNumbers | cua-helper/main.ts:145-223 | from the actions of any run: it exits with 0 if the owner asked first, 78 if the host or a connection failed over a permission, 69 if start-up failed otherwise or the driver exited; if destroying threw, with 1, the code for that throw, or not at all |
| HelperExits.ExitIsAskedFor | cua-helper/main.ts:145-205 | no run exits without a first request and, after it, the end of the host |
| HelperExits.WhatAsks | cua-helper/main.ts:167-205 | a shutdown is asked for by the owner's leaving, by main on a failed start-up and by the watched driver's exit, and by nothing else |
| HelperLifecycle.FirstRequestStands | cua-helper/main.ts:146-147 | no later request replaces the first |
| HelperLifecycle.NoBridgeAfterRequest | cua-helper/main.ts:172-187 | a request during host start-up keeps the bridge from being opened |
| HelperLifecycle.StartupStep | cua-helper/mcp-bridge.ts:67-115 | a bridge that fails to start closes server, client and transport before start-up settles |
| HelperLifecycle.StrandedForGood | cua-helper/main.ts:145-205 | after such a throw on driver exit no later request calls process.exit |
| HelperLifecycle.DriverExitCanStrandHelper | cua-helper/main.ts:156-205 | the run in which that happens |
| NativeModules.TargetDeterminesSource | scripts/copy-native-modules.ts:59-61 | keying the memo by target is sound |
| NativeModules.Copier.CopyRuntimePackage | scripts/copy-native-modules.ts:54-95 | terminates on cycles; everything copied is reached from the package, each target once, and all it needs is copied; but for faults only an unreadable package it reaches makes it fail |
| NativeModules.Copier.CopyDependencies | scripts/copy-native-modules.ts:81-94 | after the loop every listed dependency that exists is copied |
| NativeModules.Copier.CopyDependency | scripts/copy-native-modules.ts:85-93 | one dependency: own nested one, else the hoisted one, else none |
| NativeModules.Copier.CopyAll | scripts/copy-native-modules.ts:96-115 | on success exactly the closure of the roots is copied; on failure nothing outside it; but for faults it fails exactly if a package of the closure cannot be read |
| NativeModules.WantedIsClosed | scripts/copy-native-modules.ts:81-94 | that closure holds the roots and is closed under dependencies |
| NativeModules.WantedIsLeast | scripts/copy-native-modules.ts:81-94 | and it lies in every set that does both |
| NativeModules.CopierAgreesWithNode | scripts/copy-native-modules.ts:85-93 | the copier takes what Node would resolve exactly when the dependency is nested in the package or nowhere in between |
| NativeModules.SiblingDependencyIsMissed | scripts/copy-native-modules.ts:85-93 | a tree in which the wrong version is copied and the needed one is not |
| ShippedModules.LookupsAgree | scripts/copy-native-modules.ts:81-94 | Node's lookup among the shipped targets finds what it finds in the tree exactly when that was copied to the same side |
| ShippedModules.TopOfHelper | scripts/copy-native-modules.ts:85-115 | a package is at the top of the helper's modules exactly when it is a root of the helper |
| ShippedModules.NestedIsShipped | scripts/copy-native-modules.ts:81-94 | a nested package is shipped in its place exactly when the package around it is shipped there and lists it |
| ShippedModules.EnclosingIsShipped | scripts/copy-native-modules.ts:81-94 | every package around a shipped one is shipped |
| ShippedModules.ShippedTreeResolves | scripts/copy-native-modules.ts:81-115 | a shipped package resolves a listed name as in the tree exactly when Node finds nothing there, or finds it hoisted and the package is on the server's side or the name is listed for the helper, or finds it nested in a package that lists it |
| ShippedModules.ListedSiblingIsShipped | scripts/copy-native-modules.ts:81-94 | a tree in which the package around both lists the nested dependency, which is then shipped |
| ShippedModules.HelperMissesHoisted | scripts/copy-native-modules.ts:93-115 | a helper package whose hoisted dependency is not listed cannot find it |
| PackagedRoots.PackagesArePlaced | scripts/copy-native-modules.ts:96-115 | the top of cua-helper-dist/node_modules holds exactly the CUA driver, its platform packages and the bindings; trash, pdfjs-dist and @napi-rs/canvas are in server-dist/node_modules |
| PackagedRoots.HoistedForHelper | scripts/copy-native-modules.ts:81-115 | a helper package finds a hoisted dependency exactly when that is one of the helper's packages, and the dependency is in server-dist in any case |
| ProcessTree.Index | scripts/runtime-first-token-benchmark.ts:571-580 | the two maps hold each process's last time and its children in order |
| ProcessTree.TreeCpuSeconds | scripts/runtime-first-token-benchmark.ts:568-595 | the sum over exactly the processes reachable from the root, each once, cycles included |
| ProcessTree.ClosedHoldsTree | scripts/runtime-first-token-benchmark.ts:584-590 | a set with the root and its members' children holds the whole tree |
| SessionSeed.SeedSession | scripts/runtime-first-token-benchmark.ts:302-326 | batches join to the input, each of 1 to 256 entities and at most 524,288 bytes unless it has only one, and no other such batches are fewer; it stops early only if the sidecar refuses an admissible command |
| SessionSeed.FlushKeepsAhead | scripts/runtime-first-token-benchmark.ts:319-325 | a greedy batch keeps ahead of any other batching with as many commands |
| PathIndexing.PathIndex.constructor | scripts/workspace-search-bench.ts:95-104 | the buckets hold exactly the paths with each name, in order |
| PathIndexing.PathIndex.ByBasename | scripts/workspace-search-bench.ts:106-108 | exactly the paths whose last segment is the name but for the case of letters, each once and in order |
| PathIndexing.PathIndex.BySubstring | scripts/workspace-search-bench.ts:110-115 | exactly the paths that hold the query somewhere but for the case of letters, each once and in order |
| PathIndexing.PathIndex.ByTokens | scripts/workspace-search-bench.ts:117-125 | exactly the paths that hold every term but for the case of letters, each once and in order, empty terms making no difference |
| PathIndexing.PathIndex.ByFuzzy | scripts/workspace-search-bench.ts:127-140 | exactly the paths in whose last segment rising positions spell the query but for the case of letters, each once and in order |
| PathIndexing.GreedyIsComplete | scripts/workspace-search-bench.ts:132-137 | the greedy scan succeeds exactly on subsequences |
| PathIndexing.RgFuzzy | scripts/workspace-search-bench.ts:245-258 | the ripgrep-side filter, early return included, keeps exactly the subsequence matches |
| PathIndexing.FuzzySidesAgree | scripts/workspace-search-bench.ts:245-261 | both sides of the fuzzy query give the same paths |
| SearchIntents.FuzzyCountsAgree | scripts/workspace-search-bench.ts:245-261 | on a raw listing the two counts of a query agree exactly when it spills over from the directories into the name of no listed file |
| SearchIntents.BenchmarkFuzzyCounts | scripts/workspace-search-bench.ts:167-261 | so for the query derived from that listing, and always where the separator is `/` |
| SearchIntents.FuzzyCountsDiffer | scripts/workspace-search-bench.ts:167-261 | a listing with `\` for whose own query the counts differ |
| SearchQueries.TokenMeans | scripts/workspace-search-bench.ts:173-186 | the token is the first six characters, in small letters, of the stem of the first of the deepest files |
| SearchQueries.AbbreviationMeans | scripts/workspace-search-bench.ts:173-188 | the abbreviation is the first six, in small letters, of the characters that begin the parts of that stem, two a part |
| PathIndexing.TokenSidesAgree | scripts/workspace-search-bench.ts:231-240 | both sides of the token query give the same paths |
| PathIndexing.SubstringCountsAgree | scripts/workspace-search-bench.ts:222-226 | the two substring counts are equal exactly for a non-empty token or a listing without empty lines |
| SearchIntents.BenchmarkCountsAgree | scripts/workspace-search-bench.ts:167-226 | with the token derived from a raw listing the two substring counts are equal, whatever its separator, and positive if any file is listed |
| SearchIntents.TermCountsAgree | scripts/workspace-search-bench.ts:229-241 | for terms that are path segments the two counts of the token query are equal, whatever the separator |
| Framing.SplitAppend | cua-helper/mcp-bridge.ts:84-87 | splitting a longer text continues from the open line |
| Framing.LinesRejoin | cua-helper/mcp-bridge.ts:85-86 | the lines joined with line breaks are the text, and none holds one |
| Framing.LineSplitter.OnData | cua-helper/mcp-bridge.ts:83-90 | the buffer stays within 16,384 characters and is the end of the open line of the stream; each cut line is an end of the true line of at least min(length, 16,384) |
| Framing.SplitLines | cua-helper/mcp-bridge.ts:82-90 | the same for any chunks; the lines logged are those cut that are not blank |
| Framing.BlankMeans | cua-helper/mcp-bridge.ts:89 | a line is not logged if it holds only the 25 characters that trim() removes |
| Framing.SameForEveryChunking | cua-helper/mcp-bridge.ts:82-90 | a closed line comes out the same for every chunking exactly when it has at most 16,384 characters, and then whole |
| Framing.ShortLinesAreExact | cua-helper/mcp-bridge.ts:85-90 | lines within the limit come out exactly, for every chunking |
| Framing.FramesAppend | scripts/runtime-first-token-benchmark.ts:701-706 | framing a longer text continues from the open text |
| Framing.EventFramer.Consume | scripts/runtime-first-token-benchmark.ts:699-706 | the frames are those of the whole stream, for every chunking |
| Framing.FrameEvents | scripts/runtime-first-token-benchmark.ts:696-708 | the same for any chunks from the start of a stream |
| Framing.FramesRejoin | scripts/runtime-first-token-benchmark.ts:703-706 | frames and breaks join to the stream, no frame holds a break, and none ends with half of one |
| CliArgs.ParseArgs | cli/args.ts:27-120 | the loop and its final checks give the result of reading the arguments as tokens |
| CliRoundTrip.ReadingMeans | cli/args.ts:54-102 | last value of each flag, files in order, first word as command, the rest as positionals |
| CliRoundTrip.ParsedMeans | cli/args.ts:27-120 | the same for a whole command line |
| CliRules.ArgumentMeans | cli/args.ts:38-101 | how each argument is read: the fifteen options with a value by name, the others, `--`, and which error a missing or bad value gives |
| CliRules.RefusedExactly | cli/args.ts:54-119 | a command line is refused exactly for an argument that cannot be read, both output modes, or a last backend, reply, effort or action value not allowed |
| CliRoundTrip.FlagsCommute | cli/args.ts:88-95 | from any state two different string flags can be given in either order |
| CliRoundTrip.LaterFlagWins | cli/args.ts:88-95 | from any state a repeated flag counts the second time only |
| CliRoundTrip.PrintedOptionsParse | cli/args.ts:27-120 | printing valid options and parsing gives them back |
| CliRoundTrip.ParsedOptionsAreValid | cli/args.ts:27-120 | parsing returns valid options only, so its results are exactly the valid ones |

## Left out

- `computeOperations`, gunzip, `fetch` with its redirects and proxy, and the electron-updater library: any operation sequence, any blockmap value and any reply are taken as input.
- Abort signals and timeouts appear only as failures that may happen at any check; time itself is not modelled.
- The `onTransfer` and `onVerifying` callbacks and the `fallback` flag of the full download: reporting only. Progress is shown to rise within one differential transfer; a fallback starts again from zero.
- LocalFiles: no directories, links or permissions, and nobody else changes the files during a download.
- Names containing a random identifier are assumed new (`FreshNames`), as are generated connection identifiers.
- UpdateCache.CacheDesktopRelease: directories are a set beside the files, and how records are written and read is a parameter that round-trips.
- Directory names in the cache are version, platform and architecture; matching them against the regular expression is not modelled.
- ManifestSigning: lone surrogates and base64 are not modelled, and a genuine signature's being accepted for one text only is a hypothesis.
- CuaRuntime: `permissions`, `resolveHelperLaunch` and the version probe are reduced to three checks that pass or fail.
- HelperLifecycle: tool calls and the keychain policy of the bridge, and permission checks before the host exists.
- NativeModules: the bytes copied and the exclusion of nested node_modules from each copy; a copy is one event.
- ProcessTree.TreeCpuSeconds: parsing of the `ps` output; rows are given. Times are exact reals.
- SessionSeed.SeedSession: token counts and the byte total of the result.
- PathIndexing: lower-casing is per ASCII character, and `byGlob` belongs to another library.
- Framing: characters split across byte chunks, and what `SessionSensor` does with each frame.
- CliArgs: `Number(text)` is a parameter that reads decimal numbers back; other notations JavaScript accepts are whatever it makes of them.
- The Rust sidecar, Electron windows and menus, preload, packaging, the remaining benchmarks and smoke scripts, `cli/main.ts` and `cli/runtime-host.ts` are not part of this model.
