# codexhost verification model

Dafny proofs about the parts of codexhost where a small mistake would signal the wrong process,
let an unchecked file into a build, or lose data in an encoding. One file models one component.

- **Process ownership** (`Processes`, `IndependentService`, `ObservedTree`, `TreeOwnership`,
  `TreeSafety`, `OwnershipTransfer`, `MacosProcessObservation`, `DesktopRoots`, `DesktopLaunch`,
  `LaunchOutcomes`, `ProcessChain`). A frame is one enumeration of the process table; an observed
  tree is a state machine over frames. The proofs cover unbounded runs with PID reuse,
  re-parenting, exec, process groups and services that leave the tree. The macOS prefilter gives
  the same answers as a full scan in lock step.
- **Web bundle isolation** (`WebBundleIsolation`, `WebPageGraph`, `Reachability`,
  `BundleInputIsolation`). The verification succeeds exactly when everything the index page can
  load passes.
- **Encodings** (`WindowsCommandLine`, `Autostart`, `ArtifactDigest`). Each has a reader and a
  round trip over all inputs.
- **Lifecycles** (`ShimLifecycle`, `UpdateHandoff`, and the launch loop in `DesktopLaunch`).
  Loops are functions of what the environment shows them; the handoff is an interleaved machine.
- **Normalisers and scanners** (`ProxyEnvironment`, `ProxyConvergence`, `StartupRecords`,
  `ShimInvocation`).

Code that changes state is a method or class proved equal to a function of the old state; the
lemmas are about that function, over every input and every run. PIDs, start times and clock
values are natural numbers that are only compared or moved by a fixed grace, so integer width
plays no part. Paths are strings compared by equality. Text is a sequence of Unicode scalar values.

## Assumptions

- Where a lemma says `DistinctIds` or `DistinctTables`, one frame lists each PID once. The prefilter
  equivalence, the closure lemmas and the Desktop-root theorem do not need it.
- Desktop roots need no premise: `ReportedExact` says which processes are reported on every frame,
  and `DesktopRootsExact` gives the condition, in both directions, under which these are the ones
  without a target ancestor. Parent links without a cycle through the target meet it
  (`NoTargetCycle`); `TargetCycleBreaksRoots` is a frame that does not.
- `CommaFree`: system proxy exceptions hold no comma. It is sufficient for idempotence;
  `HarmlessCommas` is a wider condition on the inherited variables and the settings,
  `FirstOutputStableIff` the exact one on the computed list, `CommaBreaksIdempotence` an input that
  misses it, and `ChainSettles` shows that a chain of processes settles all the same.
- Ownership transfer, one frame: `SparedExact` gives the condition, in both directions and for every
  tree on either platform, under which a live registered service's subtree leaves result and ledger;
  `UnreachedLeaderIsNotSpared` and `WatchedMemberIsNotSpared` are frames outside it. Whole runs:
  `HandedOverOnce` asks that the first poll hands the service over, that it stays live and
  registered, that no process an earlier poll left in the ledger is re-parented into its subtree,
  and that the root, and on macOS the watched group, stay out of it.
- `Careful`, for the single owner of an update: the active-update lock is removed only while it is
  free, and no new Launcher gets the PID that a lock-holding, not yet acknowledged Updater waits
  for. Each half is exact (`ReleaseSafeIffFree`, `LauncherStartSafeIff`): any other removal, and any
  other such start, has a continuation that breaks ownership. The code excludes neither. Lock
  recovery (packages/update-manager/src/operation-state.ts:211-248) removes a lock whose recorded
  owner is dead without asking whether a Launcher is mid-start (`EarlyReleaseMakesTwoOwners`), and
  a request names its Launcher by PID and executable only (`RecycledLauncherMakesTwoOwners`).
  Nothing else about the handoff needs this premise.

## Where the code decides

- A non-text argument ends both option scanners of the shim without rejecting the invocation;
  `Options` reads the same prefix.
- On Linux a failed group check leaves the refreshed ledger and the followed root executable in
  place; a later observation continues from there, and so do the runs here.

## Model

| member | source | states |
|---|---|---|
| Processes.Sweep | crates/platform/src/process.rs:206-212 | one pass adds only unowned processes of the frame, and adds nothing only when the owned PIDs are closed under children |
| Processes.ClosureIsLeast | crates/platform/src/process.rs:198-217 | descendant discovery is exactly the least child-closed set above its roots, reports no PID twice and no root |
| Processes.DescendExact | crates/platform/src/process.rs:198-217 | with distinct PIDs the report holds exactly the non-root processes of the closure |
| Processes.DescendAttributed | crates/platform/src/process.rs:206-212 | every descendant is reported after its parent |
| Processes.DescendantSnapshots | crates/platform/src/process.rs:198-217 | the terminating in-place loop computes that report, in that order |
| IndependentService.TransferredProcesses | crates/platform/src/independent_service.rs:69-120 | the loop excludes exactly the transferred PIDs; nothing when there is no readable directory |
| IndependentService.TransferredIsLeast | crates/platform/src/independent_service.rs:100-119 | transferred PIDs are the least set with the live registered group leaders, closed under owned children, and only owned PIDs |
| IndependentService.RegisteredExact | crates/platform/src/independent_service.rs:78-108 | a process is a registered leader if and only if it leads its group, is not the root, and one of the first 256 entries is a private regular file of at most 4096 bytes with its PID, start time and executable |
| IndependentService.NoLeaderNothingTransferred | crates/platform/src/independent_service.rs:78-108 | something is transferred if and only if some live owned process is a usable registration's exact instance, executable and group leader, other than the root |
| ObservedTree.ObservedProcessTree.WithOwnedProcesses | crates/platform/src/process.rs:308-328 | the new tree knows all given processes, plus the root unless that instance is among them, and watches the given group from the given start time or the root's |
| ObservedTree.ObservedProcessTree.FollowingRootExec | crates/platform/src/process.rs:284-293 | a tree whose root leads its own group watches that group and follows the root across exec |
| ObservedTree.ObservedProcessTree.ObserveSnapshots | crates/platform/src/process.rs:354-455 | the in-place observation yields the next state and outcome of the state machine, failures included |
| ObservedTree.ObservedProcessTree.ObserveSystem | crates/platform/src/process.rs:334-352 | observation followed by ownership transfer is one step of the machine |
| TreeOwnership.OpenedKnowsRoot | crates/platform/src/process.rs:308-328 | every constructed tree knows its root instance, all given processes and nothing else |
| TreeOwnership.KnownExact | crates/platform/src/process.rs:385-454 | after a successful frame the ledger is exactly: carried processes, descendants of carried PIDs, group members; the result is its live part |
| TreeOwnership.RootFixedOverRun | crates/platform/src/process.rs:359-378 | over every run only the root's executable may change, and not even that under the fixed policy |
| TreeOwnership.RootReuseAlwaysFails | crates/platform/src/process.rs:358-365 | after any run a frame is refused as root reuse, with no state change, if and only if the root PID shows another start time |
| TreeOwnership.RootErrorsExact | crates/platform/src/process.rs:356-378 | a changed executable of the root instance is refused if and only if the policy is fixed, and followed otherwise; no root error comes without cause, and one leaves the tree as it was |
| TreeOwnership.KnownAlwaysOwned | crates/platform/src/process.rs:385-454 | over every run everything in the ledger has a lineage of observed links from a live known parent or the root PID |
| TreeOwnership.ObservedIsOwned | crates/platform/src/process.rs:334-455 | everything any run reports is live in the current frame and has a lineage to a process handed to the constructor, the root PID or (macOS only) the group |
| TreeOwnership.KnownDistinctOverRun | crates/platform/src/process.rs:440-444 | a PID names at most one ledger entry in every reachable state |
| TreeOwnership.ReusedPidNeedsNewAttribution | crates/platform/src/process.rs:380-397 | a PID whose known instance is gone stays in the ledger if and only if this frame attributes its new holder |
| TreeSafety.TripwireExact | crates/platform/src/process.rs:416-438 | on Linux the group check fails exactly when some member is neither known nor reachable from a known PID |
| TreeSafety.ObservedExact | crates/platform/src/process.rs:354-455 | an observation succeeds if and only if the root PID is not reused, its executable is unchanged or followed, and on Linux every watched group member hangs below a carried PID |
| TreeSafety.FailedCheckExact | crates/platform/src/process.rs:416-438 | a failed group check leaves exactly the carried processes and names an untraceable member |
| TreeSafety.GroupIsTripwire | crates/platform/src/process.rs:404-454 | a successful grouped observation reports and keeps the same set as one without a group |
| TreeSafety.GroupNeverGrants | crates/platform/src/process.rs:404-454 | the same over whole runs, transfers included, as long as the grouped tree succeeds |
| OwnershipTransfer.TransferredLeave | crates/platform/src/process.rs:345-351 | neither result nor ledger keeps a registered leader or anything below it through owned processes |
| OwnershipTransfer.SubtreeLeaves | crates/platform/src/process.rs:345-351 | the whole subtree, in the process table, of a registered leader that discovery reaches is gone from result and ledger, on either platform |
| OwnershipTransfer.RediscoveredAndTransferred | crates/platform/src/process.rs:439-451 | lineage discovery finds a handed-over service again and the same step hands it over again |
| TreeSafety.SignalProcesses | crates/platform/src/process.rs:494-573 | signals go, in order, to exactly the targets still there before the first that is reused, unreadable or unsendable; the delivery completes if and only if there is none, with all that are still there signalled |
| TreeSafety.SignalExact | crates/platform/src/process.rs:575-581 | after a successful observation the signal is delivered in this way to everything reported; a failed observation signals nobody |
| OwnershipTransfer.SparedExact | crates/platform/src/process.rs:345-351 | for every tree on either platform, a live registered leader's whole subtree leaves result and ledger if and only if every ledger process and watched group member found below it hangs, through reached or watched processes, below a registered one among them |
| OwnershipTransfer.UnreachedLeaderIsNotSpared | crates/platform/src/process.rs:345-351 | a ledger process below a registered leader that discovery does not reach is still reported |
| OwnershipTransfer.WatchedMemberIsNotSpared | crates/platform/src/process.rs:345-351 | on macOS so is a watched group member the ledger never knew |
| OwnershipTransfer.TransferIsForGood | crates/platform/src/process.rs:334-352 | on either platform, once found and handed over, a service's subtree is in no later result and no later ledger, while it stays live and registered, nothing owned is re-parented into the subtree and, on macOS, no watched group member is there; polls in between may fail |
| OwnershipTransfer.SignalSparesTransferred | crates/platform/src/process.rs:575-581 | at any later point of such a run, on either platform, a signal reaches nothing in the subtree, only re-checked exact instances |
| TreeSafety.Escaped | crates/platform/src/process.rs:480-492 | escaped processes are exactly the reported ones outside the root's current subtree |
| MacosProcessObservation.ResolveTreeCandidates | crates/platform/src/macos_process_observation.rs:51-104 | the growing search selects exactly the closure of known PIDs, root and group members, and resolves the readable ones in table order |
| MacosProcessObservation.CandidatesLeast | crates/platform/src/macos_process_observation.rs:60-86 | the candidates are the least set with the known PIDs, the root and the watched group that is closed under children |
| MacosProcessObservation.ResolveExact | crates/platform/src/macos_process_observation.rs:87-104 | a snapshot is in the result if and only if it has the identity of a selected process and the path read for it |
| MacosProcessObservation.ResolveInOrder | crates/platform/src/macos_process_observation.rs:87-104 | the result keeps the order of the table |
| MacosProcessObservation.FullScanExact | crates/platform/src/macos_process_observation.rs:87-104 | the full scan yields exactly the readable processes, each with its own path |
| MacosProcessObservation.SelectionInvisible | crates/platform/src/macos_process_observation.rs:58-60 | any child-closed selection keeping known PIDs, root and group members leaves outcome and state untouched |
| MacosProcessObservation.PrefilterInvisible | crates/platform/src/macos_process_observation.rs:51-104 | for every table, every set of unreadable paths and every state the prefiltered observation equals the full one, order and errors included |
| MacosProcessObservation.RunsAgree | crates/platform/src/process.rs:334-352 | lock-step over every run of tables: same outcomes, same final state |
| MacosProcessObservation.ObserveMacos | crates/platform/src/process.rs:335-344 | the object running on prefiltered tables behaves as on full scans |
| DesktopRoots.TreeExact | crates/platform/src/process.rs:220-241 | the Desktop tree is the closure of the target processes whose parent does not run the target |
| DesktopRoots.SortExact | crates/platform/src/process.rs:239-239 | the tree comes in PID order and the sort loses nothing |
| DesktopRoots.ReportedExact | crates/platform/src/process.rs:244-255 | on every frame the roots are the target processes with a non-target parent and no such process above them, in PID order |
| DesktopRoots.DesktopRootsExact | crates/platform/src/process.rs:244-255 | roots are exactly the target processes without a proper ancestor running the target, if and only if every target process with a non-target parent that has target ancestors has one with a non-target parent |
| DesktopRoots.AcyclicRootsExact | crates/platform/src/process.rs:244-255 | they are on every frame without a parent cycle through a target process |
| DesktopRoots.TargetCycleBreaksRoots | crates/platform/src/process.rs:244-255 | two target processes shown as each other's parent hide themselves, and a target process below them is reported |
| DesktopLaunch.RememberProcesses | crates/platform/src/desktop_launch.rs:480-488 | the in-place edit replaces the first entry of each PID or appends |
| DesktopLaunch.RememberExact | crates/platform/src/desktop_launch.rs:480-488 | the ledger keeps one snapshot per PID, the latest remembered |
| DesktopLaunch.SelectedIffSoleManagedRoot | crates/platform/src/desktop_launch.rs:515-569 | a root is selected if and only if it is the only Desktop root and is managed; nothing is selected if and only if there is none |
| DesktopLaunch.LaunchDesktopSession | crates/platform/src/desktop_launch.rs:709-868 | the Linux preflight, with every error it can return, and the polling loop compute the launch function |
| DesktopLaunch.PreflightExact | crates/platform/src/desktop_launch.rs:709-776 | when the preflight lets a launch go on, and that a refusal cleans up exactly the launcher it has read, except when it could not read this process |
| LaunchOutcomes.LaunchExact | crates/platform/src/desktop_launch.rs:778-868 | over every sequence of turns: the loop waits exactly through turns that show no root with time left, the next turn decides by its table, and a session's ledger or the cleanup list is exactly the launcher and the last snapshot of everything seen below it |
| LaunchOutcomes.TurnDecides | crates/platform/src/desktop_launch.rs:781-867 | which error or session a turn ends with, and whose processes it covers |
| LaunchOutcomes.SelectionExact | crates/platform/src/desktop_launch.rs:515-569 | two own roots, a foreign root, no root or one own root decide the selection |
| DesktopLaunch.LaunchOwnsOnlyItsLineage | crates/platform/src/desktop_launch.rs:778-868 | every ledger, cleanup list and session holds only the launcher instance and processes seen below its PID while that instance was live; a session names the sole root of the frame of the turn that returns it, one of them |
| DesktopLaunch.SignalProcessesExact | crates/platform/src/process.rs:585-611 | one-shot cleanup signals nobody when the table cannot be read or any given PID was reused, and otherwise delivers to all given processes the table shows, and to no other |
| DesktopLaunch.CleanupFailedLaunch | crates/platform/src/desktop_launch.rs:491-512 | cleanup after a launch that failed in preflight or loop delivers in this way to the whole cleanup list, and signals nobody outside this launch |
| DesktopLaunch.SessionOwnsOnlyItsLaunch | crates/platform/src/desktop_launch.rs:835-845 | end to end: whatever a session's tree reports after any run leads back to a process of this launch or a child of the session root's PID |
| ProcessChain.MatchesPair | crates/platform/src/process_chain.rs:81-112 | true if and only if the exact root is present and below it, through start-ordered links, a non-root parent executable has a direct non-root child executable; terminates on cyclic tables |
| ProcessChain.PairBelowExact | crates/platform/src/process_chain.rs:81-112 | that is, if and only if the table holds such a chain link by link |
| WebBundleIsolation.CheckModule | apps/web-ui/scripts/web-product-bundle-isolation.ts:168-191 | the recursion visits only reachable modules, leaves every newly visited one passed with its followed children visited, or names a reachable module that does not pass |
| WebBundleIsolation.BuildCssOwners | apps/web-ui/scripts/web-product-bundle-isolation.ts:138-146 | the owner table lists exactly the modules of captured chunks that import each stylesheet |
| WebBundleIsolation.GroupReferences | apps/web-ui/scripts/web-product-bundle-isolation.ts:154-158 | references are grouped by the output their host resolves to, in order |
| WebBundleIsolation.CheckOutput | apps/web-ui/scripts/web-product-bundle-isolation.ts:193-225 | a reachable output passes with its modules checked and exactly its loaded names returned, or the failure is justified |
| WebBundleIsolation.QueueComplete | apps/web-ui/scripts/web-product-bundle-isolation.ts:192-228 | a drained queue has visited everything reachable |
| WebBundleIsolation.WebProductBundleIsolation.Verify | apps/web-ui/scripts/web-product-bundle-isolation.ts:124-229 | verification succeeds if and only if the page is isolated; a failure names a missing index, no modules, or something reachable that does not pass |
| WebPageGraph.VerifyPage | apps/web-ui/scripts/web-product-bundle-isolation.ts:124-229 | accepts if and only if the index was emitted from its HTML file, every output and every module the page reaches is in order, spelled out in the recorded data, and it reaches a module |
| WebPageGraph.OutputsExact | apps/web-ui/scripts/web-product-bundle-isolation.ts:192-226 | the page reaches the index, every name in the six lists of a reached page chunk, every asset reference a reached output hosts, and nothing else |
| WebPageGraph.LoadedNamesExact | apps/web-ui/scripts/web-product-bundle-isolation.ts:199-225 | the names an output contributes are exactly these |
| WebPageGraph.ModulesExact | apps/web-ui/scripts/web-product-bundle-isolation.ts:168-214 | it reaches the modules of reached page chunks, those owning a reached stylesheet, their imported and dynamically imported children that are included or external, and nothing else |
| WebPageGraph.IsolatedExact | apps/web-ui/scripts/web-product-bundle-isolation.ts:161-229 | isolation, output by output and module by module, in terms of the recorded data |
| WebPageGraph.AliasExact | apps/web-ui/scripts/web-product-bundle-isolation.ts:136-151 | a name stands for the last asset that carries it, else the last chunk once known by it |
| WebPageGraph.OutputNameExact | apps/web-ui/scripts/web-product-bundle-isolation.ts:152-153 | a name leads to the output of that name, else its alias, else that of its last path component, else itself |
| WebBundleIsolation.WebProductBundleIsolation.CaptureChunks | apps/web-ui/scripts/web-product-bundle-isolation.ts:85-105 | captured chunks replace earlier ones of the same file in place |
| WebPageGraph.CapturedExact | apps/web-ui/scripts/web-product-bundle-isolation.ts:85-105 | for each file the last chunk of the bundle, else what was captured before, in the earlier places |
| WebBundleIsolation.WebProductBundleIsolation.WorkerBundle | apps/web-ui/scripts/web-product-bundle-isolation.ts:108-121 | every file and entry of a worker bundle gains all its inputs and keeps earlier ones |
| WebPageGraph.WorkerInputsExact | apps/web-ui/scripts/web-product-bundle-isolation.ts:108-121 | which keys gain, and which inputs each of them has afterwards |
| WebBundleIsolation.WebProductBundleIsolation.Reset | apps/web-ui/scripts/web-product-bundle-isolation.ts:60-65 | a reset drops output graphs and the package memo, which then fits any file system, and keeps transform observations |
| BundleInputIsolation.OwnerIsNearest | apps/web-ui/scripts/bundle-input-isolation.ts:69-87 | the nearest manifest that is malformed or named decides the owner |
| BundleInputIsolation.PackageNames.PackageName | apps/web-ui/scripts/bundle-input-isolation.ts:69-87 | a memoised answer equals a fresh lookup after any earlier lookups; an answer is remembered for every directory it went through, a lookup that throws remembers nothing |
| BundleInputIsolation.PackageNames.Reset | apps/web-ui/scripts/bundle-input-isolation.ts:19-21 | after a reset the memo fits any file system |
| WindowsCommandLine.QuoteWindowsArgument | crates/platform/src/windows_command_line.rs:3-28 | the character loop computes the quoting |
| WindowsCommandLine.QuotedOnlyIfNeeded | crates/platform/src/windows_command_line.rs:3-7 | an argument is quoted if and only if it is empty or has a blank, tab or quote |
| WindowsCommandLine.CommandLineInOrder | crates/platform/src/windows_command_line.rs:30-36 | the line is the quoted arguments in order with one blank between them |
| WindowsCommandLine.ReadEscaped | crates/platform/src/windows_command_line.rs:10-26 | reading escaped text inside quotes restores it, for every pending run of backslashes |
| WindowsCommandLine.ArgumentsRoundTrip | crates/platform/src/windows_command_line.rs:30-36 | splitting the command line gives back every list of arguments, whichever way doubled quotes are read |
| WindowsCommandLine.ProgramRoundTrip | crates/platform/src/windows_command_line.rs:30-36 | a leading program name survives if and only if it has no quote and, when it needs quoting, no trailing backslash |
| Autostart.ParseEscaped | crates/platform/src/autostart.rs:162-163 | JSON string escaping (section 7 of RFC 8259) is undone by the parser, which stops at the closing quote |
| Autostart.DoubleEscape | crates/platform/src/autostart.rs:162-165 | doubling a percent or dollar sign commutes with JSON escaping |
| Autostart.CommandInOrder | crates/platform/src/autostart.rs:159-168 | the command is the arguments in order with one blank between them, each the JSON string of its text with percent and dollar signs doubled |
| Autostart.ReplaceUndoesDouble | crates/platform/src/autostart.rs:182-182 | left-to-right replacement of pairs undoes the doubling |
| Autostart.ArgumentsCannotForgeLines | crates/platform/src/autostart.rs:158-172 | the unit has exactly these ten lines and one ExecStart, for all arguments |
| Autostart.SystemdRoundTrip | crates/platform/src/autostart.rs:158-186 | reading the unit back yields the arguments, for every list of strings |
| ArtifactDigest.ClientArtifactDigest | apps/web-ui/scripts/client-build-environment.ts:356-373 | the loop feeds the framed stream to the hash; no files is an error |
| ArtifactDigest.StreamInOrder | apps/web-ui/scripts/client-build-environment.ts:365-371 | the stream is, file by file, path length, colon, path, content length, colon, content |
| ArtifactDigest.DecimalExact | apps/web-ui/scripts/client-build-environment.ts:367-369 | lengths are decimal without leading zeros |
| ArtifactDigest.StreamRoundTrip | apps/web-ui/scripts/client-build-environment.ts:365-371 | the stream of frames without separators can be read back |
| ArtifactDigest.DigestIdentifiesArtifacts | apps/web-ui/scripts/client-build-environment.ts:343-351 | equal digests mean equal paths and contents unless the hash collides |
| ShimLifecycle.WaitForChild | crates/shim/src/lib.rs:159-236 | the Unix loop computes the run function, failures included |
| ShimLifecycle.EveryRunIsSound | crates/shim/src/lib.rs:174-235 | each request at most once, the two stop requests never both, force only after a graceful request and a full grace period after each one before it; a run that returns does so in a turn with or after the root's reported exit whose own fresh observation was empty |
| ShimLifecycle.OutcomeMatchesTrace | crates/shim/src/lib.rs:203-213 | the returned flags and signal say exactly what was done |
| ShimLifecycle.ExitedRootIsAsked | crates/shim/src/lib.rs:214-233 | in every run that goes on, an exited root's tree has been asked to stop and a passed deadline means it was forced |
| ShimLifecycle.TurnMakesProgress | crates/shim/src/lib.rs:214-233 | no turn leaves an exited root unasked, a passed deadline unforced, or a signal unread unless this turn stopped the child for its input |
| ShimLifecycle.TurnExact | crates/shim/src/lib.rs:174-234 | what a turn that goes on adds to the events: when it looks at the tree, which one request it makes, when it forces |
| ShimLifecycle.TreeLookedAt | crates/shim/src/lib.rs:183-202 | over every run that goes on the tree has been looked at within the last interval |
| ShimLifecycle.EndedInputStops | crates/shim/src/lib.rs:214-220 | over every run that goes on, ended input of a live root has been answered with a stop |
| ShimInvocation.SubcommandAfterGlobalOptions | crates/shim/src/lib.rs:285-337 | the subcommand is at a position if and only if everything before it is supported global options with their values |
| ShimInvocation.GlobalOptionsExact | crates/shim/src/lib.rs:291-335 | the global options, written out |
| ShimInvocation.AppServerSubcommandIndex | crates/shim/src/lib.rs:290-337 | the scanner finds the subcommand after supported global options only |
| ShimInvocation.ShouldStartHostRuntime | crates/shim/src/lib.rs:403-455 | starts the host if and only if originator and purpose allow it and the grammar reads the options |
| ShimInvocation.IsDefaultRemoteUnixListener | crates/shim/src/lib.rs:459-521 | accepts if and only if the grammar reads the options, none is --stdio, and the one listen option is unix:// |
| ShimInvocation.TablesCompatible | crates/shim/src/lib.rs:407-421 | the two option tables differ exactly by the listen and stdio spellings |
| ShimInvocation.OptionsExact | crates/shim/src/lib.rs:460-519 | the scanners read exactly the options the arguments spell in the written-out grammar |
| ShimInvocation.ListensInOrder | crates/shim/src/lib.rs:477-493 | every listen option counts, in either spelling |
| ShimInvocation.DefaultListenerStartsHost | crates/shim/src/lib.rs:403-521 | an accepted default listener is started by the host unless it is a memory summariser |
| UpdateHandoff.WaitForUpdaterReady | crates/launcher/src/active_update.rs:216-246 | the poll stops at the first round that decides, with that decision, bad status files and a failing child check included |
| UpdateHandoff.ReadyExact | crates/launcher/src/active_update.rs:219-243 | which statuses let the start succeed, which let it wait, and that all else refuses |
| UpdateHandoff.WaitForOwnership | crates/updater/src/handoff.rs:44-71 | the Updater goes on if and only if a round shows the lock naming it and its operation before any round refuses |
| UpdateHandoff.OwnershipExact | crates/updater/src/handoff.rs:55-69 | one round goes on, waits or gives up by the lock and the clock alone |
| UpdateHandoff.LockWrites | crates/launcher/src/active_update.rs:248-278 | the lock is written only by a transfer to the own child, a new operation where there was none, and a removal |
| UpdateHandoff.StatusWrites | crates/updater/src/main.rs:60-103 | every status write goes to the writer's own operation and says what the writer came to |
| UpdateHandoff.GuardsExact | crates/updater/src/main.rs:39-57 | an Updater acknowledges only while the Launcher its request names is alive, and works only as an owner; new processes get PIDs nobody live has |
| UpdateHandoff.CommitsExactly | crates/launcher/src/active_update.rs:166-175 | a Launcher commits to a request if and only if it is prepared, waits for this Launcher and is not its last started one |
| UpdateHandoff.StartEnds | crates/launcher/src/active_update.rs:344-369 | a start with a child ends with the child gone, or with the status that let it succeed, remembered |
| UpdateHandoff.RunSound | crates/launcher/src/active_update.rs:309-369 | who starts what, and which phases never come back, survives every interleaving of Launcher, Updater and environment steps, recycled PIDs and foreign lock removals included |
| UpdateHandoff.RunExclusive | crates/launcher/src/active_update.rs:248-278 | the ownership invariant survives every careful interleaving |
| UpdateHandoff.OneOwner | crates/updater/src/handoff.rs:55-63 | in every careful run at most one live Updater is past the wait, and the lock names it and its operation |
| UpdateHandoff.NeverSpawnedAgain | crates/launcher/src/active_update.rs:313-326 | in every run a successfully started request is never spawned again by any Launcher |
| UpdateHandoff.FailedStartsLeaveNoChild | crates/launcher/src/active_update.rs:344-356 | in every run a live Updater is the child of the start its Launcher is making, or the very child with which its request succeeded, or lost its Launcher |
| UpdateHandoff.ReleaseSafeIffFree | crates/launcher/src/active_update.rs:248-278 | removing the lock keeps every owner named whatever careful steps follow, if and only if no Updater owns it and no Launcher can still transfer it |
| UpdateHandoff.LauncherStartSafeIff | crates/launcher/src/active_update.rs:137-141 | a Launcher may start under a PID if and only if the lock does not name a live Updater that has yet to acknowledge to that PID |
| UpdateHandoff.EarlyReleaseMakesTwoOwners | packages/update-manager/src/operation-state.ts:236-244 | a run from the empty system with one removal of a dead owner's lock ends with two owners |
| UpdateHandoff.RecycledLauncherMakesTwoOwners | crates/launcher/src/active_update.rs:137-141 | a run from the empty system with one recycled Launcher PID, and no removal at all, ends with two owners |
| ProxyEnvironment.AppendProxyPair | crates/platform/src/proxy_environment.rs:145-171 | appends nothing without a value, else both spellings in order, each with its own inherited value, else the other spelling's, else the system's |
| ProxyEnvironment.Deduplicate | crates/platform/src/proxy_environment.rs:126-127 | the retain loop keeps the first value of each ASCII case class |
| ProxyEnvironment.UniqueFacts | crates/platform/src/proxy_environment.rs:126-127 | deduplication keeps one value per key, invents none and loses no key |
| ProxyEnvironment.ComputeProxyEnvironment | crates/platform/src/proxy_environment.rs:72-143 | the pushes compose the proxy environment |
| ProxyEnvironment.OutputExact | crates/platform/src/proxy_environment.rs:100-143 | the exception list is there if and only if a proxy is active or a spelling was inherited, the switch keeps its inherited value or is 1 if and only if a proxy is active, and nothing else is passed on |
| ProxyEnvironment.OutputInOrder | crates/platform/src/proxy_environment.rs:77-143 | the variables come in one order, each at most once |
| ProxyEnvironment.GatheredExact | crates/platform/src/proxy_environment.rs:106-124 | what is gathered for the list, and in which order |
| ProxyEnvironment.KeptInOrder | crates/platform/src/proxy_environment.rs:124-127 | one more gathered value is kept if and only if its trimmed text is not empty and new up to case |
| ProxyEnvironment.TrimExact | crates/platform/src/proxy_environment.rs:124-124 | trimming takes white space off both ends and nothing else |
| ProxyEnvironment.SameKeyExact | crates/platform/src/proxy_environment.rs:126-127 | values count as the same if and only if they differ only in the case of ASCII letters |
| ProxyEnvironment.ProxyEnvironmentIdempotent | crates/platform/src/proxy_environment.rs:72-143 | recomputing from the own output under the same settings changes nothing |
| ProxyEnvironment.ExplicitValuesWin | crates/platform/src/proxy_environment.rs:24-30 | inherited values win, empty ones included, each spelling keeps its own, and only a kind inherited in neither spelling comes from the system |
| ProxyEnvironment.LocalHostsExempt | crates/platform/src/proxy_environment.rs:117-127 | the exception list always covers the three local hosts up to case |
| ProxyConvergence.ChainSettles | crates/platform/src/proxy_environment.rs:72-143 | for every environment and every settings, commas included, the second recomputation is a fixed point |
| ProxyConvergence.FirstOutputStableIff | crates/platform/src/proxy_environment.rs:72-143 | for every environment and every settings, the first output is already a fixed point if and only if it lists no exceptions or its pieces are distinct and tidy and end with those of the own values it lacks |
| ProxyConvergence.HarmlessCommasStable | crates/platform/src/proxy_environment.rs:72-143 | it is when the gathered values with commas come last and all their pieces were gathered before |
| ProxyEnvironment.CommaBreaksIdempotence | crates/platform/src/proxy_environment.rs:117-132 | a comma in a system exception can break idempotence |
| StartupRecords.Merge | crates/launcher/src/startup_record.rs:224-229 | retain, insert and truncate put the record first and keep ten |
| StartupRecords.HistoryIsNewestOfAll | crates/launcher/src/startup_record.rs:224-250 | the stored history is the first ten entries of the unbounded latest-per-id list, after any writes |
| StartupRecords.HistoryExact | crates/launcher/src/startup_record.rs:224-250 | entry by entry: ten entries or all, and the last record of a startup stands right after those of the startups written later |

## Left out

- Operating system calls: frames, exit status, signals, files and clocks are inputs of the model; saturation in reading start times happens before them.
- Windows and macOS launch paths, AppX activation, Job Objects and killpg: foreign interfaces with little provable logic.
- `cleanup_escaped`, `wait_for_exit` and `shutdown` in crates/platform/src/desktop_launch.rs: loops over operations that are modelled.
- ShimInvocation.ShouldStartHostRuntime: takes the memory-summariser test as a boolean; that scanner is one pass over config overrides.
- UpdateHandoff.OneOwner: an Updater that has written its final status and only exits no longer counts as past the wait, because recovery may then remove the lock.
- UpdateHandoff.Apply: creating the lock and writing its status path are one step; the start of an update is a sequence of atomic steps on a value; the temporary file behind the lock's atomic replacement is not modelled.
- ProcessChain.MatchesPair: the Windows spelling of executable paths and the Windows subtree scan before the search.
- UpdateHandoff.RunSound: status and request are read in one step after the lock, and the checks of file size, schema, path and executable identity count as part of that read; only service-managed updates are modelled, as only they use the ownership wait.
- WebBundleIsolation.WebProductBundleIsolation.Verify: `assertInput`, path functions and the two name patterns are parameters; which message is thrown first within one failing item is not modelled.
- `checkInput` and `physicalBundleInput` in apps/web-ui/scripts/bundle-input-isolation.ts: path syntax and symbolic links.
- BundleInputIsolation.PackageNames.PackageName: one lookup sees one state of the file system.
- ProxyEnvironment.ProxyEnvironmentIdempotent: variables with text values; values that are not valid Unicode are replaced by the code before it works on them.
- ProxyEnvironment.ComputeProxyEnvironment: the split, trim and filter pipeline is a function, as in the code.
- Autostart.SystemdRoundTrip: the program's own reader; how systemd parses the unit is not part of this model.
- WindowsCommandLine.ArgumentsRoundTrip: arguments that are valid text; the 260-character limit of the Run key is left to its caller.
- ArtifactDigest.ClientArtifactDigest: the file search and its sort; the list arrives in order.
- StartupRecords.HistoryIsNewestOfAll: a history file that became unreadable starts over; the theorem is about the writes since then.
- `clientBuildEnvironment`, `clientBuildProcessEnvironment` and `hasExactKeys`: small filters.
- `launch_agent`, Console, Web opening, screenshots and installer code: plumbing.
