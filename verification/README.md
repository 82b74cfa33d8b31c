# A verified model of rust-ios-device

This project models the stateful and algorithmic core of rust-ios-device, Rust libraries
and a command-line tool for iOS devices, and proves what its design promises.  Each module follows one component:

- **Release gates** (`NeedsGraph`, `ReleaseGates`, `ReleaseCheck`): the workflow checker
  with its transitive closure, its three-colour cycle search, its job simulation and the
  whole check, compared with a step-by-step job scheduler over all its runs.
- **Asyncio proxy** (`ProxyStack`, `ProxyRuns`, `ProxyEffects`): the patch stack shared by
  any number of patch objects and the reference count of tunnels, as classes and as a
  transition system.
- **Secret files** (`SecretNames`, `SecretWriters`, `SecretOutcomes`, `Disks`,
  `SecretReplace`): interleaved Unix writers with any operation failing, and the Windows
  replacement with roll-back.
- **Atomic outputs** (`AtomicWriters`, `Captures`, `FileNames`): the local writer with its
  sixteen names, and screen captures staged beside their target.
- **Windows paths** (`WindowsPaths`): the buffer growth around `GetFullPathNameW`,
  validation and verbatim prefixes.
- **Pairing** (`XpcValues`, `Envelopes`, `EnvelopeRoundTrips`, `EnvelopeFields`,
  `PairingReplies`, `Pairing`, `PairingRun`, `PairingTraces`, `PairingEvidence`,
  `PairingWire`): envelopes, destructive decoders, and the protocol as traces of envelopes
  and replies against an arbitrary device.
- **XPC encoding** (`XpcWire`, `XpcDecode`, `XpcStream`, `XpcBytes`, `XpcBuffer`,
  `XpcFrames`, `XpcSent`, `XpcOverrun`, `XpcTwoStreams`): the binary form, its exact round
  trip, and reassembly of messages from the frames of two streams cut anywhere.
- **App bundles, trees and names** (`BundleTree`, `BundleStaging`, `BundleUpload`,
  `TreeRender`, `TreeDrawing`, `CrashNames`, `Decimals`): the staging worklist
  against the recursive copy, the tree printer with its decoder, and the naming loop.
- **Events, backup and focus** (`DeviceEvents`, `BackupLock`, `FocusTraversal`).

Failures are everywhere arbitrary: a disk, a connection or a device is an unknown function
from the number of an operation to its answer, and the statements hold for all of them.

`dafny verify dfyconfig.toml` checks the whole project.

## What turned out not to hold

- The list that the cycle search reports repeats its closing job twice, so it is a walk
  only for a job that needs itself (`ReportIsAWalkOnlyForSelfLoops`, `TwoJobs`); in every
  order of the jobs all reports are walks only if every job on a cycle needs itself
  (`Cycles`).
- A tunnel can lose its device and have a patch installed on it afterwards; the exact
  condition is `DeviceGoneAfterClose`, a run `ClosedThenInstalled`.
- A detach can carry the UDID of another device when an id is reused between subscription
  and list (`ReusedIdMisreports`); `TrueOrEmpty` says exactly when not.
- A full path of 32767 units, though within the stated limit, is refused, and the error
  for too many retries cannot occur (`StablePathTakesTwoCalls`, `AskingIsBounded`).
- The backup lock stays held when did-start cannot be posted after locking, or when
  unlocking fails (`RunUnderLock`).
- A capture can report failure after its file is in place, when stopping the stream fails
  (`CaptureToFile`).
- A secret whose path is a temporary of another secret can be seen half-written; a set of
  targets without such a pair cannot (`WholeExactlyWhenSeparate`).
- A printed tree can be read back exactly when its labels are single lines
  (`DecodeUndoesRender`); with line ends two different trees can print alike
  (`NewlineLabelsCollide`).
- An app bundle is copied completely exactly when no path is to hold two things; two names
  of one directory that become equal in conversion lose a file without an error
  (`StageAppBundle`, `TwoFilesOneName`).
- XPC values come back from their bytes only when clean: strings and keys with a zero byte
  do not, and a pairing event with a NUL in its kind or host does not arrive.
- A sound message of the full transfer size is refused by the reassembly buffer when the
  frame with its end also carries bytes of the next (`FullMessageOverruns`);
  `OverrunExactlyWhenSpilling` says by lengths when this happens.
- The frames of both control streams go into one buffer. The reader gets what was sent when
  the streams take turns between messages (`TidyStreamsDeliver`); bytes of one that arrive
  inside a message of the other can give a message that nobody sent, without an error
  (`OtherStreamIsSplicedIn`, `NobodySentIt`). Not all such arrivals do harm to the message
  they fall into, since the decoder passes over padding, so there is no full converse.
- A comment in `secret_file.rs` says that a rename cannot replace a file on Windows while
  `fs_replace.rs` relies on a move that can; the model allows the first rename to succeed
  or fail either way.

## Model

| member | source | states |
|---|---|---|
| NeedsGraph.Closure | scripts/check-release-gates.py:68-77 | the worklist ends and returns exactly the jobs reached by one or more needs edges |
| NeedsGraph.AncestorsWithin | scripts/check-release-gates.py:68-77 | a set that holds the direct needs and is closed under needs holds every ancestor: the set of ancestors is the least such set |
| NeedsGraph.CycleFinder.constructor | scripts/check-release-gates.py:82-84 | the search starts with no job grey or black and nothing found |
| NeedsGraph.CycleFinder.Visit | scripts/check-release-gates.py:86-97 | the recursion ends; it leaves the grey set as it was and only adds black jobs; the job is black then, or the edge by which the path came to it closes a report; jobs black or grey before close no further report; a job on a cycle that is visited with nothing grey has been closed |
| NeedsGraph.CycleFinder.VisitNeeds | scripts/check-release-gates.py:94-95 | afterwards every direct need is black or its edge closes a report, and no edge of another job visited before has been added |
| NeedsGraph.CycleFinder.VisitNeed | scripts/check-release-gates.py:95-95 | one need is black then or its edge closes a report, and that edge is new if needs are not named twice |
| NeedsGraph.CycleFinder.Explore | scripts/check-release-gates.py:93-97 | a white job ends black with all its needs examined |
| NeedsGraph.CycleFinder.VisitAll | scripts/check-release-gates.py:99-100 | every listed job ends black, and the first one, if on a cycle, closes a report |
| NeedsGraph.CycleFinder.Report | scripts/check-release-gates.py:87-90 | meeting a grey job again adds a true cycle, closed by the last edge of the path |
| NeedsGraph.CycleFinder.Start | scripts/check-release-gates.py:93-93 | a job turns grey, and fewer jobs are left white |
| NeedsGraph.CycleFinder.Finish | scripts/check-release-gates.py:96-97 | a job whose needs are all black or closed turns black, after all of them in the finishing order |
| NeedsGraph.EveryCycleIsCut | scripts/check-release-gates.py:80-101 | an order of all jobs in which every job comes after its needs, but for the closing edges, makes every cycle use one of those edges |
| NeedsGraph.PathClosesCycle | scripts/check-release-gates.py:87-89 | the end of the current path, from where the grey job stands on it, is a simple closed walk |
| NeedsGraph.Cycles | scripts/check-release-gates.py:80-101 | every cycle of the graph uses an edge that closes a report, so that every job on a cycle lies on a cycle with the first job of a report, and nothing is reported if and only if there is no cycle, self-loops and names without a job included; no edge closes two reports when no list names a need twice; every reported list without its repeated last element is a simple closed walk; the first job is reported if it is on a cycle; all reported lists are walks when every job on a cycle needs itself, and not all are when the first job is on a cycle and does not |
| NeedsGraph.AllRepresented | scripts/check-release-gates.py:80-101 | reports that are cycles and cut every cycle represent every job that is on a cycle |
| NeedsGraph.ReportIsAWalkOnlyForSelfLoops | scripts/check-release-gates.py:87-89 | the list as reported, last element included, is itself a walk if and only if the first job needs itself |
| NeedsGraph.RootIsClosed | scripts/check-release-gates.py:86-97 | a job on a cycle that is visited first has its cycle reported before it turns black |
| NeedsGraph.TwoJobs | scripts/check-release-gates.py:80-101 | for two jobs that need each other the search reports something, and nothing it reports is a walk |
| ReleaseGates.Executable | scripts/check-release-gates.py:104-118 | a job would run if and only if every ancestor is successful, has no status bypass and no continue-on-error; otherwise the verdict names the objecting ancestor least in name order, and the first of the three tests that it fails |
| ReleaseGates.DirectNeedsDecide | scripts/check-release-gates.py:104-118 | when a job succeeds only if its direct needs did, all direct needs succeeded if and only if all ancestors did |
| ReleaseGates.RunKeepsOrder | scripts/check-release-gates.py:106-109 | in every run of a step-by-step scheduler each started job without a bypass has its direct needs successful |
| ReleaseGates.RunBoardConsistent | scripts/check-release-gates.py:106-109 | the job states after any scheduler run are consistent above a job with no bypass above it |
| ReleaseGates.SchedulerAgreesWithSimulation | scripts/check-release-gates.py:104-118 | in every run the scheduler may start a pending job if and only if the simulation of the current states says it would run |
| ReleaseGates.StartedMeansAncestorsSucceeded | scripts/check-release-gates.py:104-118 | in every run whatever started with no bypass above it has every ancestor successful |
| ReleaseCheck.PublishFailures | scripts/check-release-gates.py:156-160 | each publishing job that misses core gates is reported with exactly the gates it does not reach, and nothing else is reported |
| ReleaseCheck.PypiFailures | scripts/check-release-gates.py:164-166 | reported are exactly the gates that the PyPI job does not reach |
| ReleaseCheck.GateFailures | scripts/check-release-gates.py:155-166 | reported is exactly what is not reached, the smoke gate by the wheel job included; nothing if and only if all required gates are reached |
| ReleaseCheck.RelevantJobs | scripts/check-release-gates.py:171-173 | exactly the publishing jobs and their ancestors |
| ReleaseCheck.BypassFailures | scripts/check-release-gates.py:174-225 | reported are exactly the relevant jobs with bad conditions and those with a bypass; the two bypass sets hold exactly the relevant jobs with a bypass condition and with continue-on-error |
| ReleaseCheck.NegativeOne | scripts/check-release-gates.py:232-242 | breaking a gate reports only that nothing depends on it, never that a publishing job would still run |
| ReleaseCheck.NegativeFailures | scripts/check-release-gates.py:231-242 | reported are exactly the gates that guard no publishing job; "would still run" is never reported |
| ReleaseCheck.CheckWorkflow | scripts/check-release-gates.py:121-257 | the check passes if and only if the workflow is release-safe: required jobs present, needs known and acyclic, gates reached, no bypass, every gate guarding something; otherwise the first stage that objects reports exactly what is wrong |
| ReleaseCheck.PassedMeansGated | scripts/check-release-gates.py:250-254 | once the check passes, no scheduler run, whatever fails in it, starts a publishing job before each of its gates has succeeded |
| ProxyStack.AsyncioModule.Install | crates/ios-py/src/lib.rs:37-85 | pushes a fresh token, patches open_connection only the first time and saves the original then |
| ProxyStack.AsyncioModule.Restore | crates/ios-py/src/lib.rs:88-105 | removes one token from anywhere in the stack; the last one to go puts the original back and removes the bookkeeping |
| ProxyStack.AsyncioModule.Call | crates/ios-py/src/lib.rs:42-77 | a call is routed by the newest entry for its host, passed on without host and port or with a socket, and fails when the bookkeeping is gone |
| ProxyStack.TunnelState.Retain | crates/ios-py/src/lib.rs:253-261 | one more patch retains the tunnel |
| ProxyStack.TunnelState.Release | crates/ios-py/src/lib.rs:263-275 | one patch fewer, not below zero; the last one after a close request drops the device |
| ProxyStack.TunnelState.Close | crates/ios-py/src/lib.rs:297-304 | records the request and drops the device if nothing retains it |
| ProxyStack.ProxyPatch.Install | crates/ios-py/src/lib.rs:377-394 | the object gains a token and retains its tunnel with its first one |
| ProxyStack.ProxyPatch.Restore | crates/ios-py/src/lib.rs:397-416 | the newest token is given back and the tunnel released with the last one; nothing happens without tokens |
| ProxyStack.ProxyPatch.Drop | crates/ios-py/src/lib.rs:419-442 | all tokens are given back, newest first, and the tunnel released once |
| ProxyStack.DropRestoresAll | crates/ios-py/src/lib.rs:419-442 | dropping gives all tokens back, newest first, and releases the tunnel exactly once if it was retained |
| ProxyRuns.RunKeeps | crates/ios-py/src/lib.rs:252-442 | after every run of open, patch, install, restore, drop and close: each tunnel retains as many patches as hold tokens, so the saturating subtraction never saturates; tokens have one owner and stand once in the stack in order of issue |
| ProxyRuns.StepKeeps | crates/ios-py/src/lib.rs:252-442 | every single operation keeps that invariant |
| ProxyRuns.HoldersUpdate | crates/ios-py/src/lib.rs:252-275 | changing one patch object changes the number of token holders of its tunnel by exactly the difference |
| ProxyRuns.OriginalWhenNothingLive | crates/ios-py/src/lib.rs:37-105 | after every run open_connection is the original if and only if no token is live, the module is then as before, and otherwise the saved function is the true original |
| ProxyRuns.RoutedToNewest | crates/ios-py/src/lib.rs:42-77 | after every run a call for a host goes to the tunnel of the newest live token for that host, and to the original if and only if there is none |
| ProxyRuns.StalePatchedFunction | crates/ios-py/src/lib.rs:42-77 | a patched function kept by user code fails if and only if no token is live |
| ProxyRuns.DropIsObjectDrop | crates/ios-py/src/lib.rs:419-442 | the drop of an object, on module, tunnel and tokens together, is the step of the whole world that the run statements are about |
| ProxyRuns.StepAndDevice | crates/ios-py/src/lib.rs:263-304 | a step takes the device away if and only if it leaves the tunnel closed and unused, so never while a patch is installed; no step brings it back |
| ProxyRuns.DeviceGoneWhenOnceUnneeded | crates/ios-py/src/lib.rs:263-304 | over a whole run the device is gone if and only if at some moment close had been asked for and no patch was installed |
| ProxyRuns.InstallAfterCloseHasNoDevice | crates/ios-py/src/lib.rs:325-339 | a patch made earlier and installed after that moment holds a token on a tunnel without device |
| ProxyRuns.ClosedThenInstalled | crates/ios-py/src/lib.rs:325-394 | the run open, patch, close, install ends with a token held on a tunnel without device |
| ProxyEffects.InstallTakesEffect | crates/ios-py/src/lib.rs:377-394 | after any run an install, on an open or a closed tunnel, adds one token new to the run to the object, leaves open_connection patched and the tunnel held, sends calls for the address of that tunnel to its proxy, and changes the way of no other call |
| ProxyEffects.RestoreTakesEffect | crates/ios-py/src/lib.rs:397-416 | after any run a restore takes exactly the newest token of the object, or does nothing without one; no other object changes |
| ProxyEffects.DropTakesEffect | crates/ios-py/src/lib.rs:419-442 | after any run a drop takes exactly the tokens of the object |
| ProxyEffects.RestoreUndoesInstall | crates/ios-py/src/lib.rs:377-416 | an install and a restore right after it leave module, tunnels and objects as they were; only the token is used up |
| ProxyEffects.OtherCallsDialDirectly | crates/ios-py/src/lib.rs:44-77 | after any run a call with a socket, or without host or port, goes to the original |
| ProxyEffects.TunnelsMirrorRun | crates/ios-py/src/lib.rs:297-339 | after any run the tunnels are those opened with their addresses, the patch objects those made, and a tunnel is marked closed if and only if close was called for it |
| ProxyEffects.DeviceGoneAfterClose | crates/ios-py/src/lib.rs:263-304 | over a whole run the device is gone if and only if at some moment close had been called for the tunnel, then or before, and none of its objects held a token |
| SecretNames.TempNameInjective | crates/ios-core/src/secret_file.rs:133-140 | the temporary name determines both the file name and the drawn number |
| SecretNames.TempNameWrittenOut | crates/ios-core/src/secret_file.rs:133-140 | the form of the name: file, process, number, suffix |
| SecretNames.DrawsGiveDistinctPaths | crates/ios-core/src/secret_file.rs:133-140 | different draws give different temporary paths, whatever the targets, until the counter wraps |
| SecretNames.TempIsNotTarget | crates/ios-core/src/secret_file.rs:133-140 | a temporary is never the path it is for |
| SecretNames.ConsecutiveDrawsDiffer | crates/ios-core/src/secret_file.rs:133-140 | the temporary and the backup of one call differ even across the wrap of the counter |
| SecretWriters.AdvanceHasEffect | crates/ios-core/src/secret_file.rs:49-78 | one operation of a call touches only its own temporary and, at the rename, its own target, which then holds all the contents |
| SecretWriters.RunKeeps | crates/ios-core/src/secret_file.rs:49-78 | every interleaving of any number of calls, with any operation failing, keeps the invariant on files, calls and temporaries |
| SecretWriters.TargetsAreAllOrNothing | crates/ios-core/src/secret_file.rs:49-78 | when no target is a temporary of another, at every moment of every interleaving a path that is no temporary holds its initial state or the complete contents of the last call for it that took effect, and those are the calls reporting success |
| SecretWriters.NoStrayTemporaries | crates/ios-core/src/secret_file.rs:65-73 | when all calls have returned, the only new temporaries left are those whose removal failed |
| SecretWriters.TempTargetSeesHalfWrite | crates/ios-core/src/secret_file.rs:133-140 | for each of the 2^64 numbers, a target that is the temporary of another target with that number is half-written in some run while a call for it waits |
| SecretWriters.WholeExactlyWhenSeparate | crates/ios-core/src/secret_file.rs:49-78 | a set of targets is seen whole at every moment of every run on it if and only if none of them is a temporary of another |
| SecretOutcomes.CallsAreArrivals | crates/ios-core/src/secret_file.rs:49-78 | the calls under way are those that arrived, each with its own target and contents |
| SecretOutcomes.DoomedExactlyWhenHindered | crates/ios-core/src/secret_file.rs:49-78 | at every moment a call has failed or must fail if and only if one of its own operations failed, removing a temporary that is not there excepted |
| SecretOutcomes.SucceedsUnlessHindered | crates/ios-core/src/secret_file.rs:49-78 | a call that has returned succeeded if and only if it was not hindered so: other calls never make it fail |
| SecretOutcomes.Returns | crates/ios-core/src/secret_file.rs:49-78 | a call returns after at most six operations and one for each byte, whatever else happens |
| SecretOutcomes.UntroubledWriteIsShown | crates/ios-core/src/secret_file.rs:49-78 | a call whose operations all succeed returns success, its rename took effect, and its target holds exactly its contents until a later call for it takes effect |
| SecretReplace.SecretStore.DrawTemp | crates/ios-core/src/secret_file.rs:133-140 | each call of temp_path uses the next number |
| SecretReplace.SecretStore.WriteNew | crates/ios-core/src/secret_file.rs:59-63 | the temporary gets exactly the contents, or the write fails; an existing entry is never overwritten |
| SecretReplace.SecretStore.FillTemp | crates/ios-core/src/secret_file.rs:54-68 | filling the temporary changes no other path at any moment; after an error it is as before or gone, unless removing it failed |
| SecretReplace.SecretStore.Exchange | crates/ios-core/src/secret_file.rs:106-117 | the old record is at the path or at the backup at every moment until the new one is in place; a failure puts it back unless moving it back fails too |
| SecretReplace.SecretStore.Replace | crates/ios-core/src/secret_file.rs:80-118 | the Windows replacement installs the new record or leaves the old one whole at the path or at the backup, at the backup only if the roll-back itself failed |
| SecretReplace.SecretStore.Install | crates/ios-core/src/secret_file.rs:70-72 | a failed replacement removes the temporary and not the backup; the target is then as it was unless moving it back failed |
| SecretReplace.SecretStore.WriteSecret | crates/ios-core/src/secret_file.rs:49-118 | the whole call under every failure pattern: the old record survives until the new one is in place, an error leaves it, nothing else changes, cleaning up the temporary never costs the backup, and leftovers mean that their removal failed; without failures it succeeds if and only if none of its three paths is a directory |
| AtomicWriters.EnsureOverwriteAllowed | crates/ios-cli/src/cmd/file.rs:382-397 | an existing entry may be replaced only with force; an unreadable one is an error |
| AtomicWriters.FillAndMove | crates/ios-cli/src/cmd/file.rs:453-467 | the path shows its old state or exactly the data at every moment, and a failed write removes its temporary |
| AtomicWriters.WriteLocalBytesAtomic | crates/ios-cli/src/cmd/file.rs:425-473 | under any failures the path is unchanged or exactly the data, at every moment; existing siblings are untouched and nothing new stays but one of sixteen temporaries whose removal failed; without failures it succeeds if and only if overwriting is allowed, the path is no directory and one of the sixteen names is free |
| AtomicWriters.ImageTempsDiffer | crates/ios-cli/src/cmd/file.rs:437-441 | temporary names of one path differ whenever process, nonce or attempt do |
| AtomicWriters.SomeNameIsFree | crates/ios-cli/src/cmd/file.rs:437-452 | with fewer than sixteen entries on the disk one of the sixteen names is free |
| Captures.AtomicOutput.constructor | crates/ios-cli/src/cmd/device_control.rs:338-342 | the object holds an open staging file beside its target |
| Captures.AtomicOutput.Stage | crates/ios-cli/src/cmd/device_control.rs:321-343 | a new staging file beside the target, or nothing; an existing one is left alone |
| Captures.AtomicOutput.Write | crates/ios-cli/src/cmd/device_control.rs:344-351 | appends to the staging file only |
| Captures.AtomicOutput.Commit | crates/ios-cli/src/cmd/device_control.rs:352-363 | the target changes in one step to exactly the staged bytes, or not at all |
| Captures.AtomicOutput.Drop | crates/ios-cli/src/cmd/device_control.rs:389-393 | dropping removes at most the staging file |
| Captures.Receive | crates/ios-cli/src/cmd/device_control.rs:254-284 | the loop stages the units in order, counts them and their bytes exactly, and stays within unit limit and byte budget |
| Captures.CaptureToFile | crates/ios-cli/src/cmd/device_control.rs:248-301 | the target only ever changes to the concatenation of all units received, whose length is the byte count, within the budget; the call can still fail after that when stopping the stream fails; without disk failures it is installed if and only if the staging file is free, the target is no directory and the stream neither breaks nor exceeds the budget before enough units are in |
| CrashNames.UniqueLocalPath | crates/ios-cli/src/cmd/crash.rs:633-661 | picks the plain name if free and otherwise the least unused number, and claims it |
| CrashNames.LeastFreeNumber | crates/ios-cli/src/cmd/crash.rs:649-660 | the search stops within as many numbers as names are taken and finds the least free one |
| CrashNames.TriedWithinTaken | crates/ios-cli/src/cmd/crash.rs:649-660 | pigeonhole: if the plain name and n numbered ones are all taken, more than n names are taken |
| CrashNames.CandidateInjective | crates/ios-cli/src/cmd/crash.rs:640-655 | different numbers give different paths |
| CrashNames.ChosenAreDistinct | crates/ios-cli/src/cmd/crash.rs:260-273 | paths chosen one after the other in this way are pairwise different |
| CrashNames.ChosenDifferAsPaths | crates/ios-cli/src/cmd/crash.rs:260-273 | the paths of reports with base names differ in their last component, so also as paths compared by components |
| CrashNames.NumberGoesBeforeExtension | crates/ios-cli/src/cmd/crash.rs:640-655 | the numbered name has the extension of the name, and its stem with a dash and the number after it |
| CrashNames.PickKeepsExtension | crates/ios-cli/src/cmd/crash.rs:633-661 | the path chosen for a report with a base name ends in that name or in that name numbered at the end of its stem, always with its extension |
| CrashNames.ChooseAll | crates/ios-cli/src/cmd/crash.rs:260-273 | over a whole pull-all run every report gets its own path, each the first free choice at its turn |
| DeviceEvents.DeviceEventMapper.WithAttachedDevices | crates/ios-core/src/discovery.rs:216-222 | the table starts as the listed devices by id |
| DeviceEvents.DeviceEventMapper.Map | crates/ios-core/src/discovery.rs:224-240 | an attach is remembered, a detach gives the remembered UDID or an empty one and forgets it |
| DeviceEvents.WatchDevices | crates/ios-core/src/discovery.rs:45-67 | the stream maps each event with the table built from the list and all events before it |
| DeviceEvents.TablesConverge | crates/ios-core/src/discovery.rs:224-240 | whatever table a mapper starts from, it agrees with the true one on every device mentioned since |
| DeviceEvents.WatcherReports | crates/ios-core/src/discovery.rs:45-67 | with the list taken at any point of the history, in any order, the stream carries for each detach the report described below |
| DeviceEvents.ArrivalsCarryTheDevice | crates/ios-core/src/discovery.rs:224-230 | each attach since the subscription is passed on with exactly its device |
| DeviceEvents.PresentExactly | crates/ios-core/src/discovery.rs:224-240 | a device is in the table if and only if the last event about its id was an attach |
| DeviceEvents.TrueUdidIsLastAttached | crates/ios-core/src/discovery.rs:224-240 | the true UDID of a detach is that of the device last attached under the id |
| DeviceEvents.ExactReport | crates/ios-core/src/discovery.rs:45-67 | the report is the true UDID, except for a device that left between subscription and list, for which it is what the list says of its id |
| DeviceEvents.TrueOrEmpty | crates/ios-core/src/discovery.rs:45-67 | the report is true or empty if and only if no other device sits under the id of one that left before the list was taken |
| DeviceEvents.DetachIsTrueOrLost | crates/ios-core/src/discovery.rs:45-67 | with ids never reused every detach carries the true UDID, empty exactly for a device attached before the subscription and gone before the list |
| DeviceEvents.ReusedIdMisreports | crates/ios-core/src/discovery.rs:45-67 | with an id reused a detach can carry the UDID of another device |
| TreeRender.RenderEntry | crates/ios-cli/src/cmd/file.rs:816-835 | appends the lines of one entry and of everything below it |
| TreeRender.RenderChildren | crates/ios-cli/src/cmd/file.rs:826-834 | appends the lines of all children, the last one with its own connector and padding |
| TreeRender.RenderTree | crates/ios-cli/src/cmd/file.rs:804-814 | the text is the root label and the lines of its children |
| TreeRender.DecodeUndoesRender | crates/ios-cli/src/cmd/file.rs:804-852 | a decoder reading four-character units up to the first connector recovers the labelled tree if and only if all its labels are single lines |
| TreeRender.DecodedIsOneLine | crates/ios-cli/src/cmd/file.rs:804-852 | no text is read back as a tree with a line end in a label |
| TreeRender.RenderInjective | crates/ios-cli/src/cmd/file.rs:804-852 | two labelled trees with single-line labels and the same text are equal |
| TreeRender.NewlineLabelsCollide | crates/ios-cli/src/cmd/file.rs:837-852 | with a line end in a label two different trees have the same text |
| TreeDrawing.TreeIsDrawn | crates/ios-cli/src/cmd/file.rs:804-835 | a bar stands in the column of an enclosing entry if and only if that entry has a later sibling, and a line has the last corner if and only if its own entry has none, read off the preorder of the labels |
| TreeDrawing.EveryEntryIsLabelled | crates/ios-cli/src/cmd/file.rs:809-834 | each entry of a listing is shown once, in its place, with its own children below it |
| TreeDrawing.LabelTells | crates/ios-cli/src/cmd/file.rs:837-852 | a directory shows a slash after its name, the root only that; a link with a known target shows it after an arrow; all else shows the name |
| BundleTree.SiblingsApart | crates/ios-cli/src/cmd/apps.rs:1114-1120 | joining different names to one directory gives paths of which neither lies under the other |
| BundleTree.CopyIsTheTree | crates/ios-cli/src/cmd/apps.rs:1038-1120 | the copy holds exactly the directories and regular files of the tree, each at the root followed by the names that lead to it |
| BundleTree.WellNamedIsUnambiguous | crates/ios-cli/src/cmd/apps.rs:1114-1120 | with names distinct within each directory no two different things are copied to one path |
| BundleTree.WellNamedFilesOnce | crates/ios-cli/src/cmd/apps.rs:1114-1120 | with names distinct within each directory no file of the tree has the path of another |
| BundleStaging.ParentIsThere | crates/ios-cli/src/cmd/apps.rs:1049-1084 | each upload goes into a directory ensured before, whose path is then on the device |
| BundleStaging.UploadedOnce | crates/ios-cli/src/cmd/apps.rs:1076-1084 | with names distinct within each directory no path is uploaded twice |
| BundleStaging.NewFileWasUploaded | crates/ios-cli/src/cmd/apps.rs:1076-1084 | every new remote file was uploaded with those bytes |
| BundleStaging.AfcClient.EnsureDir | crates/ios-cli/src/cmd/apps.rs:1103-1112 | creates a directory; that something is already there is no error |
| BundleUpload.FileDone | crates/ios-cli/src/cmd/apps.rs:1076-1084 | one upload moves exactly one file from those left to those uploaded, and its path from still to do to taken |
| BundleUpload.DirDone | crates/ios-cli/src/cmd/apps.rs:1049-1050 | ensuring a directory takes its path and leaves its entries to do |
| BundleUpload.StageFile | crates/ios-cli/src/cmd/apps.rs:1076-1084 | a file is opened and uploaded, which does its task and changes nothing outside |
| BundleUpload.StageEntry | crates/ios-cli/src/cmd/apps.rs:1063-1096 | a file is uploaded, a directory left for later, a symbolic link, a special entry or a nameless one is an error |
| BundleUpload.StageEntries | crates/ios-cli/src/cmd/apps.rs:1058-1097 | the loop over one directory does its files and pushes its subdirectories, or fails for an operation that failed or an entry that cannot be copied |
| BundleUpload.OpenTop | crates/ios-cli/src/cmd/apps.rs:1050-1057 | the directory on top is ensured and read, and its entries are then to do |
| BundleUpload.StageTop | crates/ios-cli/src/cmd/apps.rs:1049-1098 | one round of the worklist keeps files uploaded plus files left equal to all files, and fewer nodes are left |
| BundleUpload.Finished | crates/ios-cli/src/cmd/apps.rs:1100-1100 | with nothing left the device holds what was aimed at if and only if that gives no path two contents |
| BundleUpload.StageAppBundle | crates/ios-cli/src/cmd/apps.rs:1038-1101 | for every bundle, names and device state: succeeds if and only if no operation failed and the bundle holds only named files and directories; every file is then uploaded exactly once into a directory made before, and the device has what it had and the recursive copy if and only if those give no path two contents; nothing outside changes on any outcome |
| BundleUpload.DistinctNamesGiveTheCopy | crates/ios-cli/src/cmd/apps.rs:1038-1101 | in an empty place only coinciding names can make the copy incomplete, and names distinct within each directory never do |
| BundleUpload.TwoFilesOneName | crates/ios-cli/src/cmd/apps.rs:1114-1120 | two files of one directory that get one remote name: the call succeeds after uploading both, and one of them is lost |
| XpcValues.SwapRemoveMeaning | crates/ios-core/src/pairing_transport.rs:374-381 | swap removal takes out one key and keeps the mapping of all others, whatever the order |
| XpcValues.SameFieldsSameMeaning | crates/ios-core/src/pairing_transport.rs:374-381 | dictionaries with the same entries in any order mean the same |
| Envelopes.TakeField | crates/ios-core/src/pairing_transport.rs:374-381 | returns the value of a key and the dictionary without it, or a missing-field error |
| Envelopes.TakeDict | crates/ios-core/src/pairing_transport.rs:383-394 | the same for a dictionary, with an error for any other type |
| Envelopes.TakeData | crates/ios-core/src/pairing_transport.rs:396-407 | the same for bytes |
| Envelopes.TakeString | crates/ios-core/src/pairing_transport.rs:409-420 | the same for text |
| Envelopes.DecodeControlPlainMessage | crates/ios-core/src/pairing_transport.rs:422-445 | the destructive decoder gives what the key-to-value mapping says, errors included, whatever the order of entries |
| Envelopes.DecodePairingDataEvent | crates/ios-core/src/pairing_transport.rs:447-474 | gives the pairing bytes, the rejection, or the first missing or ill-typed field, by the mapping alone |
| Envelopes.DecodeEncryptedResponse | crates/ios-core/src/pairing_transport.rs:587-620 | gives the bytes directly in the message or one level down, by the mapping alone |
| EnvelopeRoundTrips.BuiltMeaning | crates/ios-core/src/pairing_transport.rs:221-227 | a built dictionary means its pairs, later ones winning |
| EnvelopeRoundTrips.EnvelopeReadBack | crates/ios-core/src/pairing_transport.rs:285-300 | message and sequence number can be read off the envelope they were put in |
| EnvelopeRoundTrips.PairingEventReadBack | crates/ios-core/src/pairing_transport.rs:315-346 | for all payloads, kinds, hosts and numbers a pairing event decodes to its payload, and the decoder of encrypted messages rejects it |
| EnvelopeRoundTrips.EncryptedRequestReadBack | crates/ios-core/src/pairing_transport.rs:302-313 | for all payloads and numbers an encrypted request decodes to its bytes, and the decoder of pairing events rejects it |
| EnvelopeRoundTrips.HandshakeReadBack | crates/ios-core/src/pairing_transport.rs:255-270 | the handshake is well-formed and shows its number |
| EnvelopeFields.HandshakeHolds | crates/ios-core/src/pairing_transport.rs:255-283 | the handshake comes from the host, asks for pair verification and names protocol version 19, each at its place |
| EnvelopeFields.PairingEventHolds | crates/ios-core/src/pairing_transport.rs:315-346 | a pairing event holds bytes, kind and new-session mark at their places, and the sending host if and only if there is one |
| EnvelopeFields.GreetingExactly | crates/ios-core/src/pairing_transport.rs:534-574 | a reply gives an identifier if and only if it is an envelope with that text at the end of the path to it |
| EnvelopeFields.PairingDataExactly | crates/ios-core/src/pairing_transport.rs:422-474 | a reply gives pairing data if and only if it is an envelope whose event has no rejection and holds those bytes at their place |
| EnvelopeFields.EncryptedExactly | crates/ios-core/src/pairing_transport.rs:587-620 | a reply gives an encrypted payload if and only if it is an envelope with those bytes directly in the message or, failing bytes there, one level down |
| PairingReplies.ReceivePlain | crates/ios-core/src/pairing_transport.rs:489-532 | a lost reply or a missing body is an error, a present one is decoded by its mapping |
| PairingReplies.ReceivePairingData | crates/ios-core/src/pairing_transport.rs:554-558 | the pairing data of a reply, or why there is none |
| PairingReplies.ReceiveHandshake | crates/ios-core/src/pairing_transport.rs:534-574 | the peer identifier of the handshake reply, or why there is none |
| PairingReplies.ReceiveSealed | crates/ios-core/src/pairing_transport.rs:663-663 | the encrypted payload of a reply, or why there is none |
| PairingReplies.RejectionIsHeard | crates/ios-core/src/pairing_transport.rs:447-487 | a reply with pairingRejectedWithError is heard as that rejection, whatever else it holds |
| PairingRun.SendNext | crates/ios-core/src/pairing_transport.rs:356-372 | sending the message that is due keeps the trace orderly; a send that fails is a reason to end the run |
| PairingRun.Await | crates/ios-core/src/pairing_transport.rs:489-513 | the next reply of the device joins the trace |
| PairingRun.Greet | crates/ios-core/src/pairing_transport.rs:115-119 | handshake and reply: goes on with the identifier the reply holds, or fails with what is wrong with it |
| PairingRun.Setup | crates/ios-core/src/pairing_transport.rs:125-151 | setup message, acknowledgement, then key and salt: goes on with the session they give |
| PairingRun.Prove | crates/ios-core/src/pairing_transport.rs:154-181 | proof message and reply: goes on only if the proof in the reply verifies |
| PairingRun.Inform | crates/ios-core/src/pairing_transport.rs:183-204 | device information and reply: goes on only if the answer verifies |
| PairingRun.Unlock | crates/ios-core/src/pairing_transport.rs:638-681 | encrypted request and reply: goes on only if the answer decrypts and is accepted |
| PairingRun.PairNewDevice | crates/ios-core/src/pairing_transport.rs:83-217 | against any device, whose replies may depend on all before, and with any cryptography and lost sends: the trace of envelopes sent and replies received is orderly, each event only after all replies so far passed, and the call ends as that trace calls for |
| PairingTraces.MessagesAreNumbered | crates/ios-core/src/pairing_transport.rs:249-253 | in every orderly trace the i-th envelope sent shows sequence number i, has message id i and decodes to the payload the replies before it call for; there are at most five |
| PairingTraces.OnlyAfterPassing | crates/ios-core/src/pairing_transport.rs:83-217 | whatever happens in a trace, all replies before it have passed |
| PairingTraces.InfoOnlyAfterProof | crates/ios-core/src/pairing_transport.rs:164-190 | the fourth message is preceded by a received reply whose decoded proof verifies for the session of an earlier reply |
| PairingTraces.RejectionEndsRun | crates/ios-core/src/pairing_transport.rs:447-474 | a reply with pairingRejectedWithError at any of the three pairing-data receives is the last event, and the call fails with that rejection |
| PairingTraces.FaultEndsRun | crates/ios-core/src/pairing_transport.rs:447-474 | the same for any other error in place of pairing data |
| PairingTraces.RunIsDetermined | crates/ios-core/src/pairing_transport.rs:83-217 | the device, the cryptography and the lost sends leave exactly one trace and one result |
| PairingTraces.CredentialsExactlyWhenComplete | crates/ios-core/src/pairing_transport.rs:209-216 | credentials are returned if and only if the device, the cryptography and the lost sends allow a trace with all five sends through and all six replies passed |
| PairingEvidence.EventsSay | crates/ios-core/src/pairing_transport.rs:125-190 | of the three pairing events the first alone starts a new session, and the third alone names the host |
| PairingEvidence.UnlockOnlyAfterAnswer | crates/ios-core/src/pairing_transport.rs:164-204 | the fifth message is preceded by replies that agree on a session, prove it, and answer with information that verifies under the setup key made for that session |
| PairingEvidence.CredentialsExactlyWhenEarned | crates/ios-core/src/pairing_transport.rs:83-217 | credentials are returned if and only if the trace is complete and the six replies earn them: the identifier of the first, the keys derived from the session agreed on, proved and answered for, client then server, and the host key in what the server key decrypts from the last |
| PairingEvidence.RefusalEndsRun | crates/ios-core/src/pairing_transport.rs:139-200 | pairing data without key, salt, proof or encrypted data, or with a proof or an answer that does not verify, is the last event, and the error names which |
| PairingEvidence.FaultIsLast | crates/ios-core/src/pairing_transport.rs:83-217 | a reply that does not pass is the last event and gives the error |
| PairingWire.PairingEventArrives | crates/ios-core/src/pairing_transport.rs:315-372 | a pairing event within the message limit arrives whole, whatever follows it, if and only if neither kind nor host has a NUL |
| PairingWire.EncryptedRequestArrives | crates/ios-core/src/pairing_transport.rs:302-372 | an encrypted request within the limit always arrives whole |
| XpcDecode.ValueBack | crates/ios-core/src/xpc/message.rs:466-625 | decoding an encoded clean value, with anything after it, gives the value and what came after |
| XpcDecode.DecodedIsClean | crates/ios-core/src/xpc/message.rs:466-625 | whatever decodes is clean: depth, collection size, zero bytes and double keys |
| XpcDecode.RoundTripExactlyWhenClean | crates/ios-core/src/xpc/message.rs:179-268 | an encodable value comes back from its bytes, with nothing left over, if and only if it is clean |
| XpcStream.MessageRoundTrip | crates/ios-core/src/xpc/message.rs:162-389 | an encoded message, whatever follows it, decodes to itself if and only if its body is clean and within the limit its flags allow |
| XpcStream.LimitByBits | crates/ios-core/src/xpc/message.rs:58-71 | the body limit is 64 MiB if and only if bit 20 or bit 21 of the flags is set, and 8 MiB otherwise |
| XpcBytes.TypeWords | crates/ios-core/src/xpc/message.rs:146-263 | the four bytes that start each kind of value |
| XpcBytes.NumberInAValue | crates/ios-core/src/xpc/message.rs:194-197 | integers are little-endian after their type word |
| XpcBytes.TextBytes | crates/ios-core/src/xpc/message.rs:216-229 | text: its length with the terminator, its bytes, zeros up to a multiple of four |
| XpcBytes.DictBytes | crates/ios-core/src/xpc/message.rs:247-260 | a dictionary: the size of what follows, the count, padded keys and values |
| XpcBytes.MessageBytes | crates/ios-core/src/xpc/message.rs:162-178 | a message: wrapper magic, flags, body length, id, object magic, version, value |
| XpcBuffer.XpcMessageBuffer.Push | crates/ios-core/src/xpc/message.rs:406-421 | appends if and only if the buffer stays within its limit, and otherwise changes nothing |
| XpcBuffer.XpcMessageBuffer.TryNext | crates/ios-core/src/xpc/message.rs:423-449 | takes the first complete message off the buffer, waits for an incomplete one and refuses an over-long one without consuming it |
| XpcBuffer.NextIsSettled | crates/ios-core/src/xpc/message.rs:423-449 | once a message or an error is there, later bytes never change it |
| XpcBuffer.FirstKeptOfMore | crates/ios-core/src/xpc/message.rs:423-449 | reading what has arrived and going on later is reading everything at once |
| XpcBuffer.WaitingIsShort | crates/ios-core/src/xpc/message.rs:406-449 | what waits is shorter than the longest message its flags allow, so one more byte is never refused |
| XpcBuffer.FirstKeptIsFirstSent | crates/ios-core/src/services/restore/mod.rs:231-264 | of messages that arrive as one run of bytes the reader gets exactly the first one worth keeping, and exactly what was sent after it is left |
| XpcBuffer.HousekeepingIsPassedOver | crates/ios-core/src/services/restore/mod.rs:231-247 | any number of file announcements, bodyless messages and empty dictionaries are passed over, and the next message is returned |
| XpcFrames.TakeKept | crates/ios-core/src/services/restore/mod.rs:233-249 | takes messages off the buffer until one is worth keeping |
| XpcFrames.Feed | crates/ios-core/src/services/restore/mod.rs:251-262 | frames that are empty at the end of a stream or on neither control stream are ignored, those of both control streams pushed into one buffer |
| XpcFrames.ReceiveControlMessage | crates/ios-core/src/services/restore/mod.rs:231-264 | the answer is that of reading all bytes at once, wherever the frames cut them, given at the first frame that allows it, all frames before it having fitted the buffer |
| XpcFrames.AnswerIsDetermined | crates/ios-core/src/services/restore/mod.rs:231-264 | for the bytes pending and the frames to come there is exactly one answer after exactly one number of frames |
| XpcSent.WaitingPart | crates/ios-core/src/xpc/message.rs:423-449 | of sent messages cut anywhere exactly the message begun last waits, until the first one worth keeping is complete: a matter of lengths alone |
| XpcOverrun.OverrunExactlyWhenSpilling | crates/ios-core/src/services/restore/mod.rs:260-262 | when sound messages arrive, the reader fails on the buffer limit if and only if some frame begins before the first message worth keeping is complete and ends more than the limit after the start of the message it continues |
| XpcOverrun.OverrunNeedsTransfer | crates/ios-core/src/xpc/h2_raw.rs:79-79 | with payloads of at most 16384 bytes, an overrun means that a transfer message waits with all but that many bytes of the limit |
| XpcOverrun.FramesOverrun | crates/ios-core/src/xpc/message.rs:406-421 | frames of which all but the last make a proper beginning of a sound message, and all together exceed the limit, end in an overrun at the last |
| XpcOverrun.FullMessage | crates/ios-core/src/xpc/message.rs:36-47 | there are sound messages worth keeping that are exactly as long as the buffer may be |
| XpcOverrun.FullMessageOverruns | crates/ios-core/src/xpc/h2_raw.rs:421-425 | a sound message of the full size, in frames of at most 16384 bytes, is lost when the frame with its last bytes also carries bytes of what follows |
| XpcTwoStreams.TidyIsInOrder | crates/ios-core/src/xpc/h2_raw.rs:242-244 | while the two control streams take turns between messages, the buffer holds whole messages in order of completion and what at most one stream has left open |
| XpcTwoStreams.MergedKeepsOrder | crates/ios-core/src/xpc/h2_raw.rs:242-244 | in that order each stream keeps its own, and every complete message of both streams is there |
| XpcTwoStreams.TidyStreamsDeliver | crates/ios-core/src/services/restore/mod.rs:231-264 | the reader then gets the first message worth keeping in that order, which was sent on one of the streams, and never sees a fault |
| XpcTwoStreams.OtherStreamIsSplicedIn | crates/ios-core/src/services/restore/mod.rs:257-262 | bytes of the other stream that arrive inside the data of a message become part of it: the reader returns the message with its data spliced and no error |
| XpcTwoStreams.NobodySentIt | crates/ios-core/src/services/restore/mod.rs:257-262 | when those bytes are a whole message of the other stream, what the reader returns was sent on neither |
| XpcFrames.CutsDoNotMatter | crates/ios-core/src/services/restore/mod.rs:231-264 | two ways to cut the same bytes into frames give the same message and leave the same bytes to read |
| WindowsPaths.GetFullPathName | crates/ios-core/src/fs_replace.rs:89-142 | the loop gives the result, and makes the calls, of the recursive asking rule that the bounds below are proved of |
| WindowsPaths.AskingIsBounded | crates/ios-core/src/fs_replace.rs:89-142 | whatever the system answers: at most eight calls, growing capacities never above 32768, and the retry limit is never the error |
| WindowsPaths.StablePathTakesTwoCalls | crates/ios-core/src/fs_replace.rs:89-142 | a stable answer takes at most two calls and is returned if and only if it has at most 32766 units |
| WindowsPaths.PrefixingIsIdempotent | crates/ios-core/src/fs_replace.rs:145-172 | prefixing twice is prefixing once, no prefixed path exceeds the limit unless it came in that long, and no NUL is added |
| WindowsPaths.PrefixedStandsForThePath | crates/ios-core/src/fs_replace.rs:145-172 | a path on a drive or a share gets into the verbatim namespace, and a reader that drops the prefix gets exactly the path back; refused if and only if the prefix does not fit |
| WindowsPaths.OtherPathsKeepTheirRest | crates/ios-core/src/fs_replace.rs:145-172 | a device path changes its prefix and nothing else; all other paths stay as they are |
| WindowsPaths.ValidateWindowsPath | crates/ios-core/src/fs_replace.rs:59-79 | refuses exactly the paths with a NUL or over the extended length |
| WindowsPaths.AskedIsNulFree | crates/ios-core/src/fs_replace.rs:89-142 | a NUL-free system answer gives a NUL-free path |
| WindowsPaths.PrepareWindowsMovePath | crates/ios-core/src/fs_replace.rs:175-200 | every prepared path has exactly one NUL, at its end; namespace and short paths are unchanged; a long one on a drive or a share is in the verbatim namespace and stands for exactly the full path, a device path changes only its prefix, and it is refused if and only if there is no room for the prefix |
| FocusTraversal.Traversal.RecordFocus | crates/ios-cli/src/cmd/accessibility_audit.rs:246-253 | records an element if and only if its id is new, and resets the time-outs |
| FocusTraversal.Traversal.RecordTimeout | crates/ios-cli/src/cmd/accessibility_audit.rs:255-258 | counts a silent wait and goes on below five |
| FocusTraversal.Take | crates/ios-cli/src/cmd/accessibility_audit.rs:166-184 | one wait adds an element, stops at a repetition, or counts towards five silent waits |
| FocusTraversal.WaitOnce | crates/ios-cli/src/cmd/accessibility_audit.rs:166-184 | one round keeps all that was observed recorded, or gives the answer that the rounds so far call for |
| FocusTraversal.Traverse | crates/ios-cli/src/cmd/accessibility_audit.rs:165-186 | the loop, from the element found while preparing on |
| FocusTraversal.FreshPrefixIsLongest | crates/ios-cli/src/cmd/accessibility_audit.rs:234-267 | the reference: the longest beginning of the observed elements without a repeated id |
| FocusTraversal.ListItems | crates/ios-cli/src/cmd/accessibility_audit.rs:150-197 | at most five waits per element of the limit; the items are the longest repetition-free beginning of what was observed, ended by the first of limit, repetition and five silent waits; the time-out error exactly when nothing was collected then, the connection error exactly when a wait or move failed before |
| FocusTraversal.AnswerIsDetermined | crates/ios-cli/src/cmd/accessibility_audit.rs:150-197 | the device determines the answer and the number of waits |
| FocusTraversal.RingIsListed | crates/ios-cli/src/cmd/accessibility_audit.rs:150-197 | a ring of different elements is listed once round, in order, up to the limit |
| BackupLock.Session.Do | crates/ios-cli/src/cmd/backup.rs:818-871 | one step: a lock or unlock takes effect exactly when it is answered well, and closing the file gives the lock up |
| BackupLock.Prepare | crates/ios-cli/src/cmd/backup.rs:825-836 | the steps before the first lock attempt, in order, up to the first that fails |
| BackupLock.TryToLock | crates/ios-cli/src/cmd/backup.rs:838-855 | between one and fifty attempts; without success the lock file is closed again |
| BackupLock.Release | crates/ios-cli/src/cmd/backup.rs:858-871 | unlock, close and did-finish in order up to the first that fails |
| BackupLock.RunUnderLock | crates/ios-cli/src/cmd/backup.rs:619-643 | the answers of the device decide which of the listed courses a run takes; the lock is left held exactly when did-start could not be posted or unlocking failed; it succeeds if and only if the lock was got and every later step answered well |
| BackupLock.WorkLocked | crates/ios-cli/src/cmd/backup.rs:619-643 | with the lock taken the release is attempted whatever comes of the work |
| BackupLock.CourseIsDetermined | crates/ios-cli/src/cmd/backup.rs:818-871 | the same answers never lead to two different courses |
| BackupLock.NotesInOrder | crates/ios-cli/src/cmd/backup.rs:818-871 | in every course the notifications are a beginning of will-start, lock-request, did-start, did-finish, with at most fifty lock attempts |
| BackupLock.WorkIsBracketed | crates/ios-cli/src/cmd/backup.rs:1003-1038 | in every course the work comes directly after did-start, with the lock taken, and is followed at once by the unlock request whatever came of it |

## Left out

- ReleaseCheck.CheckWorkflow: the YAML document and the regular expressions for conditions are not modelled; each job comes with the facts they decide, and failure messages are data, not text.
- NeedsGraph.Closure: requires the root to be a job, since the code raises a KeyError otherwise; all its callers in the check look up required jobs.
- ProxyStack.AsyncioModule.Call: the parsing of positional and keyword arguments, the preamble bytes sent to the proxy, lock poisoning and failing Python calls are not modelled.
- SecretWriters.TargetsAreAllOrNothing: supposes that one process draws at most 2^64 temporary names; other processes are not modelled.
- SecretReplace.SecretStore.WriteSecret: directory and file modes are steps that may fail and change nothing.
- AtomicWriters.WriteLocalBytesAtomic: the extra checks of the Windows variant of replace_local_file, symbolic links and the nonce source are not modelled; the nonce is a parameter.
- Captures.CaptureToFile: captures without an output file, and counters near the size of usize, are not modelled.
- CrashNames.ChooseAll: fewer than 2^32 reports, as the number type demands; the names already taken are compared as strings, which for reports with base names is comparing them as paths.
- TreeRender.RenderTree: labels are taken as render_tree_label makes them; reading the tree from the device (build_file_tree) depends on the file service.
- BundleUpload.StageAppBundle: names are taken after lossy conversion; an upload that the device accepts puts the file at its path whatever was there, since what the file service does with a directory of that name is not known here.
- BundleUpload.StageEntry: the contents of a local file are fixed while the call runs.
- PairingRun.PairNewDevice: key agreement, type-length-value coding, encryption and the JSON of the unlock reply are arbitrary functions; service discovery and the connection before the handshake are not modelled; dictionaries that come in have no key twice, as IndexMap guarantees.
- Envelopes.DecodeControlPlainMessage: errors are data, with the keys that lead to a field in place of texts.
- XpcDecode.RoundTripExactlyWhenClean: strings are their UTF-8 bytes, one character each, and the check that bytes are UTF-8 is not modelled; all decoding errors are one error.
- XpcFrames.ReceiveControlMessage: the variant of the symbol client, which keeps messages without a body, is not modelled; a frame is its payload, its stream and whether it ends it.
- WindowsPaths.PrepareWindowsMovePath: paths are sequences of 16-bit units; the move itself is not modelled.
- DeviceEvents.WatchDevices: connection errors end the stream and are not modelled.
- BackupLock.RunUnderLock: the backup and restore work is one step with an arbitrary answer; what the device does with a lock when the connection itself closes is not modelled.
- FocusTraversal.ListItems: printing and the set-up of the focus inspector are not modelled beyond the element it may give first.
- remove_staged_path, join_device_path and tree_entry_name: they would only add easy members.
- The command line, thin service commands, multicast discovery, transport encryption, floating-point measurements and foreign calls.
