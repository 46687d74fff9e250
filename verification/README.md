# homura: a verified model of its core

homura runs virtual machines for repositories and shares host paths with them. A 9P server exposes single
paths of the host to the guest; a guest daemon mounts them with FUSE and caches attributes; a host daemon
supervises the machines and exits when idle; worktrees are seeded by copying a repository's file tree.

This project models that core in Dafny and proves what it is meant to guarantee. `dafny verify dfyconfig.toml`
checks all of it.

| part | files |
|---|---|
| Path strings and their components | `Paths.dfy` |
| The registry of exposed paths: its meaning, the mutable trie of heap nodes that refines it, whole call histories | `Visibility.dfy`, `PathRegistry.dfy`, `RegistryHistory.dfy` |
| Walking and listing the filtered tree; paged listing between server and client | `VirtualFs.dfy`, `DirectoryPaging.dfy`, `DirectoryReading.dfy` |
| Copying a repository's tree, possibly into itself, with rollback | `RepositoryCopy.dfy` |
| The queue of path requests, and all interleavings of requests, decisions and shutdown | `RequestQueue.dfy`, `ApprovalProtocol.dfy` |
| The daemon's idle exit, and all interleavings of connections, VM starts, VM exits and timers | `IdleDaemon.dfy`, `DaemonProtocol.dfy` |
| The wire protocol of the mmap channel | `Bytes.dfy`, `Framing.dfy`, `Records.dfy` |
| Line-splitting log writer; shell quoting of remote commands; the guest's path parser | `EventWriter.dfy`, `RemoteCommand.dfy`, `GuestPaths.dfy` |
| The guest's attribute cache against the host's files | `AttrCache.dfy`, `ServerFs.dfy`, `GuestCache.dfy`, `GuestClient.dfy` |

Code that changes state in place is modelled by classes and loops and proved against a mathematical meaning:
the exposed set for the registry, a file tree for the copy, a queue state for the requests, a core state for the
daemon, a client state for the guest. The results about histories and interleavings are about those meanings.
Each step of the two protocol models uses the very functions that the class methods are proved against.

What the code does with the outside world is a parameter: whether `os.Stat` finds a path, what `os.Lstat` and a
host directory read return, which source entries fail to be read, whether git accepts the repository and what its
checkout makes of the copy, which requests the host carries out, and the clock.

## Where the code falls short of the obvious statement

In each case the code is modelled as it is, a lemma (or a method, for the trie) shows a concrete run or input, and the
exact condition is proved.

| what happens | shown by | exact condition |
|---|---|---|
| Exposing "/" makes only "/" itself visible, since the loop at `9passthrough/pathregistry.go:84-106` has nothing to mark, while `IsReadOnly` treats "/" as everyone's ancestor | `RootExposesOnlyItself` | the same, for every path |
| The descendants flag of an exposed node can stay set with nothing below it, since the search counts the node itself (`9passthrough/pathregistry.go:170-180`) | `StaleFlag` | `DescendantsFlag`: over any history |
| The server skips children whose `Lstat` fails but numbers the others as if it had not, and takes a new map order on every call (`9passthrough/virtualfs.go:640-666`): the client can get entries twice, or miss some | `SkippedChildIsRepeated`, `ReorderingLosesChild` | `AnyOrderIff`; with one order on every call, `FixedListing` |
| `supervise` frees the slot before it deletes the map entry (`internal/daemon/server.go:358-371`): a start in between is forgotten, and the daemon may exit under a running VM | `ReusedSlotIsForgotten` | `AccountedIffNoReuse` |
| The idle test and the closing of the listener are two steps | `StartDuringIdleExit` | `StaysIdleIffNoEnter` |
| Stopping a timer does not stop its callback, which can decide the exit early | `LateCallbackDecides` | `LateCallbackIffEntered` |
| The reply to an approval says that the path is exposed (`9passthrough/control.go:557-563`), but the waiting handler exposes it later, or fails to | `ApprovedNotExposed`, `ApprovedNeverExposed` | `CalledIffFinished`, `CallExposesIff` |
| A frame length of 0 announces 2^32 - 1 data bytes (`9passthrough/protocol.go:102`) | `ZeroLength` | `RoundTrip` |
| The record decoders add lengths in 32 bits and panic when the sum wraps (`9passthrough/protocol.go:158`, `227`, `254`, `340`) | `RegisterSumWraps`, `TailEndWraps` | `RegisterDecodes`, `TailDecodes` |
| The guest's `parsePath` converts single bytes to characters (`guest/9pfuse/client.go:698`) | `NonAsciiIsWidened` | `ParsesBackIffAscii` |
| `Rename` invalidates exact paths, not subtrees | `StaleAfterDirectoryRename` | `RenameKeepsCoherentIff` |
| An open handle invalidates the path it was opened under, whatever the file is called now | `StaleAfterOpenFileRename` | `WriteKeepsCoherentIff` |
| A cached path and the host path it is walked to can differ | `StaleAfterNonAsciiRename` | `RenameKeepsCoherentIff`, `UnlinkKeepsCoherentIff`; none with ASCII paths: `AsciiRename`, `AsciiUnlink` |

## Model

| member | source | states |
|---|---|---|
| PathRegistry.PathRegistry.constructor | 9passthrough/pathregistry.go:45-53 | a new registry exposes nothing |
| PathRegistry.PathRegistry.AddPath | 9passthrough/pathregistry.go:55-109 | keeps the trie canonical and in agreement with both flat maps; succeeds exactly for an absolute path that exists on the host, and then the exposed set gains that path, cleaned, with the given mode, and the nodes strictly above it their descendants flag; otherwise it reports which check failed, and exposed set and flags stay |
| PathRegistry.PathRegistry.Insert | 9passthrough/pathregistry.go:83-106 | the loop that creates and marks nodes ends in the canonical trie of the exposed set; exactly the nodes strictly above the new path have gained their flag |
| PathRegistry.PathRegistry.RemovePath | 9passthrough/pathregistry.go:111-174 | keeps the trie canonical; exactly the cleaned path leaves the exposed set, an unknown or relative path changes nothing, and of the flags exactly those of the remaining nodes are left |
| PathRegistry.PathRegistry.Prune | 9passthrough/pathregistry.go:138-173 | after unmarking, the walk back up deletes just the nodes that no exposed path needs, and every other node keeps its mark and its flag |
| PathRegistry.PathRegistry.PruneOne | 9passthrough/pathregistry.go:139-172 | one round either deletes the superfluous node and moves up, or stops with the whole trie canonical again; recomputing the flag there changes nothing |
| PathRegistry.PathRegistry.NodeHasExposedDescendants | 9passthrough/pathregistry.go:176-189 | the recursive search terminates and finds an exposed node if and only if one lies at or below the given node |
| PathRegistry.PathRegistry.NodesArePrefixes | 9passthrough/pathregistry.go:55-109 | canonical trie: a non-root path has a node if and only if some exposed path extends it |
| PathRegistry.PathRegistry.CheckPath | 9passthrough/pathregistry.go:191-265 | for every string, the trie traversal answers Exposed exactly for an exposed path or one below an exposed path other than "/", and NotVisible exactly for a path other than "/" that is neither exposed nor on the way to an exposed one |
| PathRegistry.PathRegistry.Traverse | 9passthrough/pathregistry.go:223-264 | the loop over components, with its early exit at a missing node and its inherited exposure, computes that same answer |
| PathRegistry.PathRegistry.IsReadOnly | 9passthrough/pathregistry.go:283-310 | the answer is the mode of the longest exposed prefix, "/" last, false if there is none |
| PathRegistry.PathRegistry.NearestMode | 9passthrough/pathregistry.go:294-309 | the walk over ever shorter prefixes stops at the longest exposed one |
| PathRegistry.PathRegistry.GetExposedChildren | 9passthrough/pathregistry.go:312-344 | without repetition, exactly the names c for which the directory followed by c is a prefix of an exposed path |
| Visibility.ModeIsLongestPrefix | 9passthrough/pathregistry.go:283-310 | the lookup order by shortening picks the longest exposed prefix, and false exactly when none exists |
| Visibility.ModeFrame | 9passthrough/pathregistry.go:283-310 | exposing or withdrawing e changes the mode only of paths that extend e and have no longer exposed prefix |
| Visibility.VisiblePrefixClosed | 9passthrough/pathregistry.go:191-265 | every prefix of a visible path is visible |
| Visibility.ExposedSuffixClosed | 9passthrough/pathregistry.go:246-262 | whatever lies below an exposed path other than "/" is exposed |
| Visibility.RootExposesOnlyItself | 9passthrough/pathregistry.go:84-106 | exposing "/" changes the visibility of "/" only, but sets the mode of every path without another exposed prefix |
| RegistryHistory.Run | 9passthrough/pathregistry.go:55-174 | after any list of AddPath and RemovePath calls a registry is valid, and its exposed set and its flags are the replay of the calls |
| RegistryHistory.ExposedByLastCall | 9passthrough/pathregistry.go:55-174 | a path is exposed, with a given mode, if and only if the last effective call on it was an exposure with that mode |
| RegistryHistory.RemoveUndoesAdd | 9passthrough/pathregistry.go:111-174 | withdrawing a newly exposed path restores the exposed set |
| RegistryHistory.SameMeaningSameTrie | 9passthrough/pathregistry.go:111-189 | two registries with the same exposed paths have the same nodes, children and marks, whatever their histories |
| RegistryHistory.FlaggedIffSince | 9passthrough/pathregistry.go:95-104 | over any history of calls, a path is flagged if and only if something strictly below it was exposed at some point and it has led to something exposed ever since |
| RegistryHistory.DescendantsFlag | 9passthrough/pathregistry.go:95-189 | so the descendants flag of every node but "/", exposed or not, is exactly that |
| RegistryHistory.DescendantsFlagExact | 9passthrough/pathregistry.go:170-189 | whatever has an exposed path strictly below it is flagged, and an unexposed node always has one: on those the flag means what its name says |
| RegistryHistory.StaleFlag | 9passthrough/pathregistry.go:170-180 | exposing /a and /a/b and withdrawing /a/b leaves /a flagged with nothing below it |
| Paths.JoinSplit | 9passthrough/pathregistry.go:346-359 | splitting any string at slashes and joining again gives the string back, and no part holds a slash |
| Paths.SplitPathAbs | 9passthrough/pathregistry.go:346-359 | splitPath reads back the components that a cleaned absolute path was printed from |
| Paths.AbsInjective | 9passthrough/pathregistry.go:37-43 | two component sequences never print the same, so the string-keyed maps lose nothing |
| Paths.CleanShape | 9passthrough/pathregistry.go:57-63 | for every string, cleaning keeps absoluteness and, if absolute, prints a sequence of proper names that splitPath reads back |
| Paths.CleanIdempotent | 9passthrough/pathregistry.go:57-58 | cleaning twice is cleaning once, for every string |
| Paths.CleanCancels | 9passthrough/pathregistry.go:57-58 | in an absolute path a proper name followed by ".." goes with it, whatever stands before and after |
| Paths.CleanDrops | 9passthrough/pathregistry.go:57-58 | a "." and an empty part, from a doubled or trailing slash, vanish, wherever they stand |
| Paths.CleanAtRoot | 9passthrough/pathregistry.go:57-58 | a ".." directly behind the root vanishes |
| Paths.CleanRelativeCancels | 9passthrough/pathregistry.go:57-58 | the first of these laws for relative paths |
| Paths.CleanRelativeDrops | 9passthrough/pathregistry.go:57-58 | the second of these laws for relative paths |
| Paths.CleanKeeps | 9passthrough/pathregistry.go:57-58 | proper names, in a relative path behind any number of "..", are already clean |
| Paths.JoinPathResolves | 9passthrough/virtualfs.go:47-53 | joining any string to a clean absolute directory resolves its parts from there and stays a clean absolute path |
| Paths.JoinPathName | 9passthrough/virtualfs.go:51-53 | joining a proper name appends it as one component |
| Paths.DirIsParent | 9passthrough/virtualfs.go:47-49 | path.Dir of a clean absolute path is its parent, and "/" for "/" |
| VirtualFs.VirtualFile.Walk | 9passthrough/virtualfs.go:39-85 | a walk succeeds, with the final path and one QID per name, if and only if every path on the way is visible and, where exposed, on the host; the QID comes from the host for an exposed path and is made from the path otherwise; else it reports the first obstacle, no-entry for a hidden path and a host error for an exposed one that is gone |
| VirtualFs.VisibleIsReachable | 9passthrough/virtualfs.go:39-85 | every visible path whose exposed prefixes exist on the host is reached from the root by walking its components |
| VirtualFs.WalkStaysVisible | 9passthrough/virtualfs.go:39-85 | whatever the names hold, slashes and dots included, every path that a successful walk passes is a clean visible one |
| VirtualFs.DownAndUp | 9passthrough/virtualfs.go:46-50 | a name followed by ".." comes back, and is allowed wherever the name alone is |
| VirtualFs.AfterCleanNames | 9passthrough/virtualfs.go:46-53 | walking proper names appends exactly those names |
| VirtualFs.WalkIsClean | 9passthrough/virtualfs.go:39-54 | whatever the names hold, slashes and dots included, a walk leads where path.Clean leads from the directory followed by the names put together |
| VirtualFs.VirtualFile.Readdir | 9passthrough/virtualfs.go:595-689 | of an exposed directory, the host entries from the offset on, as many as asked for, each with its own name, QID and kind and the next offset; of a virtual directory, a page of its children, each leading to something exposed, with the QID and kind from the host if exposed itself and as a synthetic directory otherwise; the two errors occur exactly for a hidden directory and a failing host read |
| VirtualFs.VirtualFile.VirtualListing | 9passthrough/virtualfs.go:640-684 | each child is listed as host entry or synthetic directory by its own visibility, and dropped only when its host lookup fails |
| VirtualFs.ListedIffVisible | 9passthrough/pathregistry.go:312-344 | below a directory that is not exposed itself, the listed names are exactly the visible children |
| VirtualFs.ChildIsListed | 9passthrough/virtualfs.go:640-684 | every name below a virtual directory that leads to something exposed is listed, unless it is exposed itself and the host lookup fails |
| DirectoryPaging.CutPage | 9passthrough/virtualfs.go:620-637 | the loop with skip, stop and continue returns the first entries from the offset on: all of them, or exactly count |
| DirectoryPaging.ReadAll | guest/9pfuse/client.go:258-275 | against any sequence of listings of one length and any transport that cuts pages short but never to nothing, the loop terminates and returns what the calls delivered, each call at the number of entries received before |
| DirectoryPaging.FixedListing | guest/9pfuse/client.go:258-275 | if the listing is the same on every call, nothing is missed, and the result is the listing once each and in order if and only if no skipped child precedes a listed one |
| DirectoryPaging.AnyOrderIff | 9passthrough/virtualfs.go:640-681 | the listing is in a new order on every call: given the first listing and the answer received, every continuation returns each listed child exactly once if and only if that answer was empty or held all the children |
| DirectoryPaging.PartialAnswerRepeats | 9passthrough/virtualfs.go:640-681 | after any partial first answer there is an order for the next call, and an end of the run, that repeats an entry |
| DirectoryPaging.FullRun | 9passthrough/virtualfs.go:640-681 | a first answer with all the children is the whole run, in whatever order the next call looks |
| DirectoryPaging.Surplus | 9passthrough/virtualfs.go:655-660 | once the offset is past all listed children it exceeds their number if a skipped child came before a listed one |
| DirectoryPaging.SkippedChildIsRepeated | 9passthrough/virtualfs.go:642-666 | a listing on which a skipped first child makes the second one appear twice |
| DirectoryPaging.ReorderingLosesChild | 9passthrough/virtualfs.go:641-645 | two orders of the same two children on two calls repeat one and lose the other |
| DirectoryReading.ReadDirectory | guest/9pfuse/client.go:254-275 | the client loop over VirtualFile.Readdir terminates; every page it received was cut from a listing of that directory, and the two errors occur exactly for a hidden directory and a failing host read |
| DirectoryReading.HostDirectoryRead | 9passthrough/virtualfs.go:604-638 | what that loop returns for an exposed directory is every host entry, once, in order, with its own name, QID and kind and the offset that follows it |
| DirectoryReading.VirtualDirectoryRead | 9passthrough/virtualfs.go:640-684 | what it returns for a virtual directory whose first answer holds all its children is every name that leads to something exposed, once |
| RepositoryCopy.DestinationTestExact | internal/git/copy.go:107-113 | the test on the relative path accepts exactly the destinations outside the source or strictly below its .homura |
| RepositoryCopy.FileSystem.CopyRepository | internal/git/copy.go:13-144 | succeeds if and only if git accepts, .git is a readable directory without links or alternates, the destination is outside the source or strictly below its .homura, its place is free in a directory, no copied entry is a second .git, special, unreadable or a link in .git, and the checkout succeeds; on success the tree differs only below the destination, which holds what the checkout makes of the filtered source; on any failure the tree is unchanged |
| RepositoryCopy.FileSystem.InspectMetadata | internal/git/copy.go:30-47 | accepts exactly a .git directory that is readable and free of links everywhere, worktrees included, and has no alternates |
| RepositoryCopy.FileSystem.Transfer | internal/git/copy.go:114-134 | the new destination holds exactly the filtered source and nothing else changed, or the tree is as before; the former if and only if the place is free and the tree copy accepts |
| RepositoryCopy.FileSystem.CopyEntry | internal/git/copy.go:146-204 | terminates even when the destination lies below the source; succeeds if and only if no included entry at or below this one is a second .git, a link below .git, special or unreadable; nothing outside its target changes, and on success the target is an exact copy |
| RepositoryCopy.FileSystem.CopyDir | internal/git/copy.go:159-186 | a directory and its included entries are copied with contents, links and final modes; a failure in any entry fails it |
| RepositoryCopy.FileSystem.CopyFile | internal/git/copy.go:187-200 | a file is copied with content and mode unless it cannot be read, which leaves its siblings alone |
| RepositoryCopy.CopyPointwise | internal/git/copy.go:107-204 | at every place below the destination the copy holds what the source held there unless that is in .homura or .git/worktrees, everything else is as before, and so is every copied entry of the source |
| RepositoryCopy.CopyIsFiltered | internal/git/copy.go:146-204 | the finished copy, read by relative path, equals the source without .homura and .git/worktrees |
| RepositoryCopy.AcceptableMeans | internal/git/copy.go:146-204 | what stops the tree copy, place by place: outside .homura and .git/worktrees, only a .git that is not the own one, a special or unreadable entry, or a link within .git |
| RepositoryCopy.FilteredAt | internal/git/copy.go:168-184 | the filtered source holds exactly the entries outside .homura and .git/worktrees, as they are |
| RequestQueue.DecimalInjective | 9passthrough/requests.go:65-69 | two counter values never print the same id |
| RequestQueue.DecimalDigits | 9passthrough/requests.go:65-69 | an id is the decimal digits of the counter, most significant first, without leading zeros |
| RequestQueue.FreshId | 9passthrough/requests.go:65-88 | the next id is not in use, so Create overwrites no request |
| RequestQueue.QueueOkKept | 9passthrough/requests.go:71-172 | every operation keeps the invariant: a pending request has an empty open channel, an approved one never a denial in it, a denied one never an approval |
| RequestQueue.RequestQueue.Create | 9passthrough/requests.go:71-88 | adds one pending request with the given path, mode and pid, a new id and a new open empty channel, and keeps all others |
| RequestQueue.RequestQueue.Approve | 9passthrough/requests.go:114-134 | unknown and resolved ids are refused without effect; a pending request becomes approved and its result is sent, which can neither block nor hit a closed channel |
| RequestQueue.RequestQueue.Deny | 9passthrough/requests.go:136-158 | the same with a denial and its reason; no other request changes |
| RequestQueue.RequestQueue.CloseAll | 9passthrough/requests.go:160-172 | every pending request is denied with "Server shutdown" and its channel closed, once; every resolved one stays as it is |
| RequestQueue.RequestQueue.Await | 9passthrough/requests.go:37-48 | a receive returns the oldest sent result, or a bare denial from a closed channel, and touches no other request |
| RequestQueue.RequestQueue.List | 9passthrough/requests.go:99-112 | exactly the pending requests |
| RequestQueue.PathRequest.Wait | 9passthrough/requests.go:37-48 | returns the sent result, which it takes out of the channel, or the zero result of a closed one, or, if the context is cancelled, a denial that leaves the channel alone |
| ApprovalProtocol.InvNext | 9passthrough/control.go:448-470 | every step of handlers, operators and shutdown keeps: each waiting handler owns one request, is ready exactly when it is resolved, and every call made for a request is authorised and the only one |
| ApprovalProtocol.ResolveNeverBlocks | 9passthrough/requests.go:114-158 | in every run, whenever a resolve is possible its channel has room and is open |
| ApprovalProtocol.WakesWhenResolved | 9passthrough/requests.go:37-48 | in every run, a waiting handler can go on if and only if its request is no longer pending |
| ApprovalProtocol.WaitTellsTheDecision | 9passthrough/requests.go:37-48 | in every run, Wait reports an approval if and only if the request was approved, and a denial with its reason or, on shutdown, none |
| ApprovalProtocol.DecisionsAreFinal | 9passthrough/requests.go:114-172 | between any two points of a run requests keep path and mode, and a resolved one its status |
| ApprovalProtocol.IdsNeverReused | 9passthrough/requests.go:65-88 | in every run, a new request takes no other request's place |
| ApprovalProtocol.ApprovalHappened | 9passthrough/control.go:525-566 | in every run, an approved request got its id from the event that asked for just its path and mode, and a later approval of that id found it pending |
| ApprovalProtocol.ExposureNeedsApproval | 9passthrough/control.go:448-470 | in every run, whatever path is exposed, with whatever mode, was put there by an operator, or by the call of a request whose id was given to an event asking for just that path and mode, was approved later while pending, and called later still; no request makes two registry calls |
| ApprovalProtocol.CallHasHistory | 9passthrough/control.go:448-470 | every registry call made for a request has that history: asked, then approved, then called, with one id, path and mode |
| ApprovalProtocol.CalledIffFinished | 9passthrough/control.go:448-470 | in every run, a request has made its registry call if and only if it is approved and its handler is done |
| ApprovalProtocol.CallExposesIff | 9passthrough/control.go:466-476 | that call exposes the path if and only if the path is absolute and exists on the host at that moment, and else changes nothing |
| ApprovalProtocol.ApprovalLeadsToExposure | 9passthrough/control.go:456-476 | from any point of a run, approving a pending request lets its waiting handler receive and then call, and that call exposes the path with its mode if it is absolute and on the host, and changes nothing otherwise |
| ApprovalProtocol.DenialEndsIt | 9passthrough/control.go:481-489 | denying a pending request lets its handler receive that reason, or "Denied by user", and finish without a registry call |
| ApprovalProtocol.ShutdownReleasesAll | 9passthrough/main.go:154-161 | after shutdown no request is pending, every waiting handler can go on, and one whose request was still pending finishes without a registry call |
| ApprovalProtocol.ApprovedNotExposed | 9passthrough/control.go:557-563 | a run after which a request is approved, and reported as exposed, while nothing is exposed |
| ApprovalProtocol.ApprovedNeverExposed | 9passthrough/control.go:466-476 | a run after which the handler of an approved request is done and nothing is exposed |
| IdleDaemon.Server.constructor | internal/daemon/server.go:68-153 | the server starts with no VM, nothing in flight and the first timer armed |
| IdleDaemon.Server.UpdateIdleLocked | internal/daemon/server.go:191-203 | afterwards the timer is armed exactly when the server is idle; an armed one is kept, a new one has a number of its own |
| IdleDaemon.Server.OnIdleFire | internal/daemon/server.go:205-213 | whichever timer fired, the listener ends up closed if and only if it was, or no VM is registered and nothing is in flight now; all else stays |
| IdleDaemon.Server.TriggerExit | internal/daemon/server.go:171-178 | closes the listener and touches nothing else |
| IdleDaemon.Server.Enter | internal/daemon/server.go:215-223 | counts the connection, after which no timer is armed |
| IdleDaemon.Server.Leave | internal/daemon/server.go:223-230 | uncounts the connection, after which the timer is armed exactly when idle |
| IdleDaemon.Server.Register | internal/daemon/server.go:319-335 | enters the VM under its slot, after which no timer is armed |
| IdleDaemon.Server.Deregister | internal/daemon/server.go:368-371 | deletes the slot, whichever VM is there, after which the timer is armed exactly when idle |
| DaemonProtocol.InvNext | internal/daemon/server.go:191-373 | every critical section keeps: the counter is the number of live handlers, the timer is armed exactly when idle, an expired timer has its callback pending or led to an exit, handlers and held VMs match, and no two live VMs share a slot |
| DaemonProtocol.ArmedIffIdle | internal/daemon/server.go:191-203 | in every interleaving, the timer is armed if and only if no VM is registered and no handler is counted, and the counter is exact |
| DaemonProtocol.AccountedNext | internal/daemon/server.go:356-371 | a step keeps every registered VM in the map if and only if it does not register over an existing entry |
| DaemonProtocol.AccountedIffNoReuse | internal/daemon/server.go:319-371 | every VM is accounted for throughout a run if and only if no start re-registers a slot that is still in the map |
| DaemonProtocol.ReuseOnlyInWindow | internal/daemon/server.go:356-371 | such a registration can only fall between supervise's cleanup and its delete |
| DaemonProtocol.IdleMeansNoVm | internal/daemon/server.go:205-213 | without slot reuse, when the server is idle every VM that was ever started is deregistered |
| DaemonProtocol.IdleLeadsToExit | internal/daemon/server.go:191-213 | an idle server always has its timer running, its callback due or its exit decided |
| DaemonProtocol.ClosedOnlyAfterIdle | internal/daemon/server.go:171-213 | without a shutdown request the listener is closed only after a callback saw the idle state under the lock; without slot reuse no VM existed at that moment |
| DaemonProtocol.ClosedForGood | internal/daemon/server.go:171-189 | the listener is closed if and only if an exit or a shutdown has happened, and no connection is accepted from then on |
| DaemonProtocol.IdleUntilEnter | internal/daemon/server.go:215-230 | from an idle state on, the server stays idle until a further connection is counted |
| DaemonProtocol.StaysIdleIffNoEnter | internal/daemon/server.go:205-230 | from any idle state on, the server stays idle if and only if no connection is counted |
| DaemonProtocol.NoVmUntilEnter | internal/daemon/server.go:205-230 | from an idle state without slot reuse on, as long as no connection is counted no VM exists, in particular when the listener is closed |
| DaemonProtocol.LateCallbackIffEntered | internal/daemon/server.go:193-213 | a callback that finds the server idle belongs to an earlier timer than the armed one if and only if a connection was counted since that timer expired |
| DaemonProtocol.LateCallbackDecides | internal/daemon/server.go:193-213 | a run in which the callback of a timer stopped too late decides the exit before the new timer has expired |
| DaemonProtocol.ReusedSlotIsForgotten | internal/daemon/server.go:358-371 | a run in which a VM starts in a freed slot, the late delete takes it off the books, and the daemon exits while it runs |
| DaemonProtocol.StartDuringIdleExit | internal/daemon/server.go:205-213 | a run without slot reuse in which a connection accepted between the idle test and the closing of the listener starts a VM |
| Bytes.FixedWidth | 9passthrough/protocol.go:90-93 | four- and eight-byte little-endian integers are inverse both ways |
| Bytes.ShiftedBytes | 9passthrough/protocol.go:141-146 | the eight bytes put for a number, written out, least significant first |
| Bytes.EightBytes | 9passthrough/protocol.go:157-166 | the number that eight bytes stand for, from its two halves |
| Bytes.FourBytes | 9passthrough/protocol.go:88-90 | the number that four bytes stand for, written out |
| Framing.Stream.WriteMessage | 9passthrough/protocol.go:113-134 | appends exactly one frame |
| Framing.Stream.ReadMessage | 9passthrough/protocol.go:83-111 | reads the first frame of the stream or reports why there is none, and leaves what follows it |
| Framing.Stream.Exchange | 9passthrough/protocol.go:83-134 | any list of sendable messages, written one after the other and read back, comes back whole and in order, and every byte is consumed |
| Framing.RoundTrip | 9passthrough/protocol.go:83-134 | a frame followed by anything is read back as its message and that rest if and only if it has at most 16 MiB with its type byte, or exactly 2^32 bytes, whose length wraps to 0 |
| Framing.ReadFrameExact | 9passthrough/protocol.go:83-111 | whatever is read was framed just so, whatever the length field was |
| Framing.FrameLayout | 9passthrough/protocol.go:113-134 | a frame byte by byte: the 32-bit length of what follows, least significant byte first, the type, the data |
| Framing.ReadFrameMeans | 9passthrough/protocol.go:83-111 | what the reader makes of any bytes: more than 16777216 announced is refused on the four length bytes alone, else the message is read if its type byte and all its data are there |
| Framing.ZeroLength | 9passthrough/protocol.go:92-108 | after a length field of 0 the reader takes the next 2^32 - 1 bytes, whatever they are, for data, or fails if there are fewer |
| Records.RegisterRoundTrip | 9passthrough/protocol.go:138-169 | decoding an encoded register request gives it back, whatever follows it |
| Records.RegisterLayout | 9passthrough/protocol.go:138-149 | path length, path, length and flags stand in this order, with these widths |
| Records.RegisterDecodes | 9passthrough/protocol.go:152-169 | says for all bytes when the decoder accepts, when its 32-bit sum wraps and it panics, and that an accepted record re-encodes to the bytes it was read from |
| Records.RegisterSumWraps | 9passthrough/protocol.go:157-163 | four bytes on which the checked sum wraps to 0 and the decoder panics |
| Records.TailRoundTrip | 9passthrough/protocol.go:211-263 | a header, a length and a payload are read back, whatever follows them |
| Records.TailDecodes | 9passthrough/protocol.go:220-234 | says when a payload is accepted, when its end wraps and the decoder panics, and that re-encoding gives the bytes back |
| Records.TailEndWraps | 9passthrough/protocol.go:226-232 | four bytes on which the end of the payload wraps and the decoder panics |
| Records.BulkReadRoundTrip | 9passthrough/protocol.go:211-234 | decoding an encoded bulk read response gives its data back |
| Records.BulkReadDecodes | 9passthrough/protocol.go:220-234 | says for all bytes when a bulk read response is accepted and when the decoder panics; an accepted one re-encodes to the leading bytes |
| Records.WriteRoundTrip | 9passthrough/protocol.go:236-263 | decoding an encoded write request gives it back |
| Records.WriteLayout | 9passthrough/protocol.go:236-245 | mapping id, offset, payload length and payload stand in this order, with these widths |
| Records.WriteDecodes | 9passthrough/protocol.go:247-263 | says for all bytes when a write request is accepted and when the decoder panics; an accepted one re-encodes to the leading bytes |
| Records.ErrorRoundTrip | 9passthrough/protocol.go:323-348 | decoding an encoded error response gives it back |
| Records.ErrorDecodes | 9passthrough/protocol.go:333-348 | says for all bytes when an error response is accepted and when the decoder panics; an accepted one re-encodes to the leading bytes |
| Records.RangeRoundTrip | 9passthrough/protocol.go:189-209 | decoding an encoded bulk read request or notification gives it back |
| Records.RangeLayout | 9passthrough/protocol.go:189-195 | mapping id, offset and length stand in this order |
| Records.RangeDecodes | 9passthrough/protocol.go:198-209 | 24 bytes are accepted, fewer are not, and what is accepted re-encodes to the bytes it was read from |
| Records.EncodeMmapRegisterRequest | 9passthrough/protocol.go:138-149 | filling the buffer in place produces the encoding that the decoder inverts |
| Records.EncodeMmapWriteRequest | 9passthrough/protocol.go:236-245 | filling the buffer in place produces the encoding that the decoder inverts |
| Records.GuestEncodeUnregister | guest/9pfuse/mmap.go:195-209 | the bytes shifted out by hand are what the host reads as the same id |
| EventWriter.SplitUnique | internal/daemon/server.go:503-516 | the newline split of a stream is unique |
| EventWriter.EventWriter.Write | internal/daemon/server.go:503-516 | at every point the emitted lines, their newlines and the buffer are exactly the input so far; no emitted line or buffer holds a newline, and nothing emitted is taken back |
| EventWriter.EventWriter.Flush | internal/daemon/server.go:518-526 | what has been emitted is the newline split of the input, with its unterminated end as last line unless empty |
| EventWriter.EventWriter.WriteAll | internal/daemon/server.go:503-526 | however a stream is cut into writes, the emitted lines are those of the whole stream |
| RemoteCommand.LexShellQuote | internal/commands/vm_run.go:17-19 | the shell reads a quoted string as just that text, in any context outside quotes |
| RemoteCommand.EscapeLaws | internal/commands/vm_run.go:17-19 | escaping replaces every single quote by four characters and leaves everything else |
| RemoteCommand.LexQuotes | internal/commands/vm_run.go:17-19 | the lexer reads a quoted text without quotes as itself and an escaped quote as a quote |
| RemoteCommand.LexWords | internal/commands/vm_run.go:17-60 | the shell reads any list of strings, quoted and joined by blanks, as exactly that list of words |
| RemoteCommand.LexRemoteCmd | internal/commands/vm_run.go:47-60 | the command line is read as cd with one argument and, after &&, exactly the given words |
| RemoteCommand.BuildRemoteCmd | internal/commands/vm_run.go:47-60 | the built line is read by the shell as that argv, for every directory and every argument list |
| GuestPaths.ParsePath | guest/9pfuse/client.go:672-706 | the loop collects the non-empty parts between slashes, each byte widened to the character of that number |
| GuestPaths.Utf8Decodes | guest/9pfuse/client.go:698-698 | what is appended for a byte is what UTF-8 decodes to the character of that number |
| GuestPaths.SlashesMerge | guest/9pfuse/client.go:688-704 | doubled slashes count as one and a trailing one as none |
| GuestPaths.ParsesBackIffAscii | guest/9pfuse/client.go:672-706 | a path is parsed back into its names if and only if it is plain ASCII |
| GuestPaths.ParsesToWidened | guest/9pfuse/client.go:672-706 | a printed path is parsed into its names with every byte beyond ASCII widened |
| GuestPaths.WalkKeepsOrder | guest/9pfuse/client.go:672-706 | widening identifies no two paths and keeps which lies below which |
| GuestPaths.NonAsciiIsWidened | guest/9pfuse/client.go:698-698 | the name é, two bytes, is parsed into four |
| AttrCache.AttrCache.Get | guest/9pfuse/attrcache.go:30-50 | hits exactly an unexpired entry, and removes an expired one |
| AttrCache.AttrCache.Put | guest/9pfuse/attrcache.go:52-61 | stores the attribute for ttl from now on, and keeps all else |
| AttrCache.AttrCache.Invalidate | guest/9pfuse/attrcache.go:80-85 | removes that entry and no other |
| AttrCache.AttrCache.Cleanup | guest/9pfuse/attrcache.go:112-122 | removes exactly the expired entries, and no later lookup can tell the difference |
| AttrCache.InvalidatePrefix | guest/9pfuse/attrcache.go:87-96 | removes exactly the keys that begin with the prefix, as text |
| ServerFs.RenamedAt | guest/9pfuse/client.go:452-490 | what a host rename leaves at every path |
| ServerFs.RenameKeeps | guest/9pfuse/client.go:452-490 | a host rename keeps the tree a tree |
| ServerFs.CanRenameMeans | guest/9pfuse/client.go:452-490 | when a host rename moves something: files over files, directories over empty directories, nothing below itself |
| GuestCache.HitIsCurrent | guest/9pfuse/client.go:160-192 | in a coherent state a hit on a regular file is what the host would answer where the client walks to |
| GuestCache.OrdinaryKeepsCoherent | guest/9pfuse/client.go:160-560 | every operation but removal, rename and write, carried out or refused, leaves only entries that are up to date |
| GuestCache.UnlinkKeepsCoherentIff | guest/9pfuse/client.go:426-450 | a removal does so if and only if what it removes is not cached under another key |
| GuestCache.WriteKeepsCoherentIff | guest/9pfuse/fuse.go:481-496 | a write does so if and only if it does not change the size of a file that is cached under a name other than the one it was opened under |
| GuestCache.RenameKeepsCoherentIff | guest/9pfuse/client.go:452-490 | a rename does so if and only if nothing that it moves is cached under a key that is not invalidated, nor a file that it replaces by one with other attributes |
| GuestCache.CoherentIffNoUnsafe | guest/9pfuse/client.go:160-560 | over a whole run without changes behind the guest's back every entry is up to date throughout if and only if none of its steps is one of these |
| GuestCache.AsciiRename | guest/9pfuse/client.go:452-490 | between ASCII paths a rename goes wrong if and only if something is cached strictly below what it moves |
| GuestCache.AsciiUnlink | guest/9pfuse/client.go:426-450 | the removal of an ASCII path never goes wrong |
| GuestCache.HitsAreCurrent | guest/9pfuse/client.go:160-192 | after a run without such a step a hit on a regular file is exactly what the host would answer |
| GuestCache.HitsAreRecent | guest/9pfuse/attrcache.go:30-61 | whatever changes on the host, a hit is what the host said at some moment at most ttl ago |
| GuestCache.StaleAfterDirectoryRename | guest/9pfuse/client.go:455-458 | a run in which attributes stay cached under a name that a directory rename removed |
| GuestCache.StaleAfterOpenFileRename | guest/9pfuse/fuse.go:481-496 | a run in which a write through a handle opened under the old name leaves the new name stale |
| GuestCache.StaleAfterNonAsciiRename | guest/9pfuse/client.go:452-490 | a run in which a file cached under the name é is replaced under the name that é is walked to, and stays cached |
| GuestClient.P9Client.GetAttr | guest/9pfuse/client.go:160-192 | returns the unexpired hit, or else what the host answers where the path is walked to, which it caches; the client's whole state follows the transition that the run results are about |
| GuestClient.P9Client.Readdir | guest/9pfuse/client.go:239-285 | returns each name of the directory walked to exactly once; every listed name that was not a hit is cached with what the host answers, if it answers, and every other entry stays |
| GuestClient.ReadNames | guest/9pfuse/client.go:254-275 | the paging loop returns each name of the directory exactly once |
| GuestClient.FetchedAll | guest/9pfuse/client.go:287-337 | in whatever order the entries are asked for, the cache is the same in the end |
| GuestClient.P9Client.Prefetch | guest/9pfuse/client.go:287-337 | an entry that is not cached is asked for and stored if it answers |
| GuestClient.P9Client.Create | guest/9pfuse/client.go:339-373 | invalidates the parent and nothing else; a file is created and opened if and only if the host accepts, the directory exists and the name is free |
| GuestClient.P9Client.Mkdir | guest/9pfuse/client.go:400-424 | invalidates the parent and nothing else; the directory is created under the same condition |
| GuestClient.P9Client.Unlink | guest/9pfuse/client.go:426-450 | invalidates the path and its parent and nothing else, whether or not the host then removes the file or empty directory |
| GuestClient.P9Client.Rename | guest/9pfuse/client.go:452-490 | invalidates the two paths and their parents and nothing else, whether or not the host then renames; where it does, every path is where it should be |
| GuestClient.P9Client.Truncate | guest/9pfuse/client.go:492-504 | invalidates before the host changes the size; reports whether it did |
| GuestClient.P9Client.Chmod | guest/9pfuse/client.go:506-517 | invalidates before the host changes the mode; reports whether it did |
| GuestClient.P9Client.OpenForWrite | guest/9pfuse/fuse.go:99-129 | invalidates, then opens the file under that path |
| GuestClient.P9Client.Write | guest/9pfuse/fuse.go:481-496 | invalidates the handle's path before the host writes through its inode |
| GuestClient.P9Client.Chown | guest/9pfuse/client.go:519-540 | changes the owner and no cache entry, which is right only because its caller has invalidated the path |
| GuestClient.P9Client.Utimens | guest/9pfuse/client.go:542-559 | the same for the times |
| GuestClient.P9Client.Setattr | guest/9pfuse/fuse.go:283-326 | keeps coherence; succeeds if and only if the file is there, truncate and chmod succeed if requested, and the final read does; then it reports the attributes with just the changes made, a failed chown or utimens left out; no other path is affected |

## Left out

Not modelled, because it is not logic of the parts above:

- VM boot, image building, QEMU, passt, virtiofsd, the SQLite state, vm.lua, the CLI and its argument splitting, terminal attach.
- JSON, sockets, HTTP, desktop notifications, logging, the p9 and go-fuse libraries, host mmap and inotify.
- The remaining file operations of `VirtualFile` (open, read, write, create, remove, extended attributes): each is one host call
  behind the visibility and mode checks proved here.

Simplifications of what is modelled:

- PathRegistry.PathRegistry.AddPath: whether `os.Stat` finds the path is an argument; each registry call is atomic, as under its mutex; a nil map is an empty map.
- VirtualFs.VirtualFile.Walk: `Lstat` is one function for the whole call, so host changes during a walk are not modelled; a virtual QID is identified by its path instead of its FNV hash.
- VirtualFs.VirtualFile.Readdir: attributes other than kind, inode and time stamp are not part of this model.
- DirectoryPaging.ReadAll: all listings of one directory have the same length, as they do when the exposed set and the host directory do not change during the loop.
- DirectoryReading.ReadDirectory: `Lstat` and the host directory answer the same on every call.
- RepositoryCopy.FileSystem.CopyRepository: the git commands that inspect the source are one flag and the checkout one function of the copied tree; `RemoveAll` does not fail; permission checks, hard links and times are not part of this model; paths are component sequences, so symbolic links in the path of the source or the destination are not resolved.
- RepositoryCopy.FileSystem.CopyFile: read and write errors are one fault per source entry, which leaves a prefix of the content behind.
- RepositoryCopy.FileSystem.CopyDir: entries are visited in an arbitrary order instead of by name; the proof holds for every order.
- RequestQueue.RequestQueue.Create: the creation time is not part of this model.
- ApprovalProtocol.InvNext: handlers wait with a context that is never cancelled, as in the source; liveness of the operator is not assumed; a request may stay pending for ever.
- DaemonProtocol.InvNext: timers have an order but no durations; a start that fails before a VM runs has no effect on the server's state; stop-vm requests only lead to the exit of a VM and are covered by that event; the mutex around starts is not used.
- IdleDaemon.Server.Register: a VM is a number; its process, lock and console files are not part of this model.
- Framing.Stream.ReadMessage: the kinds of I/O error are one; memory limits are not modelled.
- Records.RegisterDecodes: slices have no spare capacity beyond their length, so that an end past the length is a panic.
- Records.GuestEncodeUnregister: the records of one 64-bit field follow from `FixedWidth` and would only add easy members.
- EventWriter.EventWriter.Write: write errors of log frames and JSON escaping are not part of this model; lines emitted after the last flush are not either.
- RemoteCommand.BuildRemoteCmd: the lexer follows quoting, escapes, blanks and `&&`, and refuses every other unquoted character with a meaning to the shell; the built line needs none.
- GuestPaths.ParsePath: the first byte is dropped whatever it is, as in the code; a single `/` and the empty path give no names.
- GuestCache.OrdinaryKeepsCoherent: paths are sequences of byte strings; hard links, links to directories and the operations that make links are left out; the attribute is kind, mode, size, owner, and the times that were last set explicitly, so the times that reads and writes set are not part of it.
- GuestClient.P9Client.Readdir: the directory is an exposed one, which lists all its entries in one order; DirectoryReading has the others.
- GuestClient.P9Client.Prefetch: the eight concurrent requests are taken one at a time; `FetchedAll` shows that the order does not matter.
- GuestClient.P9Client.Create: fids do not wrap at 2^32.
- GuestCache.HitsAreCurrent: of directories only the kind is covered, because their size changes with their entries on the host; "current" means what the host would answer at the path that the client walks to.
