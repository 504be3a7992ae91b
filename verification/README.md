# Verified model of rumpelpod's core

Rumpelpod runs development pods for coding agents. A daemon on the host starts, stops,
forks and deletes pods; a client talks to it; each pod pushes its work back through git.
This project models the parts of rumpelpod that are hardest to get right and proves what
they promise:

- the per-pod lifecycle lock of the daemon, as a transition system over startup tasks,
  queued requests, deletes and lock objects, with safety proved for every interleaving
  (`Lifecycle*.dfy`);
- the canonical byte encodings behind the image cache fingerprints, proved uniquely
  decodable (`JsonFingerprint.dfy`, `ServiceFingerprint.dfy`, `ContextFingerprint.dfy`);
- variable substitution in `devcontainer.json`: the in-place loop, the copying scanner,
  the name collector and the two-pass use, proved to agree, and what every variable and
  every other text becomes (`Substitution*.dfy`);
- the exec wire protocol: frame codec, output and input loops, and the session of client,
  daemon and pod under lost messages (`Exec*.dfy`);
- the compose start set, host port allocation, the SSH agent list, managed git hooks,
  Bash colon words, chunked line emission and pod ref naming (one file each).

`Wrappers.dfy` and `Bytes.dfy` hold what several of them share. Loops and objects of the source are methods
and classes here, each proved against a specification function; the theorems are about
those functions, and where a helper serves a method and its specification alike, a theorem
says what it means without naming it. `dafny verify dfyconfig.toml` checks everything.

## What the proofs brought to light

- **Substitution can panic.** `substitute_vars` steps one byte at a time and slices there,
  so a multi-byte character in literal text panics. The model has the panic as `None` and
  states exactly when it happens. `resolve_devcontainer_vars` substitutes the workspace
  folder twice, so a checkout path with a non-ASCII character is literal text for the
  second pass and panics (`SubstitutionPasses.NonAsciiFolderPanics`).
- **Two passes are not always one pass.** They are when the first pass forms no reference
  (`SubstitutionPasses.TwoPasses`). An empty replacement between `$` and `{`, or one that
  starts with `{` behind a `$`, forms one, and an environment value that holds `${...}` is
  resolved by the second pass (`SubstitutionPasses.EmptyReplacementSplices`,
  `BraceReplacementSplices`, `ReferenceReplacementRescanned`).
- **A pod's own ports can collide on reconnect.** `setup_port_forwarding_async` does not
  reserve the saved ports of rows it has not reached, while `local_port` has a unique
  index. When another process took one row's saved port and its container port is a later
  row's saved port, the pass fails (`PortForwarding.ReclaimCollision`). Listeners matching
  rows is therefore proved for passes that complete, and `PortForwarding.Reconnect` says
  exactly when that is: every row finds a port, one that moves is recorded neither by
  another pod nor by a row still to come, and its row shares its service and container
  port with no other. A repeated `forwardPorts` entry breaks the last condition: the update
  of a moved port hits both rows and the index refuses it (`PortForwarding.SharedKeyFails`).
- **`cp pod: path` completes as `cp pod:path`.** Operands that end in a colon are not
  recovered from Bash's split (`ColonWords.TrailingColon`); `ColonWords.MergeUndoesSplit`
  says exactly which are.
- **Reinstalling a hook is not always a fixed point.** A user line that ends in two
  carriage returns and a newline loses one of them per pass
  (`HostHooks.ReinstallChanges`). `HostHooks.ReinstallIff` gives the exact condition on the
  hook; plain `\n` and `\r\n` line ends meet it.
- **The empty variable name is looked up but never collected**, so the collected names
  decide the result exactly for maps that agree at that name (`Substitution.NamesExact`).
- The comment above `rewrite_upstream` gives the form `rumpelpod/<pod>@<branch>`; the code
  reads `rumpelpod/<branch>@<pod>`, and so does the model.

## Model

| member | source | states |
|---|---|---|
| LifecycleInvariant.StepKeepsInv | rumpelpod/src/daemon.rs:546-806 | every atomic step of callers, tasks, requests and deletes keeps the invariant: weak map, lease holder, task ids, owner, registry, drained sets, accounting of live tasks, counters |
| LifecycleRuns.RunKeepsInv | rumpelpod/src/daemon.rs:546-806 | the invariant holds in every state of every run from a daemon with no locks |
| LifecycleRuns.MutualExclusion | rumpelpod/src/daemon.rs:632-712 | two startup bodies, stop guards or delete guards of one (repository, pod) never overlap, even across lock objects |
| LifecycleRuns.LeaseKeepsLock | rumpelpod/src/daemon.rs:794-806 | while a lease is held, `for_pod` returns that same lock object and creates none |
| LifecycleRuns.ForPodExact | rumpelpod/src/daemon.rs:794-806 | in every run `for_pod` returns the lock some actor still refers to and changes no lock, and otherwise, exactly when nobody refers to one, a new lock in its first state; afterwards every entry of the weak map has a live reference |
| LifecycleRuns.LivePartition | rumpelpod/src/daemon.rs:583-760 | live tasks are the disjoint union of registered ones, the one being spawned, and those drained by a delete in flight; no task is drained twice |
| LifecycleRuns.GuardAfterDrain | rumpelpod/src/daemon.rs:725-760 | a delete past its wait has outlived every task it drained |
| LifecycleRuns.RunPersists | rumpelpod/src/daemon.rs:546-806 | over any stretch of a run an actor keeps its kind and lock, a request keeps its generation, a finished task stays finished and a drained one never returns to the registry |
| LifecycleRuns.DeletesLeaveNothing | rumpelpod/src/daemon.rs:725-792 | once `deleting` is back to 0, no task that existed when a delete registered is live |
| LifecycleRuns.GenerationRun | rumpelpod/src/daemon.rs:725-730 | the generation never decreases, and stays equal over a stretch exactly when no delete registered in it |
| LifecycleRuns.GrantedIffUndisturbed | rumpelpod/src/daemon.rs:648-783 | a queued request that reaches its re-check gets a guard exactly when no delete registered in between, and is refused otherwise |
| LifecycleRuns.DeleteCounters | rumpelpod/src/daemon.rs:559-792 | `generation` counts the deletes ever registered, `deleting` those between registration and guard drop and never underflows; `tasks` is empty while it is positive |
| LifecycleRuns.AlwaysSignalled | rumpelpod/src/daemon.rs:575-755 | an awaited task whose completion is gone has signalled `done`, so the `expect` in the delete wait cannot fire |
| LifecycleRuns.OwnerRuns | rumpelpod/src/daemon.rs:583-721 | task ids are unique per lock, and `owner` names the task whose body runs although leases drop before completions |
| LifecycleRuns.NoDeadlock | rumpelpod/src/daemon.rs:546-806 | in every run, while anybody refers to a lock, one of its actors can take a step |
| LifecycleRuns.AlwaysPossible | rumpelpod/src/daemon.rs:648-760 | with `state` free a delete can always be started and a request or task exactly when no delete is in flight; waiting can be abandoned and a task aborted at any time |
| LifecycleLock.PodLifecycleLock.Queue | rumpelpod/src/daemon.rs:648-657 | the object's `queue` is the queue step of the transition system and fails exactly when that step is disabled |
| LifecycleLock.PodLifecycleLock.SpawnStart | rumpelpod/src/daemon.rs:659-688 | `spawn` up to the runtime's spawn is the first spawn step, refused while a delete is in flight |
| LifecycleLock.PodLifecycleLock.SpawnRegister | rumpelpod/src/daemon.rs:714-721 | registering the handle and releasing `state` is the second spawn step |
| LifecycleLock.PodLifecycleLock.Own | rumpelpod/src/daemon.rs:704 | a task with the lease in hand becomes the owner |
| LifecycleLock.PodLifecycleLock.Complete | rumpelpod/src/daemon.rs:583-597 | dropping a completion leaves the registry and gives up ownership, as the completion step says |
| LifecycleLock.PodLifecycleLock.RegisterDelete | rumpelpod/src/daemon.rs:725-735 | the first section of a delete drains exactly the registered tasks and bumps both counters |
| LifecycleLock.PodLifecycleLock.Recheck | rumpelpod/src/daemon.rs:775-782 | the re-check grants or refuses as the step of the transition system |
| LifecycleLock.PodLifecycleLock.DropDeleteGuard | rumpelpod/src/daemon.rs:786-792 | in every state with the invariant the decrement does not underflow |
| Bytes.SortKeys | rumpelpod/src/compose.rs:735-736 | the keys of a map in the one sorted order, whatever order they are taken in |
| Bytes.LittleEndianAt | rumpelpod/src/compose.rs:717-729 | byte i of `to_le_bytes` is the i-th digit to base 256, low byte first |
| Bytes.BigEndianAt | rumpelpod/src/exec_stream.rs:95-110 | byte i from the end of `to_be_bytes` is the i-th digit to base 256 |
| Bytes.LessIff | rumpelpod/src/compose.rs:735-736 | keys sort by their first differing byte, prefixes first |
| JsonFingerprint.HashJsonValue | rumpelpod/src/compose.rs:707-743 | the hasher is fed exactly the canonical encoding of the value |
| JsonFingerprint.HashItems | rumpelpod/src/compose.rs:725-731 | the array loop feeds the encodings of the items in order |
| JsonFingerprint.HashFields | rumpelpod/src/compose.rs:732-741 | the object loop feeds keys and values in sorted key order |
| JsonFingerprint.PrefixFree | rumpelpod/src/compose.rs:707-743 | the encoding is injective and prefix-free: value and following bytes are determined |
| JsonFingerprint.ValueFormat | rumpelpod/src/compose.rs:707-743 | the word, length and payload every kind of value feeds |
| ServiceFingerprint.HashServices | rumpelpod/src/compose.rs:311-447 | the loop ends as the first service in name order whose build is no object or whose further checks refuse it; otherwise it has fed the domain tag and the section of all built services |
| ServiceFingerprint.HashService | rumpelpod/src/compose.rs:337-342 | one service feeds its name, its build and its optional platform part |
| ServiceFingerprint.SectionFree | rumpelpod/src/compose.rs:331-342 | the section with its optional platform parts determines the services and what follows, before "context", "dockerfile" or the end |
| ServiceFingerprint.SelectedIff | rumpelpod/src/compose.rs:316-342 | a service is hashed exactly when it is an object whose field "build" is present and not null, with that build and the value of its field "platform" if present |
| ServiceFingerprint.SelectedInOrder | rumpelpod/src/compose.rs:325 | the hashed services come in name order |
| ServiceFingerprint.ModelDetermined | rumpelpod/src/compose.rs:311-342 | two compose models feed the same section, before any allowed continuation, exactly when their built services agree in name, build and platform |
| ServiceFingerprint.DomainSpelled | rumpelpod/src/compose.rs:328 | the domain tag in front of the section |
| ServiceFingerprint.TagSpelled | rumpelpod/src/compose.rs:340 | the marker in front of a platform |
| ContextFingerprint.WalkDir | rumpelpod/src/image.rs:743-748 | the walk lists each directory before its contents, by file name |
| ContextFingerprint.HashContextDir | rumpelpod/src/image.rs:743-794 | the hasher is fed the stream of all walked entries, and the call fails exactly on an entry that is no file, directory or symlink |
| ContextFingerprint.WalkedIff | rumpelpod/src/image.rs:744-748 | the walk yields the root and exactly the nodes not at or under a root entry named `.git` |
| ContextFingerprint.WalkInOrder | rumpelpod/src/image.rs:744-746 | every directory comes before its contents and siblings come in byte order |
| ContextFingerprint.OneEntryFormat | rumpelpod/src/image.rs:761-788 | the bytes one entry feeds: path length, path, letter, and mode, lengths, content or target |
| ContextFingerprint.StreamAnywhere | rumpelpod/src/image.rs:743-794 | the stream does not depend on where the context lives |
| ContextFingerprint.StreamFree | rumpelpod/src/image.rs:761-794 | equal streams list equal entries: path, kind, mode, content, target |
| ContextFingerprint.JoinInjective | rumpelpod/src/image.rs:750-763 | the joined relative path determines its components |
| ContextFingerprint.ContextDetermined | rumpelpod/src/image.rs:743-794 | two contexts give equal streams exactly when they agree at every root name other than `.git` |
| Substitution.SubstituteVars | rumpelpod/src/devcontainer.rs:1070-1130 | the in-place loop computes the one left-to-right pass, and panics exactly when a continuation byte stands in scanned literal text |
| SubstitutionLaws.NamedVariables | rumpelpod/src/devcontainer.rs:1122-1129 | each of the five names gives its own value where it is known and stays where it is not, in front of any text |
| SubstitutionLaws.EnvVariable | rumpelpod/src/devcontainer.rs:1108-1120 | `${localEnv:V}` and `${env:V}` give the value of V, else the empty text, and stay when no environment is known |
| SubstitutionLaws.EnvDefault | rumpelpod/src/devcontainer.rs:1108-1139 | with a default behind a second colon the default takes the place of the empty text |
| SubstitutionLaws.OtherKept | rumpelpod/src/devcontainer.rs:1122-1129 | any other reference stays as it is |
| SubstitutionLaws.LiteralThen | rumpelpod/src/devcontainer.rs:1073-1076 | a byte that starts no reference stays, and a continuation byte panics |
| SubstitutionLaws.UnterminatedKept | rumpelpod/src/devcontainer.rs:1079-1081 | a reference without its closing brace ends the scan and stays |
| SubstitutionLaws.RefSpelled | rumpelpod/src/devcontainer.rs:1074 | a reference is `${`, the inner text and `}` |
| SubstitutionLaws.NothingRun | rumpelpod/src/devcontainer.rs:1070-1101 | the empty text stays empty; with the laws above this fixes the result for every text |
| Substitution.Utf8Values | rumpelpod/src/devcontainer.rs:1107-1139 | contexts holding strings resolve every reference to a string, so splices stay on character boundaries |
| Substitution.ResolveLocalEnvFromMap | rumpelpod/src/devcontainer.rs:1269-1304 | the copying loop computes its specification |
| Substitution.CopiedIsSubst | rumpelpod/src/devcontainer.rs:1269-1304 | with only `local_env` known, copying gives the in-place result on every string, and the in-place loop panics exactly where the literal text is not single-byte |
| Substitution.NotRescanned | rumpelpod/src/devcontainer.rs:1088-1098 | a replacement is copied verbatim, whatever references it contains |
| Substitution.CollectLocalEnvVarNames | rumpelpod/src/devcontainer.rs:1242-1264 | the loop collects the names of its specification |
| Substitution.NamesSuffice | rumpelpod/src/devcontainer.rs:1242-1264 | for maps that agree at the empty name the result depends only on the collected names |
| Substitution.NamesExact | rumpelpod/src/devcontainer.rs:1242-1264 | the collected names decide the result of every text exactly when the maps agree at the empty name |
| Substitution.NamesMatter | rumpelpod/src/devcontainer.rs:1242-1264 | every collected name is looked up: a longer value gives a longer text |
| Substitution.EmptyKeyCounts | rumpelpod/src/devcontainer.rs:1254-1257 | any two maps that disagree at the empty name give different results for a text from which no name is collected |
| SubstitutionPasses.TwoPasses | rumpelpod/src/devcontainer.rs:1186-1218 | when the first pass forms no reference (none starts at a literal byte or inside an inserted value, read with what follows it), two passes give the text of one pass with the larger context; the second pass panics exactly when literal text or an inserted value is not single-byte |
| SubstitutionPasses.CleanFormsNone | rumpelpod/src/devcontainer.rs:1186-1218 | replacements that are not empty, do not start with `{` and hold no `$` form no reference in any text |
| SubstitutionPasses.ResolveWorkspaceFolder | rumpelpod/src/devcontainer.rs:1186-1218 | the two calls of `substitute_vars` on any workspace folder: when they panic, what they give, and that this is one pass under the conditions of TwoPasses |
| SubstitutionPasses.NonAsciiFolderPanics | rumpelpod/src/devcontainer.rs:1073-1076 | a checkout path with a multi-byte character survives the first pass and panics in the second |
| SubstitutionPasses.EmptyReplacementSplices | rumpelpod/src/devcontainer.rs:1186-1218 | an empty replacement between `$` and `{` makes two passes differ from one |
| SubstitutionPasses.BraceReplacementSplices | rumpelpod/src/devcontainer.rs:1186-1218 | so does a replacement that starts with `{` behind a `$` |
| SubstitutionPasses.ReferenceReplacementRescanned | rumpelpod/src/devcontainer.rs:1186-1218 | a replacement that holds a reference is resolved again by the second pass |
| ExecStream.Reader.ReadPayload | rumpelpod/src/exec_stream.rs:130-138 | reads a length and that many bytes, fails above the limit or at a short stream |
| ExecStream.Reader.ReadFrame | rumpelpod/src/exec_stream.rs:112-128 | reads one frame and leaves the bytes behind it |
| ExecStream.ParseIff | rumpelpod/src/exec_stream.rs:95-138 | a frame is read exactly from its own encoding of at most 64 KiB payload; accepted frames re-encode to the bytes consumed |
| ExecStream.CutFrame | rumpelpod/src/exec_stream.rs:112-138 | a stream cut inside a frame is an error |
| ExecStream.StreamRoundTrip | rumpelpod/src/exec_stream.rs:95-138 | concatenated encodings read back as the frames and a clean end |
| ExecStream.ReadAllFrames | rumpelpod/src/exec_stream.rs:95-138 | frames in front of any other bytes are read first and leave the rest as it is |
| ExecStream.StreamCut | rumpelpod/src/exec_stream.rs:112-138 | a cut stream reads as the whole frames before the cut and then an error |
| ExecStream.RequestRoundTrip | rumpelpod/src/exec_stream.rs:140-156 | a request can be encoded exactly up to 1 MiB and is read exactly from its own encoding, with the following bytes untouched |
| ExecStream.FrameBytes | rumpelpod/src/exec_stream.rs:76-110 | the tag, length and payload bytes of every frame |
| ExecStream.Utf8Iff | rumpelpod/src/exec_stream.rs:112-128 | the text of an error frame is accepted exactly when it is the UTF-8 encoding of scalar values |
| ExecProtocol.ReadOutput | rumpelpod/src/exec.rs:237-262 | the loop yields the specified output and outcome of the delivered frames |
| ExecProtocol.OutcomeIff | rumpelpod/src/exec.rs:237-262 | for every stream, what is written to stdout and stderr is the data of the leading output frames, and the outcome is decided by what stands behind them: an exit frame, an error frame, a client-side frame, or nothing that can be read |
| ExecProtocol.ForwardStdin | rumpelpod/src/exec.rs:264-278 | the bytes sent read back as one stdin frame per piece and then end of input, up to the frame at which the receiver is gone |
| ExecSession.StepKeepsInv | rumpelpod/src/exec.rs:105-334 | every send, loss, answer, give-up and fallback step keeps the session invariant |
| ExecSession.AtMostOnce | rumpelpod/src/exec.rs:105-334 | under every pattern of losses the command starts at most once; a reported exit code means it started exactly once, through the fallback or with a complete exit frame delivered |
| ExecSession.StreamExits | rumpelpod/src/exec.rs:105-262 | some run reports an exit code from the stream after starting the command once |
| ExecSession.FallbackExits | rumpelpod/src/exec.rs:115-224 | some run reports an exit code from the fallback after a 404 |
| ExecSession.AnswerLost | rumpelpod/src/exec.rs:105-124 | some run starts the command and still reports no exit code, because the answer was lost |
| ExecSession.RequestLost | rumpelpod/src/exec.rs:105-113 | some run starts nothing and reports no exit code, because the request was lost |
| ServiceClosure.PushReferences | rumpelpod/src/compose.rs:586-653 | one service pushes exactly the services its six fields refer to, or fails exactly on a malformed field |
| ServiceClosure.ReferencesIff | rumpelpod/src/compose.rs:578-653 | a service can be read exactly when its six fields are absent, null or of the expected shape; it then refers exactly to the `depends_on` names, the part before the colon of its links and of its non-`container:` volume references, and its `service:` texts |
| ServiceClosure.ServicesStartedWith | rumpelpod/src/compose.rs:569-657 | ends on every graph; the result is the reachable set, which is the least closed set, and all of it exists; it fails exactly when something reachable is missing or malformed |
| ServiceClosure.ReachableLeast | rumpelpod/src/compose.rs:569-657 | reachable services lie in every set closed under references |
| PortForwarding.BindNear | rumpelpod/src/daemon.rs:1980-2000 | the port is the least bindable unreserved one of the range, and the kernel's choice only when the range has none |
| PortForwarding.NearMeaning | rumpelpod/src/daemon.rs:1980-2000 | the same of the specification, from any offset on |
| PortForwarding.NearLiteral | rumpelpod/src/daemon.rs:1980-2000 | of the ten ports from the preferred one on the least free and unreserved one; if none, the port the kernel offers, taken whenever it is free |
| PortForwarding.RebindOrNear | rumpelpod/src/daemon.rs:2008-2019 | an unreserved bindable saved port is kept; any other result is the near choice; a reserved result is the kernel's, with no candidate left |
| PortForwarding.Reconnect | rumpelpod/src/daemon.rs:1922-1968 | the pass completes exactly when there is a sequence of ports on which the rows land one after the other, a moved port being recorded by no other pod and no later row and its row sharing its key with no other; then the listeners are that sequence, match the rows one for one, are pairwise distinct and clear of other pods, and free saved ports are kept; however it ends, the stored local ports stay unique and clear of other pods |
| PortForwarding.AssignedUnique | rumpelpod/src/daemon.rs:1922-1951 | where the rows land is determined |
| PortForwarding.IndexAccepts | rumpelpod/src/daemon/db.rs:154-155 | the unique index accepts the update of a moved row exactly when no row still to come has the port and no other row has its key: rows already rebound never clash |
| PortForwarding.UpdatedRow | rumpelpod/src/daemon.rs:1936-1950 | recording a moved port writes it to the rows of that service and container port and no other |
| PortForwarding.AllFree | rumpelpod/src/daemon.rs:1922-1951 | a pod whose saved ports are all free gets every one back |
| PortForwarding.ReclaimCollision | rumpelpod/src/daemon.rs:1922-1951 | whatever happened before, a pass fails when a row whose saved port is taken has the free saved port of a later row as its container port |
| PortForwarding.SharedKeyFails | rumpelpod/src/daemon.rs:1936-1950 | a pass fails when a row whose saved port is taken shares its service and container port with another row, as repeated entries leave it |
| PortForwarding.FirstSetup | rumpelpod/src/daemon.rs:1874-1921 | the first pass stores one row per listener, all distinct and new, each the near choice; it fails only when the range is exhausted and the kernel gives nothing or a recorded port; however it ends, the stored local ports are unique and clear of other pods |
| AmbientAgents.AmbientSshAgents.Remember | rumpelpod/src/git_http_server.rs:122-140 | retain, push and drain give the remembered state |
| AmbientAgents.AmbientSshAgents.DropLatest | rumpelpod/src/git_http_server.rs:150-158 | after a failed probe the newest entry goes only if it is the probed one |
| AmbientAgents.AmbientSshAgents.ConnectLatestLive | rumpelpod/src/git_http_server.rs:142-161 | without interference the newest live candidate is found, the dead ones newer than it go and all others stay |
| AmbientAgents.RunOrdered | rumpelpod/src/git_http_server.rs:105-161 | over every run generations strictly increase, paths are distinct and at most 32 entries remain |
| AmbientAgents.ProbeRemovesOnlyProbed | rumpelpod/src/git_http_server.rs:142-161 | whatever happens between snapshot and removal, only the probed candidate can go |
| AmbientAgents.RememberedHistory | rumpelpod/src/git_http_server.rs:122-140 | a run without failed probes leaves the last 32 entries of the history deduplicated by last occurrence |
| HostHooks.WrittenBlocks | rumpelpod/src/gateway.rs:222-241 | the blocks rumpelpod writes are a managed comment line and one unmanaged invocation line exactly when the paths in them have no newline |
| HostHooks.EscapeReadBack | rumpelpod/src/devcontainer.rs:449-452 | a shell reads an escaped path back as the path |
| HostHooks.StripHostHooks | rumpelpod/src/gateway.rs:267-283 | the loop over the lines computes the stripped text |
| HostHooks.ManagedIff | rumpelpod/src/gateway.rs:271 | a managed comment is, behind any white space, the marker and anything |
| HostHooks.WhiteAscii | rumpelpod/src/gateway.rs:271 | the ASCII white space around a managed comment |
| HostHooks.KeptIs | rumpelpod/src/gateway.rs:270-278 | the user's lines are those that neither open a block nor follow a line that does |
| HostHooks.StrippedUnmanaged | rumpelpod/src/gateway.rs:267-283 | no managed comment line is left, whatever the text |
| HostHooks.StrippedLines | rumpelpod/src/gateway.rs:267-283 | for every text the lines left are the user's lines read again, unchanged exactly when no terminated one ends in a carriage return and neither of two corners applies; without stray carriage returns every non-blank line stays |
| HostHooks.ReinstallIff | rumpelpod/src/gateway.rs:327-383 | installing again before the user's code changes nothing exactly when no user line that a newline will follow ends in a carriage return once its own line end is off |
| HostHooks.ReinstallChanges | rumpelpod/src/gateway.rs:327-383 | a line ending in two carriage returns makes reinstalling change the hook |
| HostHooks.ReinstallFixed | rumpelpod/src/gateway.rs:327-383 | reinstalling is a fixed point for every hook without stray carriage returns, `\r\n` line ends included |
| HostHooks.FreshFixed | rumpelpod/src/gateway.rs:327-383 | the hook written where there was none is a fixed point |
| HostHooks.CrFreeLines | rumpelpod/src/gateway.rs:267-283 | carriage-return-free texts have no stray carriage returns |
| HostHooks.InstallBefore | rumpelpod/src/gateway.rs:327-383 | for every text the lines are the user's shebang line or a new one, the block, and then all other user lines in order, blank ones included, read again as StrippedLines says; no other line is managed |
| HostHooks.InstallAfter | rumpelpod/src/gateway.rs:327-394 | for every text the lines are all user lines in order, blank ones included, read again as StrippedLines says, one blank line, and the block at the end; no other line is managed |
| ColonWords.MergeBashColonWords | rumpelpod/src/completions.rs:103-134 | result words glue consecutive words, none is lost or reordered, the cursor follows its word, and the saturating subtraction never saturates |
| ColonWords.OnlyCp | rumpelpod/src/completions.rs:104-106 | only lines whose second word is `cp` are merged |
| ColonWords.MergedOperand | rumpelpod/src/completions.rs:112-118 | `cp pod : path` merges into `cp pod:path` |
| ColonWords.MergeUndoesSplit | rumpelpod/src/completions.rs:101-134 | for any line cut into operands, merging gives the operands back exactly when each is one word, or words with joining colons between them |
| ColonWords.OperandsRecovered | rumpelpod/src/completions.rs:101-134 | a `cp` line whose operands have colons only between words is always given back |
| ColonWords.TrailingColon | rumpelpod/src/completions.rs:112-131 | an operand that ends in its colon is not: `cp pod: path` becomes one operand, and a final `pod:` stays two words |
| ColonWords.LeadingColon | rumpelpod/src/completions.rs:112-118 | a colon right behind `cp` is glued to it when a word follows and stays a word when none does |
| LineEmission.EmitChunk | rumpelpod/src/initialize.rs:318-334 | one chunk emits its completed lines and flushes an overlong rest |
| LineEmission.EmitOutput | rumpelpod/src/initialize.rs:306-340 | the lines sent are those of the specification, cut where the receiver goes away, and the line buffer stays below 64 KiB + 8192 |
| LineEmission.ChunkingIrrelevant | rumpelpod/src/initialize.rs:306-340 | inputs whose lines fit come out as the newline split for every chunking |
| LineEmission.EmissionExact | rumpelpod/src/initialize.rs:306-340 | the output is the newline split for every chunking exactly when the lines fit |
| LineEmission.SplitExact | rumpelpod/src/initialize.rs:318-328 | the newline split is the only list of lines that gives the input back with a newline, and at most one dropped carriage return, behind each terminated line |
| LineEmission.FitsIff | rumpelpod/src/initialize.rs:329-334 | lines fit when terminated ones are under 64 KiB with their carriage return and an unterminated one is at most 64 KiB |
| PodRefs.AllowedIff | rumpelpod/src/hook.rs:261-287 | a pod may push exactly its shortcut and the namespaced branches that end in its name |
| PodRefs.NameAlphabet | rumpelpod/src/cli.rs:14-28 | the characters of a valid pod name, by code |
| PodRefs.PushableDisjoint | rumpelpod/src/hook.rs:261-287 | two valid pod names never may push the same ref |
| PodRefs.HostPreReceive | rumpelpod/src/hook.rs:240-248 | a push is accepted exactly when every ref in it may be pushed by the pod |
| PodRefs.PushTakesEffect | rumpelpod/src/hook.rs:240-248 | an accepted push leaves every ref in it as its last update says, a refused one changes nothing |
| PodRefs.OnlyOwnerChanges | rumpelpod/src/hook.rs:240-287 | over any run of pushes by valid pods, each of several refs and refused as a whole, a ref of pod A ends as A's own pushes alone would leave it, and is unchanged when A does not push |
| PodRefs.SplitExact | rumpelpod/src/daemon.rs:247-250 | splitting at the last `@` recovers branch and pod |
| PodRefs.RewriteRemote | rumpelpod/src/daemon.rs:245-258 | references to the source pod follow the fork, other pods' branches stay |
| PodRefs.RewriteRest | rumpelpod/src/daemon.rs:240-271 | a host branch stays, the primary follows the fork, a copied branch stays, anything else is dropped |
| PodRefs.ForkBranches | rumpelpod/src/daemon.rs:4980-5002 | the loop builds the specified branch list |
| PodRefs.ForkedBranch | rumpelpod/src/daemon.rs:4984-5002 | every branch is copied in order from the source pod's branch of the same name |
| PodRefs.ForkNamesDistinct | rumpelpod/src/daemon.rs:4980-5002 | branch names stay distinct exactly when no other branch has the new name |
| PodRefs.ForkUpstreamsForked | rumpelpod/src/daemon.rs:234-271 | every kept local upstream names a forked branch, exactly when the source lists its primary, or has a branch of the new name, or nothing tracks the primary |

## Left out

- Timing and fairness: `control::bounded`, retries and tokio scheduling are
  nondeterministic steps, so the lifecycle and exec results are safety only.
- Wrap-around of the 64-bit generation, task id and agent generation counters.
- The order in which a delete awaits its drained tasks: the model lets it observe them in
  any order, which allows more runs than the code has.
- SHA-256, and `compute_image_tag`, whose arguments are not length-prefixed.
- The context and dockerfile part of the compose digest.
- ServiceFingerprint.HashServices: the checks behind the hashing of each service (secrets,
  build arguments, contexts on disk) are an input, not modelled themselves.
- ContextFingerprint.HashContextDir: I/O errors and the lossy conversion of names that are
  not UTF-8 are not modelled.
- Substitution.SubstituteVars: of UTF-8 only the rule that a continuation byte never
  follows an ASCII byte is used, so the input type is wider than Rust's strings.
- ExecProtocol.ReadOutput: errors while writing to the terminal are not modelled.
- ExecProtocol.ForwardStdin: an error while reading stdin is not modelled.
- ExecSession.AtMostOnce: the pod's exec handler is not part of this model; it is taken to
  answer 404 only when it starts nothing, and success only after it started the command.
- Signal and resize requests of an exec session, and JSON (de)serialisation of requests.
- PodRefs.OnlyOwnerChanges: after an accepted push every ref is updated; git failures on
  single refs are not modelled.
- PortForwarding.Reconnect: the database beyond the unique index on local ports, and
  errors of the proxy that takes a listener over, are not modelled.
- PortForwarding.FirstSetup: errors of `resolve_forward_target` and of label lookup are
  not modelled.
- AmbientAgents.ProbeRemovesOnlyProbed: the probe itself is a nondeterministic event
  between the two locked sections.
- AmbientAgents.AmbientSshAgents.ConnectLatestLive: which sockets answer is fixed for the
  call, and other threads are left to the lemmas about runs.
- HostHooks.InstallAfter: textual idempotence is not stated, because the separator newline
  stays behind after stripping.
- LineEmission.EmitOutput: file errors and the lossy conversion to text are not modelled.
- Docker, Podman, Kubernetes, SSH, tunnels, git subprocesses, the launch and recreate
  bodies of the daemon, terminals, configuration parsing and the command-line wrappers:
  plumbing over services whose meaning lies outside the repository.
