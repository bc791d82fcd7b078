# A verified model of crun's core

crun is an OCI container runtime written in C. This project models the parts of it where many branches, shared
state or two processes meet, and proves what they promise. `dafny verify dfyconfig.toml` checks everything.

* **Device rules.** The runtime compiles the device rules of a configuration into an eBPF filter. `DevicePolicy` says
  what the rules mean (the last matching rule decides), `DeviceFilter` is the program for a list of rules together
  with the proof that running it on the machine of `Bpf` gives that meaning, `DeviceCompiler` is the compiler in the
  source's own form, emitting bytes into a growing buffer. `DeviceMeaning` says what the result means on the fields of
  the configuration and on device numbers. `AllowAll` is the systemd driver's shortcut for "everything is allowed",
  compared with what the filter answers.
* **Replacing the filter.** `AttachProtocol` interleaves the system calls of any number of updaters on one cgroup;
  `AttachSuccess` says when an update succeeds and for which reasons it may fail.
* **The handshake.** `Handshake` is the protocol between the runtime and the container's init process, with every
  failure, death, hook result and order of steps. `HandshakeSuccess` shows that runs without a failure end with a
  container, that failures are reported, and that hooks really ran.
* **Paths inside a root.** `ChrootRealpath` is the path resolver on its three fixed buffers. On every input it is the
  machine of `ChrootBuffers`, which keeps what the buffer holds in the chroot's place beside the machine on strings of
  `ChrootSteps`. `ChrootResolver` compares the latter with a resolver that keeps a stack of components, `ChrootConverse`
  shows that the condition found there is needed, `ChrootBounds` says when the buffers are left, and `ChrootRoom` when
  they are large enough. `Paths` has the facts about components.
* **cgroup trees.** `Cpuset` and `CpusetInit` fill in empty cpusets, `CpusetTexts` follows the texts that do not fit
  their buffer, `PidWalk` and `PidTree` collect processes, `ControllerFile` and `Controllers` enable controllers
  top-down, `Threaded` makes cgroups threaded.
* **Formats.** `Netlink` and `NetDevice` are netlink attributes and the copying of addresses, `SdArray` and `SdParser`
  the in-place parser of quoted lists, `RdtSchema`, `RdtCompare` and `RdtPrint` the comparison of resource schemata,
  `Numbers` the C library's conversions.

A method in the source's form is proved equal to a function on values, and the lemmas are about that function.
Fixed buffers are arrays, so that every access of the model is inside its buffer, and where the source's own access is
not, the model has an outcome for it; the growing buffer of the compiler is a sequence with its two sizes. System calls
are parameters: functions of what was asked, or replies in a state machine. Where a promise turned out not to hold for
every input, the code is modelled as it is, a lemma gives an input or a run that shows it, and another one gives the
condition:

* Relative link as the last component: `chroot_realpath` drops a slash and does not put it back
  (`ChrootResolver.LastRelativeLinkEscapes`). The condition is `Clean`, sufficient in `ChrootResolver.ResolveAgrees` and
  exact in `ChrootRoom.CleanIsExact`.
* Enough `..` behind such a link make `chroot_realpath` read in front of its buffer
  (`ChrootBounds.DotsLeaveTheBuffer`, both directions). It stays inside while the text of an absolute chroot is in front
  (`ChrootBounds.AboveIsSafe`). Once that text was backed over, it stays inside if and only if the path is not empty,
  only `.` and `..` are left, and there is a slash for every `..` (`ChrootBounds.InsideIsExact`). `Realpath` promises
  both.
* A cpuset level whose text is longer than 256 bytes is written back cut short (`CpusetTexts.LongTextIsCut`). In every
  run, whatever fails, a level keeps its text if and only if the text fits or the level is not written back, which can
  be told from what the files hold before (`CpusetTexts.TextsKept`).
* Hooks: without a configured root filesystem or mounts the init process does not wait for the runtime's hooks
  (`Handshake.HooksOvertake`, condition in `Handshake.HooksRunInOrder`). Such a run ends in a failure even when nothing
  fails in it, and all others without a failure succeed (`HandshakeSuccess.SmoothRunsSucceed`).
* `has_allow_all`: an explicit device number 0, a negative number outside int, partial access letters and an empty type
  mean something else to it than to the filter (`AllowAll.ExplicitZeroDisagrees`, `AllowAll.WideNumberDisagrees`,
  `AllowAll.PartialAccessDisagrees`, `AllowAll.EmptyTypeDisagrees`). These are all the ways in which a rule can mean
  something else (`AllowAll.CoveringRuleMatches`, both directions). The filter accepts everything exactly when a finite
  test on the rules passes (`AllowAll.AllowAllIsExact`), so that is when a yes is right.
* Resource schemata: with an empty part, other than at the end, more pairs are searched than were read
  (`RdtSchema.EmptyPartCounts`, and both directions in `RdtSchema.CountParts`).
* The leaf cgroup gets controllers enabled when the path ends with a slash (`Controllers.LeafEnabled`, both directions).
* The cpuset recursion does not mend a relative path of one character (`CpusetInit.InitRec`, both directions).

The loop in `chroot_realpath` that would strip slashes from the end of the chroot looks at the NUL behind the text and
never runs; the model follows the code. The default device table is walked from its end marker, and the model keeps
that extra entry.

## Model

| member | source | states |
|---|---|---|
| `DevicePolicy.AllowedMeans` | src/libcrun/cgroup-resources.c:634-676 | A request is allowed exactly when some allow rule matches it and no later rule does. |
| `DevicePolicy.AllowedAppend` | src/libcrun/cgroup-resources.c:647-669 | A later list of rules overrides an earlier one on every request that it has a match for, and only there. |
| `DevicePolicy.EndMarkerIsHarmless` | src/libcrun/cgroup-resources.c:41-55 | The end marker of the default table, which is compiled as one more rule, changes the answer to no request at all, not even one without access bits. |
| `Bpf.DecodeEncode` | src/libcrun/ebpf.c:40-92 | Every instruction whose fields fit is read back from its 8 bytes. |
| `Bpf.DecodeAllEncodeAll` | src/libcrun/ebpf.c:113-123 | Every program is read back from its bytes. |
| `DeviceFilter.MaskIsSubset` | src/libcrun/ebpf.c:217-226 | Masking the requested access bits with the granted ones and comparing is set inclusion, for all access sets. |
| `DeviceFilter.TestsDecide` | src/libcrun/ebpf.c:163-243 | The tests that are left in a block, after those for type a, full access and wildcards were left out, pass exactly when the rule matches. |
| `DeviceFilter.TestsRun` | src/libcrun/ebpf.c:205-243 | Running the tests of a block reaches its answer when all pass and the first instruction behind the block otherwise, with the request still loaded. |
| `DeviceFilter.FilterDecides` | src/libcrun/ebpf.c:125-269 | Meaning is preserved: for all rules and requests the program runs to its exit and returns 1 exactly when the last matching rule allows, 0 otherwise; the cut-off at a catch-all rule changes nothing. |
| `DeviceFilter.FilterShape` | src/libcrun/ebpf.c:163-243 | Every jump goes forward to the first instruction of a later block inside the program, every field fits its width, and the last instruction is an exit. |
| `DeviceFilter.RequestStaysLoaded` | src/libcrun/ebpf.c:125-148 | From the end of the prologue on, registers 2 to 5 hold the request at every step of every run. |
| `DeviceCompiler.BpfProgram.Append` | src/libcrun/ebpf.c:113-123 | Earlier bytes stay, the data follows them, and used never passes allocated across any number of reallocations. |
| `DeviceCompiler.BpfProgram.InitDev` | src/libcrun/ebpf.c:126-148 | The bytes emitted are exactly the prologue. |
| `DeviceCompiler.BpfProgram.AppendDev` | src/libcrun/ebpf.c:151-252 | The bytes emitted are exactly the block of the rule, with jump distances that count down over what is left of it; nothing once a catch-all rule was emitted. |
| `DeviceCompiler.BpfProgram.CompleteDev` | src/libcrun/ebpf.c:255-269 | A refusing answer ends the program unless a catch-all rule did. |
| `DeviceCompiler.AppendTable` | src/libcrun/cgroup-resources.c:647-653 | Walking the default table downwards emits its blocks in front of those of the configured rules. |
| `DeviceCompiler.AppendDevices` | src/libcrun/cgroup-resources.c:654-669 | Walking the configured rules downwards, with absent types and numbers as wildcards and 64-bit numbers cut to int, emits the blocks of their rules. |
| `DeviceCompiler.CreateDevBpf` | src/libcrun/cgroup-resources.c:634-676 | The two loops together emit the filter of (configured rules, then default rules). |
| `DeviceCompiler.CompiledDecides` | src/libcrun/cgroup-resources.c:634-676 | End to end: the bytes produced for any configuration decode to a well-formed program that answers every request as the configured policy does. |
| `DeviceMeaning.CompiledMeans` | src/libcrun/cgroup-resources.c:634-676 | The same on the configuration itself, in the numbers the kernel uses: the bytes decode to a program that accepts a request if and only if it is for a default device or the last matching entry allows it. |
| `DeviceMeaning.EntryMeans` | src/libcrun/cgroup-resources.c:656-666 | An entry's rule matches exactly the requests of its kind, by the first letter of the type, with access letters for all that is requested and with its major and its minor number as C ints, where absent and negative numbers match all. |
| `DeviceMeaning.DefaultsAre` | src/libcrun/cgroup-resources.c:41-55 | The table matches exactly the making of any device node and the use of nine devices, given by their numbers, and of all pseudo terminals. |
| `AllowAll.HasAllowAll` | src/libcrun/cgroup-systemd.c:1262-1294 | The loop over a bit mask returns true exactly when some suffix of the rules has only allow rules and covers both device types with wildcards. |
| `AllowAll.CoveredAccepts` | src/libcrun/cgroup-systemd.c:1262-1294 | When some suffix has only allow rules, and for each kind of device one that both has_allow_all and the filter take to cover it, then has_allow_all says yes and the compiled program runs to its exit and accepts every request, whatever the other rules are. |
| `AllowAll.CoveringRuleMatches` | src/libcrun/cgroup-systemd.c:1276-1288 | A rule that has_allow_all takes to cover a kind matches every request of that kind in the filter if and only if its numbers are negative as ints or absent, its access is rwm, and its type is not empty or the kind is char. |
| `AllowAll.AllowAllIsExact` | src/libcrun/cgroup-systemd.c:1262-1294 | For every configuration the compiled program accepts every block and char request if and only if it passes a finite test: two requests with numbers no rule can name, and the widest request of every deny rule, are allowed. |
| `AllowAll.AllAllowedIff` | src/libcrun/ebpf.c:150-252 | The same for every list of rules: whatever allows the widest request of the last matching deny rule stands behind it and matches the request, too. |
| `AllowAll.PlainAgrees` | src/libcrun/cgroup-systemd.c:1262-1294 | For plain rules whose deny rules deny everything it always does. |
| `AllowAll.ExplicitZeroDisagrees` | src/libcrun/cgroup-systemd.c:57-58 | A rule with explicit numbers 0 is a wildcard here and a number in the filter. |
| `AllowAll.PartialAccessDisagrees` | src/libcrun/cgroup-systemd.c:1276-1288 | A rule without all of r, w and m counts as covering, although the filter then refuses a request. |
| `AllowAll.EmptyTypeDisagrees` | src/libcrun/cgroup-systemd.c:1278-1279 | A rule with an empty type covers both kinds here and is a char rule in the filter. |
| `AllowAll.WideNumberDisagrees` | src/libcrun/cgroup-systemd.c:1276 | A negative number that does not fit an int is a wildcard here and a number in the filter. |
| `AttachProtocol.StepCountsDown` | src/libcrun/ebpf.c:363-448 | Every system call of an updater brings it closer to its return: passes left, then programs left to remove. |
| `AttachProtocol.StepKeepsInv` | src/libcrun/ebpf.c:314-448 | One step of any updater keeps the invariant of all of them: nobody will remove the newest program, and what was removed stays away. |
| `AttachProtocol.NeverUnprotected` | src/libcrun/ebpf.c:363-448 | In every interleaving, once an updater has attached its program the cgroup is never again without a device program, and the newest one is in no updater's removal list. |
| `AttachProtocol.SuccessCleansUp` | src/libcrun/ebpf.c:314-360 | In every interleaving, after a success no program from before any updater and none that the updater listed is attached. |
| `AttachProtocol.AloneLeavesOwn` | src/libcrun/ebpf.c:363-448 | An updater that runs alone and returns 0 leaves exactly its own program. |
| `AttachProtocol.AtMost22Passes` | src/libcrun/ebpf.c:372-448 | No updater of any run makes more than 22 passes. |
| `AttachProtocol.NeverStuck` | src/libcrun/ebpf.c:272-448 | An updater that has not returned always has a possible reply other than a failure. |
| `AttachSuccess.GivesUpIsExact` | src/libcrun/ebpf.c:372-448 | A reply makes a call fail if and only if it is an error, a refused plain attach, or the news that the program to be replaced is gone when 20 attempts were used up. |
| `AttachSuccess.FailureHasReason` | src/libcrun/ebpf.c:372-448 | In every interleaving a call that failed was given such a reply, and in the last case it had started over exactly 20 times. |
| `AttachSuccess.AloneSucceeds` | src/libcrun/ebpf.c:363-448 | A call that runs alone and meets no error and no refused plain attach returns 0 and leaves exactly its own program, also where replacing is not supported. |
| `AttachSuccess.AloneIsAtomic` | src/libcrun/ebpf.c:387-426 | Where replacing is supported, a cgroup with one program has one program at every moment. |
| `Handshake.StepKeepsInv` | src/libcrun/container.c:2911-2989 | One step of either side, or of a start command, keeps an invariant over both queues, both programs, the terminal, the fifo and the status. |
| `Handshake.HooksRunInOrder` | src/libcrun/container.c:2930-2966 | In every interleaving with the callback, prestart and createRuntime hooks run while init waits between sync 2 and sync 3 or has failed, createContainer hooks only after all of those returned 0, startContainer hooks and the program only after the createContainer hooks. |
| `Handshake.HooksOvertake` | src/libcrun/linux.c:2774-2782 | Whenever the callback is skipped there is a run of seven steps in which createContainer hooks start before the runtime's hooks have run. |
| `Handshake.NoDeadlock` | src/libcrun/container.c:481-555 | In every reachable state some side can step without any failure happening, until both have ended and no start command is waiting; this covers the failure paths with the kill and the draining of the socket. |
| `Handshake.ErrorForbidsStatus` | src/libcrun/container.c:489-525 | After init has put an error on the socket before its sync 4, no later state of the run has a written status, and the runtime is never past its wait for sync 4. |
| `Handshake.StatusMeansSetUp` | src/libcrun/container.c:2975-2989 | A written status implies both syncs of init, no error message and all runtime and createContainer hooks done. |
| `Handshake.ExecAfterStatus` | src/libcrun/container.c:1595-1616 | After create, in every run with any number of start commands the user program is executed only once the status has been written. |
| `Handshake.RunsEnd` | src/libcrun/container.c:2373-2422 | Every run ends: at most 87 steps, and one more for each message init logs. |
| `HandshakeSuccess.SmoothRunsSucceed` | src/libcrun/container.c:2911-2989 | Every run in which nothing fails and that is over has, with the callback, a written status, a runtime at its end and an init that executes the program, or that waits after create when there was no start command; without the callback the runtime has failed. |
| `HandshakeSuccess.SmoothRunsEnd` | src/libcrun/container.c:2911-2989 | Every run in which nothing has failed can be continued without a failure until it is over. |
| `HandshakeSuccess.HooksRan` | src/libcrun/container.c:2930-2966 | A written status means that the prestart, createRuntime and createContainer hooks ran and returned 0; the first two ran before any createContainer hook, and all of them and the startContainer hooks before the program. |
| `HandshakeSuccess.FailuresAreReported` | src/libcrun/container.c:489-525 | When init's setup or a createContainer hook fails and nobody dies, the runtime is told and fails, init ends, and no status is written. |
| `HandshakeSuccess.FifoMeansStart` | src/libcrun/container.c:1595-1616 | The fifo has been written exactly when there was a start command. |
| `Paths.ComponentsAppend` | src/libcrun/chroot_realpath.c:119-128 | The components of two texts put together are those of both, when a slash is at the seam. |
| `Paths.GluedComponents` | src/libcrun/chroot_realpath.c:174-180 | A name put behind a text without a slash merges with its last component. |
| `Paths.ParentComponents` | src/libcrun/cgroup-utils.c:109-110 | The text in front of the last component has all components but the last. |
| `ChrootSteps.Step` | src/libcrun/chroot_realpath.c:94-180 | One iteration uses up a readlink call, of which there are at most 33, or characters of the remaining path. |
| `ChrootSteps.Truncated` | src/libcrun/chroot_realpath.c:138 | A target shorter than 4096 bytes is read as it is, of a longer one the first 4095 bytes. |
| `ChrootResolver.StepAgrees` | src/libcrun/chroot_realpath.c:94-180 | One iteration that has its slash does what the stack resolver does with the next component, and leaves a path that stands for its stack. |
| `ChrootResolver.ResolveAgrees` | src/libcrun/chroot_realpath.c:86-188 | A run without a lost slash gives the stack resolver's answer: the result is the chroot or below it, without a slash behind its last component, and its components are the chroot's followed by the stack, where .. never pops below the root, all components of a link take its place, and an absolute link empties the stack. |
| `ChrootResolver.MeetsNoneResolves` | src/libcrun/chroot_realpath.c:86-188 | Every run that meets no relative link as its last remaining component is such a run. |
| `ChrootResolver.LostSlashIsWrong` | src/libcrun/chroot_realpath.c:160-180 | At a single step, also without room or calls left: a .. applied to a lost slash leaves the chroot, and a name put behind one makes a path that does not stand for the stack. |
| `ChrootResolver.LastRelativeLinkEscapes` | src/libcrun/chroot_realpath.c:160-180 | In every chroot a last component that links to a name resolves to the chroot's text with that name glued to it, outside the chroot; the buffers show this run. |
| `ChrootResolver.CleanStaysAbove` | src/libcrun/chroot_realpath.c:94-180 | In such a run the text of the chroot is never overwritten. |
| `ChrootResolver.CleanIsTraceable` | src/libcrun/chroot_realpath.c:155-162 | So the buffers show every clean run. |
| `ChrootConverse.UncleanDisagrees` | src/libcrun/chroot_realpath.c:86-188 | The converse at the outcome: from the first state that lost its slash, with room and a call left, some file system that answered every earlier call in the same way gives a result that is not the stack resolver's. |
| `ChrootConverse.OffIsWrong` | src/libcrun/chroot_realpath.c:108-116 | Once .. was applied to the bare chroot every continuation goes wrong for some file system: at the next name, at the end, or in front of the buffer. |
| `ChrootBounds.DotsLeaveTheBuffer` | src/libcrun/chroot_realpath.c:114 | In every chroot a last component that links to n times .. makes the loop read in front of its buffer if and only if n is more than the slashes of the chroot in front of its last character; the buffers show this run. |
| `ChrootBounds.AboveIsSafe` | src/libcrun/chroot_realpath.c:114-162 | While the text of an absolute chroot stays in front, both loops that move backwards stop inside the buffer. |
| `ChrootBounds.InsideIsExact` | src/libcrun/chroot_realpath.c:108-162 | At the first state whose path has lost the chroot in front, with room and a call left: no file system that has answered every earlier call like this one makes a pointer leave the buffer if and only if the path is not empty, only . and .. are left, and there is a slash for every .. of them. This holds of the string machine and of the one with the buffer. |
| `ChrootBounds.InsideIsTraceable` | src/libcrun/chroot_realpath.c:108-162 | Runs from an absolute chroot that stay inside in this way end inside, and the buffers show them. |
| `ChrootBuffers.ResolveShows` | src/libcrun/chroot_realpath.c:86-188 | The machine with the buffer gives the string machine's answer in every run in which no absolute link starts over at a chroot whose text was overwritten. |
| `ChrootRoom.ResolveExact` | src/libcrun/chroot_realpath.c:76-81 | With a bound on the chroot, the path and 33 targets, the run never ends for want of room, so that the answer is the resolver's. |
| `ChrootRoom.CleanIsExact` | src/libcrun/chroot_realpath.c:86-188 | Within the bounds, and with a call left, a run is clean if and only if the outcome is the stack resolver's for every file system that has answered like this one so far. |
| `ChrootRealpath.CopyName` | src/libcrun/chroot_realpath.c:119-126 | The copying loop succeeds exactly when the whole component fits both limits; then the component stands behind the path, and nothing behind it has changed. |
| `ChrootRealpath.FollowLink` | src/libcrun/chroot_realpath.c:153-172 | Backing up, or starting over at what the buffer holds in the chroot's place, and splicing the target in front of the rest in place is the link step on strings, for every content of the buffers. |
| `ChrootRealpath.Realpath` | src/libcrun/chroot_realpath.c:50-189 | On every input the answer is that of the machine with the buffer, with at most 33 readlink calls; without a chroot it is the path itself, and without room for both texts an error. Unless an absolute link starts over at a chroot whose text was overwritten it is the string machine's, including its move in front of the buffer; in a clean run it is the stack resolver's; and in a run that keeps the text of an absolute chroot in front, or has only dots with enough slashes left when it does not, no pointer leaves its buffer. |
| `Cpuset.InitFills` | src/libcrun/cgroup-setup.c:42-145 | When climbing finds a value for both files, every empty level below the nearest value ends with the requested value, with the first 256 bytes of the nearest text when none is requested, or unchanged when the request is empty; the nearest level with the first 256 bytes of its own text, and nothing else changes; every write is accepted by a kernel that refuses a value below an empty parent. |
| `Cpuset.NothingIsClobbered` | src/libcrun/cgroup-setup.c:117-126 | In every run, whatever fails, only the path and its ancestors change, and a level with a value is given nothing but the first 256 bytes of its own text. |
| `Cpuset.NothingToDo` | src/libcrun/cgroup-setup.c:53-104 | A level that can not be opened or read is an error and changes nothing; a level directly below the top that finds no value is left as it is, with success. |
| `Cpuset.ParentIs` | src/libcrun/cgroup-setup.c:101-107 | The climb goes on at what is in front of the last slash, and ends where that has at most one character. |
| `CpusetTexts.LevelsAfter` | src/libcrun/cgroup-setup.c:117-142 | On the outcome: both files of every level below the nearest one hold the request, the first 256 bytes of the nearest text, or what they held, as requested. |
| `CpusetTexts.TextsKept` | src/libcrun/cgroup-setup.c:60-142 | In every run, whatever fails, a level with a value keeps its text if and only if the text has at most 256 bytes or the level is not written back; otherwise its first 256 bytes are left. For the mems the write of the cpus in front of theirs must go through. |
| `CpusetTexts.CpusAfter` | src/libcrun/cgroup-setup.c:58-132 | A level with cpus of its own holds what was read of them if the climb reaches it without cpus, comes back to it and the kernel takes the write; otherwise all of them. |
| `CpusetTexts.MemsAfter` | src/libcrun/cgroup-setup.c:77-142 | The same for mems, with the write of the cpus in front. |
| `CpusetTexts.CpusClimb` | src/libcrun/cgroup-setup.c:58-132 | A climb for cpus alone brings back the first value above, and leaves a level with a value exactly when it had one or every level up to a value takes its write. |
| `CpusetTexts.NearestIsBack` | src/libcrun/cgroup-setup.c:130-142 | When both climbs find a value, exactly the nearest level of each file is written back. |
| `CpusetTexts.LongTextIsCut` | src/libcrun/cgroup-setup.c:68-71 | A cpuset with a text over 256 bytes is written back with the rest of it lost, and the function succeeds. |
| `Cpuset.ValueOfValue` | src/libcrun/cgroup-setup.c:68-75 | A value reads the same after it was written back, and a text reads as itself exactly when it has at most 256 bytes. |
| `CpusetInit.InitRec` | src/libcrun/cgroup-setup.c:42-145 | The recursion with shared buffers and a path cut in place computes that function; the path is restored except after a climb from a relative path of one character. |
| `CpusetInit.Initialize` | src/libcrun/cgroup-setup.c:147-167 | Both callers: from empty buffers, success with every empty level filled from the nearest value or the request whenever both climbs find one. |
| `PidWalk.LinesFit` | src/libcrun/cgroup-utils.c:290-297 | The number of lines counted before parsing is enough room for all pids. |
| `PidWalk.PidList.ReadProcs` | src/libcrun/cgroup-utils.c:288-307 | One file appends its positive numbers in order, keeps what was there across a reallocation, and ends the array with 0. |
| `PidWalk.PidList.ReadPids` | src/libcrun/cgroup-utils.c:269-344 | The recursion appends the pids of the walk up to the first error, never past the array, and leaves it ended by 0 once any file was not empty. |
| `PidTree.ReadsBack` | src/libcrun/cgroup-utils.c:299-305 | Parsing a list of pids as the kernel prints it gives the same list, without the zeros that stand for processes of other namespaces. |
| `PidTree.WalkIsPreorder` | src/libcrun/cgroup-utils.c:269-344 | For every finite tree that the kernel shows, the walk finds exactly its visible pids, parents before children; without recursion those of the directory itself. |
| `PidTree.WalkReportsErrors` | src/libcrun/cgroup-utils.c:269-344 | The walk ends in an error if and only if some pid file or directory of the tree can not be read. |
| `ControllerFile.TokensOfText` | src/libcrun/cgroup-utils.c:803-808 | The words of the text that is written first, with a place for each of seven controllers, are exactly the wanted ones. |
| `ControllerFile.TokensHave` | src/libcrun/cgroup-utils.c:863-879 | A pass writes a controller if and only if it is wanted and known. |
| `ControllerFile.PassesAre` | src/libcrun/cgroup-utils.c:853-898 | The number of passes is the only one, up to 1001, for which every pass but the last met a busy controller, a pass that wrote something is followed by at most one more while attempts are left, and the last pass was not busy, the last attempt, or that one more. |
| `ControllerFile.WriteEach` | src/libcrun/cgroup-utils.c:863-879 | One pass writes all words of the text in order, whatever is refused, and tells whether one was busy and whether one was written. |
| `ControllerFile.WriteControllers` | src/libcrun/cgroup-utils.c:796-907 | The texts written are the whole one and, exactly after a refusal that allows it, the passes; the result is that of the first write or of the step that failed, and after the passes that of reading the controllers again. |
| `ControllerFile.EnablesWhatIsKnown` | src/libcrun/cgroup-utils.c:796-907 | Whatever controllers the kernel knows, and as long as it is not busy for longer than the attempts last, the call succeeds and enables exactly the wanted controllers that the kernel knows. |
| `Controllers.EnableRoot` | src/libcrun/cgroup-utils.c:923-938 | The root is enabled with all controllers; a second attempt, without cpu, is made exactly when the first is refused as invalid and cpu is among them; success exactly when the last attempt made succeeds. |
| `Controllers.EnableControllers` | src/libcrun/cgroup-utils.c:910-966 | What is made and enabled below the root is the plan up to the first step that fails, with the single writes and retries of each cgroup; success exactly when the root and every step of the plan succeed. |
| `Controllers.TopDown` | src/libcrun/cgroup-utils.c:940-964 | For every path, controllers are enabled in a cgroup only after it was made and its parent was enabled. |
| `Controllers.AncestorsEnabled` | src/libcrun/cgroup-utils.c:940-964 | Every proper ancestor of the new cgroup is enabled. |
| `Controllers.AllMade` | src/libcrun/cgroup-utils.c:940-964 | Every cgroup from below the root down to the new one is made. |
| `Controllers.LeafEnabled` | src/libcrun/cgroup-utils.c:955-960 | The new cgroup itself is enabled if and only if the path ends with a slash. |
| `Threaded.DirnameComponents` | src/libcrun/cgroup-utils.c:109-116 | The parent text has all components but the last, and is taken for the root exactly at the top. |
| `Threaded.DomainLines` | src/libcrun/cgroup-utils.c:97-105 | A type file with any number of newlines at its end is a domain's exactly when its text is that of a domain or a threaded domain. |
| `Threaded.Base` | src/libcrun/cgroup-utils.c:106-116 | The climb ends at the nearest domain or below the root; all cgroups below that on the way can be read and are no domains. |
| `Threaded.MakeMeans` | src/libcrun/cgroup-utils.c:74-118 | Exactly the cgroups below the nearest domain are made threaded, outermost first; nothing when one can not be read, and those above it when one can not be written. |
| `Threaded.TypeFiles.MakeThreaded` | src/libcrun/cgroup-utils.c:74-118 | The recursion on path texts, with any slashes, ends and does that. |
| `Netlink.WalkExtend` | src/libcrun/net_device.c:342-347 | Behind a list that ends exactly, one more attribute is found last and nothing else changes. |
| `Netlink.WalkShift` | src/libcrun/net_device.c:232-240 | A walk depends only on the bytes that it covers. |
| `NetDevice.Request.Append` | src/libcrun/net_device.c:118-134 | The attribute is the last one found in the message, all earlier ones are still found, and its bytes are its length, its type and its data; it is refused exactly when it does not fit, without any change. |
| `NetDevice.Request.AppendAll` | src/libcrun/net_device.c:342-347 | For all captured bytes the attributes that the walk finds, and no others, are appended, if and only if there is room. |
| `NetDevice.CaptureKeepsAttrs` | src/libcrun/net_device.c:232-240 | A captured address has exactly the attributes of the message it came in. |
| `NetDevice.ConfigureAddresses` | src/libcrun/net_device.c:319-359 | Every address is sent again with its captured fields and attributes and the index of the new device, in order, up to the first that does not fit or is not acknowledged; success exactly when all fit and all were acknowledged. |
| `SdArray.RoundTrip` | src/libcrun/cgroup-systemd.c:542-595 | Every nonempty list of strings, written with either quote, any space and backslashes, is read back. |
| `SdArray.ScanIs` | src/libcrun/cgroup-systemd.c:561-592 | A string is found exactly where a closing quote stands behind a text that spells it, with a backslash for the character behind it. |
| `SdArray.AcceptedIs` | src/libcrun/cgroup-systemd.c:542-595 | Whatever is accepted is a quoted string with space around it, in front of the end, a closing bracket or a comma. |
| `SdArray.NothingIsBlank` | src/libcrun/cgroup-systemd.c:551-554 | Nothing is left exactly of a blank text. |
| `SdParser.ScanInPlace` | src/libcrun/cgroup-systemd.c:561-592 | The string is copied down in place, the write position never passes the read position, and nothing outside is touched. |
| `SdParser.ParseItem` | src/libcrun/cgroup-systemd.c:542-595 | One call shows the next item, its string ended by NUL and the rest untouched, and changes nothing in front of it; nothing left and malformed input are told apart. |
| `SdParser.ParseList` | src/libcrun/cgroup-systemd.c:660-681 | The strings of all calls are still in their places after the last one, so that the loop returns what the parser on values returns. |
| `RdtSchema.CountParts` | src/libcrun/intelrdt.c:83-95 | The counting loop gives enough room for the parts that are read, and their exact number if and only if no part but the last is empty. |
| `RdtSchema.EmptyPartCounts` | src/libcrun/intelrdt.c:83-95 | Of `1=1;;` one part is read and two are counted, so that the search covers a pair that was not written. |
| `RdtSchema.SameMap` | src/libcrun/intelrdt.c:131-166 | Two lists with distinct keys denote the same map if and only if they are equally long and all pairs of one are in the other. |
| `RdtCompare.Search` | src/libcrun/intelrdt.c:162-164 | In a sorted array without negative keys the search finds a key if and only if it is there. |
| `RdtCompare.Compare` | src/libcrun/intelrdt.c:111-169 | For well-formed schemata with distinct keys that are not negative the result is 0 if and only if both can be read and denote the same map, whatever the order of the parts. |
| `RdtPrint.PairReadsBack` | src/libcrun/intelrdt.c:98-109 | A pair printed with a decimal key and a hexadecimal value is read back. |
| `RdtPrint.PrintedDenotes` | src/libcrun/intelrdt.c:111-169 | A schema printed from pairs with distinct keys, behind any name and a colon, denotes the map of these pairs. |
| `Numbers.ConvertPrinted` | src/libcrun/intelrdt.c:100-107 | In every base from 2 to 16 a printed number is converted to that number, and what is behind it is left. |

## Left out

- AttachProtocol.StepKeepsInv: the list of attached programs is read in one atomic query, not by growing a buffer, and program ids are never reused.
- Handshake.StepKeepsInv: socket queues are unbounded, so a full socket never blocks a writer; poststart hooks and startContainer hooks run without any order between them, as in the source.
- ChrootRealpath.Realpath: where the source would read in front of its buffer the model stops with the outcome `OutOfBounds`.
- ChrootSteps.Step: readlink is a function of the number of the call and of the components it is asked about; two spellings of one path get the same answer.
- CpusetInit.InitRec: `cpuset.cpus` and `cpus` (and the two names for mems) are one file; a directory is named by the text of its path, so doubled slashes name different levels; reading a file that is open does not fail.
- ControllerFile.WriteControllers: making a cgroup threaded and reading the available controllers again are replies; the delay between two passes is not modelled.
- Threaded.TypeFiles.MakeThreaded: `.` and `..` inside a path are ordinary names, except for the parent `.`.
- NetDevice.Request.Append: bytes of the fixed headers are fields, not bytes; the buffer is smaller than 65536 bytes, as all callers' are.
- NetDevice.ConfigureAddresses: choosing the addresses to copy (permanent and globally routable) and the parsing of acknowledgements are not modelled.
- RdtCompare.Compare: sorting is by insertion, in place of the C library's; for lists that are not well-formed (`RdtSchema.CountParts`) the source searches memory it has not written, and the contract says nothing.
- SdParser.ParseList: the array of pointers to the results is a sequence; its reallocation is not modelled.
- The ring buffer of the console: its order across the wrap does not follow from the code.
- The seccomp cache, checkpointing, custom handlers, D-Bus calls, the command line, JSON and the language bindings: foreign libraries and plumbing.
- Removal of redundant deny rules in the systemd driver, weight conversions, mount flag tables: small or not as their comments say.
