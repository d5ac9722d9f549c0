# A verified model of Tamisu's stateful algorithms

Tamisu is an Android root and injection framework: a kernel part that edits the SELinux policy, hooks kernel
tables and steers app processes, a daemon that parses and sends policy rules, and an in-process loader for
injected libraries. This project models the dense algorithms in it and proves what they promise over all inputs,
all runs and all interleavings.

Code that updates state step by step is a class or an array method here, proved against functions on values; the
promises are lemmas about those functions and about runs of them. Access vectors, which the kernel stores as 32-bit
words, are sets of permission bits, so `|`, `&~` and `&` are union, difference and intersection. Every region the
kernel runs under one lock is one step of a state machine, every step it takes on shared state without the lock is a
step of its own, and a call keeps its place between them, so every interleaving is a run.

| file | what it models |
|---|---|
| Basics.dfy, Bits.dfy, SwapTable.dfy, SlotTable.dfy | shared types; the bits of a number; removal from an unordered table; fixed slots keyed by a process id |
| AvTab.dfy, RuleSets.dfy, RuleLaws.dfy, PolicyDb.dfy | the chained access-vector table, how a rule with wildcards is expanded, what it says in terms of the symbol tables' rows, and the edits of a policy |
| FileLoadPolicy.dfy | granting missing file permissions to one process and taking exactly those back |
| GrantProtocol.dfy, GrantProofs.dfy, GrantTheorems.dfy, GrantTimers.dfy, GrantLaws.dfy | the life of published grants: pending list, timers, restores and replacements by any number of threads, and policy batches beside them |
| NativePolicy.dfy, NativeRuns.dfy | the code of those regions on a real policy object, and any sequence of requests to it |
| SepolicyWire.dfy, SepolicyBatch.dfy, SepolicyApply.dfy | the byte format of a policy batch, the daemon's serializer and the kernel's cursor, and the batch transaction on a policy |
| ElfHash.dfy | symbol lookup through the GNU and SysV hash tables |
| SegmentMap.dfy | loading an image's segments by file mapping and by copying |
| TlsRegistry.dfy | thread-local storage of injected modules |
| RcSplice.dfy | appending two scripts to the stream init reads |
| LsmHook.dfy, SyscallHook.dfy | replacing and restoring LSM hook slots and system call table entries |
| Json.dfy, JsonParser.dfy | printing JSON values and parsing the printed text |
| FdBroker.dfy | handing file references over to an app process |
| Lifecycle.dfy | following app processes from fork to exit and announcing each once |
| CodePatch.dfy | AArch64 branches to a trampoline page and patched 64-bit constants |

## Results that differ from a first reading of the code

Where a natural expectation does not hold for all inputs, the model keeps the code as it is, gives an input that
shows it, and proves exactly when the expectation does hold.

- A restored or timed-out grant leaves the policy as it was before the grant, unless the policy could not be
  duplicated for the restore: then the record is dropped and its bits stay (`GrantLeftBehind`). Once every call and
  timer has finished, and without policy batches, the policy is the base policy again exactly when no restore of a
  record with bits has failed (`BaseAgainIff`).
- Policy batches and grants edit one policy. It stays the patched base policy plus the outstanding grants throughout a
  run exactly when no batch says something of a bit that is on loan (`ExactIff`). It keeps all that the patched base
  allows exactly as long as no restore takes back a bit that a batch has allowed meanwhile (`FaithfulIff`,
  `RestoreReturnsIff`), as in `BatchLostAtRestore`.
- A publication queues its entry's timer after it has released the lock. The timer is idle from the entry's cancel on,
  and never queued once the entry is freed, exactly when it is not queued after the cancel (`NoUseAfterFree`). A queued
  timer can end up in a freed entry exactly when it was queued after the cancel (`WildIffLate`), as in
  `FreedWhileQueued`. For that, some thread has to take the entry off the list before its timer is queued
  (`LateWasTaken`), but this alone does no harm (`TakenButCalm`).
- The line that a publication logs at its end reads its entry, which is freed memory exactly when a thread or the timer
  has freed it by then (`LogReadsFreed`), as in `LoggedAfterFree`.
- The exit of the file broker puts the files of a slot and clears the slot without the lock. Every file reference stays
  in exactly one place exactly when no call takes or replaces the files of a slot between exit's first fput and its
  clearing (`Conservation`, `NothingLeaks`); otherwise a file can be installed and put (`InstalledAndPut`).
- A clean JSON round trip needs every character below the space to be a newline or a tab (`SurvivesIffClean`);
  a carriage return comes back as the letter r, and two keys can come back as one (`LostCharacters`).
- A run of hook and unhook calls keeps the system call table restorable throughout exactly when no step patches an
  untracked call into a full tracking table with a function other than its pristine one (`RunRestorable`,
  `StepRestorable`); such a hook stays after the exit (`OverflowSurvives`), as the last of seventeen hooks does
  (`SeventeenthHookStays`).
- The two ways of loading a segment differ exactly for a segment that is not writable and whose last file page holds
  nonzero bytes behind the segment's own (`PathsAgree`), such as a one-byte segment in a file of two nonzero bytes
  (`TailByteDiffers`).
- A text operand reaches the kernel as itself exactly when it is nonempty, not `*`, has no NUL and is shorter than the
  buffer; a longer one silently becomes ALL (`TextSurvives`, with `TextsThatChange`).
- fstat reports the length of the spliced stream exactly while the module buffer is held (`FstatAgrees`); after the
  last byte was read it is too short (`FstatAfterTheEnd`).
- Every announcement is of an app uid, and it falls into a tracked lifetime in which nothing was announced before
  exactly when its pid is not 0 (`AnnouncedOnce`). The code does not refuse pid 0, which stands for a free slot: any
  report is announced exactly when its uid is an app's and the first slot with its pid exists and is not specialized
  (`AnnouncedWhen`), so a report of pid 0 on a fresh table is (`PidZeroIsAnnounced`).
- Every uid whose last five digits are below 90000 counts as an app's once it is 10000 or more, so the system uids of
  secondary users do too (`AppUids`).
- Denying a rule right after allowing it restores an entry exactly when the rule does not name the entry or none of
  the rule's bits were there before (`DenyUndoesAllow`); a permission that was already there is lost (`DenyTakesMore`).

## Model

| member | source | states |
|---|---|---|
| PolicyDb.PolicyDb.SearchNode | core/tamisu_sepolicy.c:125-180 | finds the position of a key's only node, or that the key has none |
| PolicyDb.PolicyDb.GetAvtabNode | core/tamisu_sepolicy.c:125-180 | the key's node exists afterwards with its old or the neutral value, no other entry changes, and the length grows exactly with the node count |
| PolicyDb.PolicyDb.RemoveAvtabNode | core/tamisu_sepolicy.c:193-238 | exactly that key disappears, `nel` drops by one and the length by one key and datum |
| PolicyDb.PolicyDb.EditEntry | core/tamisu_sepolicy.c:343-377 | one entry gets its bits set or cleared, a node left at the neutral value is dropped, no other entry changes |
| PolicyDb.PolicyDb.AddRuleRaw | core/tamisu_sepolicy.c:292-378 | the recursion over omitted parts ends and edits exactly the entries of source x target x class, keeping table, node count and length exact |
| PolicyDb.PolicyDb.AddRule | core/tamisu_sepolicy.c:240-290 | succeeds exactly when all names resolve (a permission needs a class), and then edits exactly the named entries |
| PolicyDb.PolicyDb.Allow | core/tamisu_sepolicy.c:897-901 | succeeds exactly when all names are known; adds the bits (all 32 when unspecified) to every entry whose source, target and class the rule names, an omitted type standing for the attributes only; every other node stays |
| PolicyDb.PolicyDb.Deny | core/tamisu_sepolicy.c:903-907 | the same, taking the bits from existing nodes and dropping emptied ones, an omitted type standing for every type |
| PolicyDb.PolicyDb.AuditAllowRule | core/tamisu_sepolicy.c:909-913 | the same as allow on the auditallow entries, an omitted type standing for the attributes only |
| PolicyDb.PolicyDb.DontAudit | core/tamisu_sepolicy.c:914-918 | clears the bits of auditdeny nodes that exist, an omitted type standing for the attributes only |
| PolicyDb.PolicyDb.ApplyEdits | core/tamisu_sepolicy.c:897-913 | over any sequence of edits every entry is the fold of the set readings, at most one node per key, no touched node at the neutral value, `nel` the node count, and the length changed by exactly key plus datum per node |
| PolicyDb.PolicyDb.Duplicate | core/tamisu_rules.c:280-287 | a duplicated policy is a separate object with the same symbol tables, node count, length and every entry |
| RuleLaws.ResolveIffKnown | core/tamisu_sepolicy.c:240-290 | a rule is accepted exactly when its types and class have a row of that name and its permission is one of the class or of its common |
| RuleLaws.TouchesIffNames | core/tamisu_sepolicy.c:296-342 | which rows an omitted type, target or class stands for, for each effect, given or taken |
| RuleLaws.RuleMaskIsBits | core/tamisu_sepolicy.c:355-375 | the bits of a rule are its permission's, or all 32 |
| RuleSets.Symbols.LookIsVec | core/tamisu_sepolicy.c:343-377 | reading an absent node as the neutral vector, any sequence of allow, deny and auditallow edits is union and difference of bits on exactly the entries each names |
| RuleSets.Symbols.AllowTouchesWithinDeny | core/tamisu_sepolicy.c:69 | whatever a rule touches as allow it also touches as deny |
| RuleSets.Symbols.DenyUndoesAllow | core/tamisu_sepolicy.c:897-907 | deny after allow equals deny alone, and restores an entry exactly when the rule does not name it or its bits were not there |
| RuleSets.DenyTakesMore | core/tamisu_sepolicy.c:897-907 | a permission that was there before allow and deny is gone after them |
| FileLoadPolicy.RequiredAv | core/tamisu_rules.c:132-141 | the loop collects exactly the bits of the listed permissions the class has |
| FileLoadPolicy.DirectAllowedAv | core/tamisu_rules.c:143-155 | the allowed bits of one key, empty when there is no node |
| FileLoadPolicy.ApplyFileAv | core/tamisu_rules.c:176-199 | sets or clears on one key exactly those of the bits that the permission list names; an unknown type changes nothing and fails unless there is no such bit; a missing file class fails |
| FileLoadPolicy.MissingResolves | core/tamisu_rules.c:261-277 | what a grant adds was not there before, also when the target is tmpfs itself, and can be named again for the restore |
| FileLoadPolicy.ApplyGrant | core/tamisu_rules.c:288-304 | both keys of a grant together are changed by exactly the grant's bits |
| FileLoadPolicy.SelinuxState.AllowCurrent | core/tamisu_rules.c:201-323 | which error occurs when, a missing policy included; on success exactly read, open, getattr, map and execute of class file come to be allowed on the target, and with write on tmpfs if there is such a type, and exactly the new ones are recorded; on any failure the policy object is the old one and nothing is recorded |
| FileLoadPolicy.AllowErrors | core/tamisu_rules.c:201-323 | the errors by number, and when each occurs |
| FileLoadPolicy.SelinuxState.Restore | core/tamisu_rules.c:325-393 | for any record, also one made under other symbol tables: which error occurs when, and on success exactly the bits go that the record's names still mean |
| GrantTheorems.StepKeeps | core/tamisu_zygote_probe.c:151-264 | every step of every call and timer keeps the ownership and history invariants |
| GrantTheorems.RunKeeps | core/tamisu_zygote_probe.c:151-264 | so does any interleaving of any number of threads, timers and policy batches |
| GrantLaws.ListLaw | core/tamisu_zygote_probe.c:151-264 | exactly the entries of the own process, by a publication or a restore, and the own timer's entry leave the list, and exactly a publication's own entry comes onto it |
| GrantLaws.OrderLaw | core/tamisu_zygote_probe.c:212-252 | the others keep their order, and a new entry comes behind them |
| GrantLaws.EntryLaw | core/tamisu_zygote_probe.c:151-264 | an entry keeps its process for life, is pending exactly while it is listed, loses its record exactly at its restore and its memory exactly at its free, and its timer changes by its own steps only |
| GrantLaws.NewEntryLaw | core/tamisu_zygote_probe.c:185-220 | the only new entry is the one that a publication makes, with its call's grant |
| GrantLaws.OwnerLaw | core/tamisu_zygote_probe.c:160-252 | a taken entry goes to the call or timer that took it, every other one stays with whom it was |
| GrantLaws.TodoLaw | core/tamisu_zygote_probe.c:212-252 | a publication and a restore have to work off exactly the listed entries of their own process, in order |
| GrantLaws.OtherCallsLaw | core/tamisu_zygote_probe.c:151-264 | no step changes another call |
| GrantLaws.ListedIffNeverTaken | core/tamisu_zygote_probe.c:151-264 | along any run an entry is listed as long as neither its own timer nor a publication or restore of its own process takes it |
| GrantProofs.StepPolicy | core/tamisu_zygote_probe.c:151-264 | a step keeps the policy exact unless it is a batch that says something of a bit on loan |
| GrantTheorems.PolicyIsBasePlusGrants | core/tamisu_zygote_probe.c:151-264 | in every state reached without a batch on a bit on loan, each vector is its patched base plus the union of all outstanding grants and of what failed restores left behind; all of these are disjoint; and a vector is base again exactly when there is neither on it |
| GrantTheorems.ExactIff | core/tamisu_rules.c:201-393 | the policy is exact in every state of a run exactly when no batch in it says something of a bit on loan |
| GrantTheorems.FaithfulIff | core/tamisu_rules.c:325-393 | in any run the policy keeps all that the patched base allows exactly as long as no restore takes back a bit the base has come to allow |
| GrantTheorems.RestoreReturnsIff | core/tamisu_rules.c:325-393 | a restore leaves the bits of its record as the patched base has them exactly when the base allows none of them |
| GrantTheorems.BatchLostAtRestore | core/tamisu_rules.c:325-393 | a run in which a batch allows a bit on loan and the restore takes it away |
| GrantTheorems.StuckIffStranded | core/tamisu_zygote_probe.c:151-158 | over any run nothing is ever left behind exactly when no restore fails on a record with bits to take back |
| GrantTheorems.ExactStrands | core/tamisu_zygote_probe.c:151-158 | while the policy is exact, a restore leaves bits behind exactly when it fails and its record has bits |
| GrantTheorems.BaseAgainIff | core/tamisu_zygote_probe.c:151-264 | when all calls and timers have finished, the policy is the base policy exactly when nothing is left behind and nothing was taken from the base; without batches, exactly when no restore of a record with bits failed |
| GrantTheorems.GrantLeftBehind | core/tamisu_zygote_probe.c:151-158 | a run after which a granted bit stays in the policy with nothing outstanding |
| GrantTheorems.RestoredAndFreedOnce | core/tamisu_zygote_probe.c:160-264 | every published record is passed to restore at most once, freed at most once and after that, and both exactly once when it is gone, whoever wins the lock |
| GrantTheorems.OnePendingPerProcess | core/tamisu_zygote_probe.c:212-220 | the pending list never holds two records of one process, and every listed record's timer is queued or running, or about to be queued by the call that published it |
| GrantTheorems.DrainsAlone | core/tamisu_zygote_probe.c:224-264 | a draining call only works on allocated entries that are off the list and that no other call drains and no timer body restores |
| GrantTimers.NoUseAfterFree | core/tamisu_zygote_probe.c:212-228 | in every run an entry's timer is idle from its cancel to its free and never queued or running afterwards, exactly when its publisher never queues it after the cancel |
| GrantTimers.WildIffLate | core/tamisu_zygote_probe.c:212-228 | after a timer is queued in any reachable state, some run leads to a freed entry with its timer queued or running exactly when it was queued after the cancel |
| GrantTimers.LateWasTaken | core/tamisu_zygote_probe.c:212-228 | a timer can be queued too late only if the entry was taken off the list first |
| GrantTimers.FreedWhileQueued | core/tamisu_zygote_probe.c:212-228 | a run that frees an entry whose timer is queued |
| GrantTimers.TakenButCalm | core/tamisu_zygote_probe.c:212-228 | a run in which an entry is taken before its timer is queued, and nothing goes wrong |
| GrantTimers.LogReadsFreed | core/tamisu_zygote_probe.c:229-232 | the log line reads freed memory exactly when some step of the run has freed the entry |
| GrantTimers.LoggedAfterFree | core/tamisu_zygote_probe.c:229-232 | a run in which it does |
| GrantTheorems.FinishHead | core/tamisu_zygote_probe.c:224-264 | waiting for a running timer body always ends |
| GrantTheorems.CanDrain | core/tamisu_zygote_probe.c:151-264 | from every reachable state all calls and timers can finish, and then every record was passed to restore and freed once, and the policy, if it was exact, is the base again but for what failed restores had left behind |
| NativePolicy.Probe.MoveTgid | core/tamisu_zygote_probe.c:213-218 | the list walk moves exactly the process's entries, in order, and clears their pending flags |
| NativePolicy.Probe.Publish | core/tamisu_zygote_probe.c:185-220 | up to the unlock: a grant without bits or without memory for its entry is the protocol's give-back step, any other its publish step |
| NativePolicy.Probe.Arm | core/tamisu_zygote_probe.c:222 | queueing the timer is the protocol's arm step, whether or not the entry still exists |
| NativePolicy.Probe.Release | core/tamisu_zygote_probe.c:235-252 | an explicit restore's lock region is the protocol's take step; a tgid below 1 is refused and changes nothing |
| NativePolicy.Probe.TimeoutLocked | core/tamisu_zygote_probe.c:160-176 | the timer body's lock region claims the entry exactly if it is still pending |
| NativePolicy.Probe.AllowCurrent | core/tamisu_zygote_probe.c:599-770 | the grant made while staging is a step the protocol allows: its bits are new |
| NativePolicy.Probe.GiveBack | core/tamisu_zygote_probe.c:151-158 | a failed injection takes back exactly what it was granted, or nothing when the policy cannot be duplicated |
| NativePolicy.Probe.RestoreHead | core/tamisu_zygote_probe.c:224-230 | restoring a drained entry, with or without success, is the protocol's step on the real policy object |
| NativePolicy.Probe.TimeoutRestore | core/tamisu_zygote_probe.c:178-183 | restoring by the timer body likewise |
| NativePolicy.Probe.PatchPolicy | core/tamisu_rules.c:754-862 | a batch of rule statements is the protocol's batch step, with the bits that its rules turn on and off |
| RuleSets.Symbols.VecIsOffOn | core/tamisu_sepolicy.c:343-377 | any sequence of allow, deny and auditallow rules clears some bits of every vector and then sets some, whatever the vector was |
| NativeRuns.Run | core/tamisu_zygote_probe.c:151-264 | whatever threads, timers and batches attempt, in any order and with any failures, the code serves by a run of the protocol; the published policy object's vectors are the patched base plus exactly the outstanding grants and what failed restores left behind, if no batch touched a bit on loan; and the conditions for leaving bits behind and for losing some are those of the protocol |
| SepolicyWire.DecodeOfEncode | core/tamisu_rules.c:805-845 | decoding an encoded list of valid commands gives back every command and argument |
| SepolicyWire.EncodeOfDecode | core/tamisu_rules.c:805-845 | re-encoding any accepted payload gives the same bytes |
| SepolicyWire.DecodeIffEncode | core/tamisu_rules.c:805-845 | a payload is accepted as a list of commands exactly when it is the encoding of that list |
| SepolicyWire.WireExample | daemon/tamisud_core/src/sepolicy/sepolicy.cpp:560-594 | the bytes of one command |
| SepolicyBatch.TextSurvives | daemon/tamisud_core/src/sepolicy/sepolicy.cpp:65-75 | exactly which operands reach the kernel as themselves, and which become ALL |
| SepolicyBatch.TextsThatChange | daemon/tamisud_core/src/sepolicy/sepolicy.cpp:65-75 | a text as long as the buffer becomes ALL, and one with a NUL inside is cut there |
| SepolicyBatch.ArgcAgree | core/tamisu_rules.c:561-584 | the two separately written argument-count tables agree on every command word, and what they say of the nine commands |
| SepolicyBatch.Serializer.AppendPolicyObject | daemon/tamisud_core/src/sepolicy/sepolicy.cpp:565-575 | an object is appended as the encoding of the argument the kernel will read |
| SepolicyBatch.Serializer.SerializeStatement | daemon/tamisud_core/src/sepolicy/sepolicy.cpp:577-594 | a known command is appended as its encoding; an unknown one leaves the payload alone |
| SepolicyBatch.Serializer.SerializeStatements | daemon/tamisud_core/src/sepolicy/sepolicy.cpp:596-605 | succeeds exactly when all commands are known, and then the payload is the encoding of all of them |
| SepolicyBatch.BatchCursor.ReadCmdHeader | core/tamisu_rules.c:511-521 | reads two words without passing the end, or fails |
| SepolicyBatch.BatchCursor.ReadString | core/tamisu_rules.c:523-550 | reads exactly what the format's argument decoder says, without passing the end |
| SepolicyBatch.BatchCursor.ReadCommand | core/tamisu_rules.c:805-845 | header, count check and argument loop read exactly one command of the format, or fail where it does |
| SepolicyApply.OperandOfText | daemon/tamisud_core/src/sepolicy/sepolicy.cpp:65-75 | which texts name themselves to the rule engine and which are its wildcard |
| SepolicyApply.RulesReach | core/tamisu_rules.c:586-613 | applying rule commands in order does to every entry what the fold of the rules says, and each succeeds exactly when its names resolve |
| SepolicyApply.RulesOfStatements | daemon/tamisud_core/src/sepolicy/sepolicy.cpp:577-605 | the rules the kernel decodes are those of the daemon's statements, one for one |
| SepolicyApply.PolicyHolder.ApplyCommand | core/tamisu_rules.c:586-613 | command 1 edits the copy in place: subcommand 1 gives the bits to the nodes the operands name, 2 takes them, 3 gives them on auditallow and 4 takes them on auditdeny, the operands being source, target, class and permission in this order; any other subcommand fails and changes nothing |
| SepolicyApply.PolicyHolder.HandleSepolicy | core/tamisu_rules.c:754-862 | the published policy is a copy to which all decoded commands were applied in order, with the count of successes; after a decode error, at whatever command, the old object is still published; the old object is never changed |
| SepolicyApply.PolicyHolder.LivePatch | daemon/tamisud_core/src/sepolicy/sepolicy.cpp:609-662 | end to end: success is reported exactly when the kernel applied every statement, and otherwise the policy is untouched or what the commands in order make of it |
| SepolicyApply.PolicyHolder.PatchRules | daemon/tamisud_core/src/sepolicy/sepolicy.cpp:609-662 | a live patch of rule statements makes of every node what their subcommand numbers and operands say, in order, and succeeds exactly when all their names exist; without memory for the copy it fails and changes nothing |
| ElfHash.GnuHash | daemon/zygisk/core/src/zygisk_linker.cpp:349-354 | the loop computes the 32-bit hash of the name |
| ElfHash.SysvHash | daemon/zygisk/core/src/zygisk_linker.cpp:356-366 | the loop computes the hash of the System V gABI |
| ElfHash.GnuIsPolynomial | daemon/zygisk/core/src/zygisk_linker.cpp:349-354 | the hash is 5381 * 33^n plus the sum of s[i] * 33^(n-1-i), modulo 2^32 |
| ElfHash.SysvIsPolynomial | daemon/zygisk/core/src/zygisk_linker.cpp:356-366 | the hash has 28 bits, and is the sum of s[i] * 16^(n-1-i) when that has |
| ElfHash.SysvStepBits | daemon/zygisk/core/src/zygisk_linker.cpp:359-364 | each step of the hash, bit by bit: shifted and added, bits 28 to 31 exclusive-ored into bits 4 to 7 and cleared |
| ElfHash.HashExamples | daemon/zygisk/core/src/zygisk_linker.cpp:349-366 | the hashes of three names, one of which overflows |
| ElfHash.BloomRejects | daemon/zygisk/core/src/zygisk_linker.cpp:369-393 | a name the bloom filter rejects is no symbol's name |
| ElfHash.OnlyInItsRun | daemon/zygisk/core/src/zygisk_linker.cpp:369-393 | a name can only occur between its bucket's start and end bit |
| ElfHash.GnuLookup | daemon/zygisk/core/src/zygisk_linker.cpp:369-393 | terminates and returns exactly what a linear scan of the hashed symbols returns |
| ElfHash.SysvLookup | daemon/zygisk/core/src/zygisk_linker.cpp:395-405 | terminates and finds a symbol of the name exactly when there is one |
| ElfHash.LinkedIsWellFormed | daemon/zygisk/core/src/zygisk_linker.cpp:369-405 | a linker's tables for two symbols, as numbers, are what the lookups expect |
| ElfHash.Dlsym | daemon/zygisk/core/src/zygisk_linker.cpp:951-963 | a result is a defined symbol of that name; the GNU table's answer goes first |
| SegmentMap.ComputeSpan | daemon/zygisk/core/src/zygisk_linker.cpp:688-703 | a span exists exactly with a loadable and a dynamic segment; it holds all pages of every loadable segment, starts where one of them starts and ends where one ends |
| SegmentMap.PathsAgree | daemon/zygisk/core/src/zygisk_linker.cpp:722-758 | mapping and copying agree on every byte exactly when the segment is writable or the rest of its last file page is zero |
| SegmentMap.TailByteDiffers | daemon/zygisk/core/src/zygisk_linker.cpp:722-758 | a segment on which the two paths differ |
| SegmentMap.BehindTheFile | daemon/zygisk/core/src/zygisk_linker.cpp:722-758 | behind the end of the file both paths give zeros |
| SegmentMap.MapSegment | daemon/zygisk/core/src/zygisk_linker.cpp:722-746 | a mapped segment holds its file bytes and tail as specified and no byte outside its pages changes |
| SegmentMap.CopySegment | daemon/zygisk/core/src/zygisk_linker.cpp:747-758 | a copied segment holds its file bytes, then zeros; fails exactly for an empty one |
| SegmentMap.LoadSegments | daemon/zygisk/core/src/zygisk_linker.cpp:716-760 | after the loop every loadable segment has its contents, whatever was loaded after it |
| TlsRegistry.StepInv | daemon/zygisk/core/src/zygisk_linker.cpp:185-309 | every registration, access, thread start and end and shutdown keeps the registry's invariant |
| TlsRegistry.ModuleLaw | daemon/zygisk/core/src/zygisk_linker.cpp:222-309 | exactly a registration gives an id an owner and the owner's image and sizes, exactly a shutdown or the owner's unregistration takes it away, and nothing else touches a module |
| TlsRegistry.HandleLaw | daemon/zygisk/core/src/zygisk_linker.cpp:222-272 | an image's data never changes, and its id only by its own registration and unregistration |
| TlsRegistry.ThreadLaw | daemon/zygisk/core/src/zygisk_linker.cpp:168-309 | a thread has a table from its first access to its end, and exactly an access of the thread to the module, in range and with memory, fills a slot |
| TlsRegistry.RegisteredContents | daemon/zygisk/core/src/zygisk_linker.cpp:207-309 | an access at any time after an image's registration resolves exactly when the id was not taken from it, the offset is in range and there is a block or memory for one; the block then holds the registered image's bytes and zeros behind, aligned as the image asks |
| TlsRegistry.PowersOfTwo | daemon/zygisk/core/src/zygisk_linker.cpp:222-259 | the alignments accepted are the powers of two |
| TlsRegistry.IdsNeverReused | daemon/zygisk/core/src/zygisk_linker.cpp:222-259 | over any run a later registration gets a larger module id |
| TlsRegistry.DeadForever | daemon/zygisk/core/src/zygisk_linker.cpp:261-309 | an id that was unregistered, and after shutdown every id, never resolves again |
| TlsRegistry.SameBlock | daemon/zygisk/core/src/zygisk_linker.cpp:274-309 | a live thread and module resolve into the same block at any two times |
| TlsRegistry.BlockContents | daemon/zygisk/core/src/zygisk_linker.cpp:207-220 | the block was created for that pair with the image's first bytes and zeros behind, and contains the offset |
| TlsRegistry.DistinctBlocks | daemon/zygisk/core/src/zygisk_linker.cpp:274-309 | different pairs never share a block, at any two times |
| TlsRegistry.Registry.RegisterTlsModule | daemon/zygisk/core/src/zygisk_linker.cpp:222-259 | the code is the registry's register step, with the refusals of bad sizes and alignments, shutdown and exhausted ids |
| TlsRegistry.Registry.UnregisterTlsModule | daemon/zygisk/core/src/zygisk_linker.cpp:261-272 | the code is the unregister step |
| TlsRegistry.Registry.GetThreadTls | daemon/zygisk/core/src/zygisk_linker.cpp:185-205 | a thread gets a table of empty slots once, and none after shutdown |
| TlsRegistry.Registry.TlsGetAddrLocked | daemon/zygisk/core/src/zygisk_linker.cpp:274-309 | the code is the access step and returns its block |
| TlsRegistry.Registry.ShutdownLocked | daemon/zygisk/core/src/zygisk_linker.cpp:987-1001 | the loop closes every module |
| TlsRegistry.Registry.DestroyThreadTls | daemon/zygisk/core/src/zygisk_linker.cpp:168-176 | the code is the thread-end step |
| RcSplice.RcStream.ReadProxy | core/tamisu_daemon_integration.c:378-437 | one read hands over exactly the next bytes of original, static and module script, as many as it says, and says 0 for a nonzero size only at the very end |
| RcSplice.RcStream.ReadIterProxy | core/tamisu_daemon_integration.c:439-492 | the same for the iterator proxy |
| RcSplice.RcStream.AppendModule | core/tamisu_daemon_integration.c:415-434 | the next bytes of the module script, and its buffer freed exactly after the last one |
| RcSplice.RcStream.FstatAgrees | core/tamisu_daemon_integration.c:588-605 | the reported size is the length of the whole stream exactly while the module buffer is held, which it is as long as anything is left to read |
| RcSplice.FstatAfterTheEnd | core/tamisu_daemon_integration.c:588-605 | a stream of three parts is read in their order, and after its end the reported size is smaller than its length |
| RcSplice.RcStream.ReadMany | core/tamisu_daemon_integration.c:371-492 | over any mix of proxies, sizes and partial reads of the file, what was delivered is the next piece of the one stream |
| RcSplice.EnoughReadsFinish | core/tamisu_daemon_integration.c:371-492 | nonzero reads without errors reach the end of the stream |
| LsmHook.LsmHooks.Track | core/tamisu_lsm_hook.c:40-53 | a hook is listed once, and refused exactly when the table is full |
| LsmHook.LsmHooks.Untrack | core/tamisu_lsm_hook.c:55-67 | exactly that hook leaves the table |
| LsmHook.LsmHooks.Underlying | core/tamisu_lsm_hook.c:328-343 | reading a slot through the tracked hooks gives its pristine function, hooks stacked or not |
| LsmHook.LsmHooks.FindSlot | core/tamisu_lsm_hook.c:326-361 | the scan selects the first slot whose pristine function is the target |
| LsmHook.LsmHooks.Install | core/tamisu_lsm_hook.c:92-452 | which error occurs when; success patches one slot and records its pristine function; an error, a full table included, changes nothing |
| LsmHook.InstallErrors | core/tamisu_lsm_hook.c:92-452 | the errors by number, and when each occurs |
| LsmHook.LsmHooks.Unhook | core/tamisu_lsm_hook.c:454-503 | writes the pristine function back and forgets the hook, or changes nothing |
| LsmHook.LsmHooks.FreeSlotIsPristine | core/tamisu_lsm_hook.c:92-503 | a slot without an installed hook holds its pristine function |
| LsmHook.LsmHooks.Exit | core/tamisu_lsm_hook.c:521-535 | exactly the hooks whose write fails stay installed; if none fails every slot is pristine |
| LsmHook.LsmHooks.RunThenExit | core/tamisu_lsm_hook.c:92-535 | any sequence of hook and unhook calls with any failures, then an exit, restores every slot |
| SyscallHook.StepRestorable | core/tamisu_syscall_hook.c:48-119 | a call keeps untracked entries and saved originals pristine exactly when it does not patch an untracked call into a full table with another function |
| SyscallHook.RunRestorable | core/tamisu_syscall_hook.c:48-119 | the table stays restorable throughout a run, whatever writes fail, exactly when each step is safe |
| SyscallHook.ExitRestores | core/tamisu_syscall_hook.c:236-264 | a successful exit puts the whole table back exactly when everything was restorable |
| SyscallHook.RunThenExit | core/tamisu_syscall_hook.c:48-264 | hook, re-hook, fail and unhook at will with safe steps, then exit: the table is the pristine one |
| SyscallHook.FewHooksThenExit | core/tamisu_syscall_hook.c:48-264 | in particular when the tracking table is never full |
| SyscallHook.OverflowSurvives | core/tamisu_syscall_hook.c:70-79 | a hook past the end of the tracking table outlives the exit |
| SyscallHook.SeventeenthHookStays | core/tamisu_syscall_hook.c:48-264 | the run of seventeen hooks and an exit, after which the last hook is still in the table |
| SyscallHook.SyscallHooks.Hook | core/tamisu_syscall_hook.c:48-88 | the code is the hook step, with its error codes and the previous function |
| SyscallHook.SyscallHooks.Unhook | core/tamisu_syscall_hook.c:90-119 | the code is the unhook step, swap-removal included, with its error codes |
| SyscallHook.SyscallHooks.Exit | core/tamisu_syscall_hook.c:236-264 | every tracked entry whose write succeeds gets its saved original, no other entry changes |
| SyscallHook.HookLaw | core/tamisu_syscall_hook.c:48-88 | a hook writes exactly its own entry, and saves exactly what it found there, if the call is not tracked and there is room |
| SyscallHook.UnhookLaw | core/tamisu_syscall_hook.c:90-119 | an unhook puts exactly its own entry back to what was saved and forgets exactly that |
| Json.MangleClean | daemon/tamisud_core/src/core/json.h:200-226 | whatever is parsed back is clean and a proper map |
| Json.SurvivesIffClean | daemon/tamisud_core/src/core/json.h:80-105 | a value survives printing and parsing exactly when its strings and keys have no control characters but newline and tab |
| Json.LostCharacters | daemon/tamisud_core/src/core/json.h:211-220 | a carriage return becomes a letter, and two keys become one |
| Json.ArrayExample | daemon/tamisud_core/src/core/json.h:122-138 | the text of an array, indented |
| Json.ObjectExample | daemon/tamisud_core/src/core/json.h:139-158 | the text of an object in compact form, with its escapes |
| Json.ZeroExamples | daemon/tamisud_core/src/core/json.h:113-119 | the texts of zero and of a hundred, and an indentation of zero |
| JsonParser.Parser.ParseString | daemon/tamisud_core/src/core/json.h:200-226 | the loop reads, on any input at all, what the string format says |
| JsonParser.Parser.ParseValue | daemon/tamisud_core/src/core/json.h:172-198 | on any printed value, at any depth and indentation, the parser gives the value back up to mangling and stops right behind it |
| JsonParser.Parser.ParseArray | daemon/tamisud_core/src/core/json.h:236-253 | the same for the array loop |
| JsonParser.Parser.ParseObject | daemon/tamisud_core/src/core/json.h:255-275 | the same for the object loop |
| JsonParser.Parse | daemon/tamisud_core/src/core/json.h:283-285 | parsing a printed value gives it back exactly when it is clean |
| JsonParser.SpacesAre | daemon/tamisud_core/src/core/json.h:167-170 | the characters that are skipped |
| FdBroker.StepConserves | core/tamisu_zygote_ctl.c:59-215 | without a clash no step of any call or of exit creates, copies or loses a file reference; only a successful fget adds one |
| FdBroker.Conservation | core/tamisu_zygote_ctl.c:59-215 | in any interleaving of any calls and exit no array is overfilled, and each reference taken is in exactly one slot, one call's locals, one installed descriptor or put once, exactly when no call took or replaced the files of a slot that exit was working off |
| FdBroker.NothingLeaks | core/tamisu_zygote_ctl.c:59-215 | when all calls have returned and all slots are empty, each reference was installed or put, once, exactly when there was no such clash |
| FdBroker.InstalledAndPut | core/tamisu_zygote_ctl.c:200-215 | a run in which exit puts a file and a delivery then installs it |
| FdBroker.OneSlotPerProcess | core/tamisu_zygote_ctl.c:130-139 | a repeated handoff replaces; no process ever has two slots |
| FdBroker.Broker.TakeAll | core/tamisu_zygote_ctl.c:114-121 | the fget loop takes one reference per descriptor up to the first bad one |
| FdBroker.Broker.PlaceLocked | core/tamisu_zygote_ctl.c:130-153 | in whatever state other calls are: the files replace those of the process's slot or fill a free one, the old ones are left to put, and a full table leaves the new ones to put |
| FdBroker.Broker.DeliverLocked | core/tamisu_zygote_ctl.c:67-73 | in whatever state other calls are, the locked region empties the slot and takes its files |
| FdBroker.Broker.ReleaseLocked | core/tamisu_zygote_ctl.c:181-188 | in whatever state other calls are, the locked region empties the process's slot and takes its files |
| FdBroker.Broker.Handoff | core/tamisu_zygote_ctl.c:98-172 | which error occurs when; every failing call puts all it took and leaves the slots alone |
| FdBroker.HandoffErrors | core/tamisu_zygote_ctl.c:98-172 | the errors by number, and when each occurs |
| FdBroker.TargetIs | core/tamisu_zygote_ctl.c:130-139 | the files go into the process's own slot, else into the first free one |
| FdBroker.Broker.Deliver | core/tamisu_zygote_ctl.c:59-96 | each file of the slot is installed or put according to its descriptor, all are put for a dying target |
| FdBroker.Broker.Release | core/tamisu_zygote_ctl.c:174-193 | the process's slot is emptied and its files put |
| FdBroker.Broker.ExitFile | core/tamisu_zygote_ctl.c:208-212 | in whatever state the calls are, one turn of the inner loop puts the next file, or the slot's count is cleared when there is none left |
| FdBroker.Broker.Exit | core/tamisu_zygote_ctl.c:200-215 | run alone, it puts every file of every slot, once and in order, and empties the slots |
| Lifecycle.EveryRunIsLegal | core/tamisu_zygote_orch.c:40-229 | in any order and with any repetition of forks, frees, kernel hooks and reports, each process is tracked, announced at most once, then gone, and no two slots hold one process |
| Lifecycle.TrackingLaw | core/tamisu_zygote_orch.c:48-117 | a process comes to be tracked exactly when it is a leader forked from a zygote, is not tracked and a slot is free; it leaves exactly when its leader is freed; and what each step logs |
| Lifecycle.SlotLaw | core/tamisu_zygote_orch.c:48-229 | what each step makes of each slot; no other process's slot changes |
| Lifecycle.AppUids | core/tamisu_zygote_orch.c:165-229 | which uids are announced, by user and number within it |
| Lifecycle.AnnouncedOnce | core/tamisu_zygote_orch.c:165-229 | every announcement in every run is of an app uid, and lies in a tracked lifetime in which nothing was announced before exactly when its pid is not 0 |
| Lifecycle.AnnouncedWhen | core/tamisu_zygote_orch.c:165-229 | a hook call or report is announced exactly when its uid is an app's and the first slot with its pid exists and is not specialized |
| Lifecycle.PidZeroIsAnnounced | core/tamisu_zygote_orch.c:199-229 | a report for pid 0 is announced although nothing is tracked |
| Lifecycle.Orchestrator.OnFork | core/tamisu_zygote_orch.c:52-89 | the code is the fork step; only thread-group leaders born from the zygote count |
| Lifecycle.Orchestrator.OnFree | core/tamisu_zygote_orch.c:91-117 | the code is the free step, and brokered files are released exactly for a tracked process |
| Lifecycle.Orchestrator.OnUidChange | core/tamisu_zygote_orch.c:165-197 | the code is the announce step, and what it emits is the appid |
| Lifecycle.Orchestrator.OnUserspaceReport | core/tamisu_zygote_orch.c:199-229 | the same for a report |
| CodePatch.BranchExact | daemon/zygisk/core/src/inline_hook.h:69-72 | an encoded branch decodes to its destination exactly when that is a whole number of instructions away and within 128 MB |
| CodePatch.AllocNear | daemon/zygisk/core/src/inline_hook.h:93-124 | the page is at the first hint that is taken up, and no other mapping is left behind |
| CodePatch.PageReachable | daemon/zygisk/core/src/inline_hook.h:93-124 | from every page the search can return both branches reach |
| CodePatch.InstallHook | daemon/zygisk/core/src/inline_hook.h:145-216 | on success the two branches lead to the page and behind the prologue, whose instructions were relocatable; on failure the target is untouched |
| CodePatch.HookedOnce | daemon/zygisk/core/src/inline_hook.h:52-66 | a hooked function is refused a second hook |
| CodePatch.IsPcRelByMasks | daemon/zygisk/core/src/inline_hook.h:52-66 | the relocation check is the six masks and values, bit by bit |
| CodePatch.WordExamples | daemon/zygisk/core/src/inline_hook.h:69-124 | two branch words, two constant words and the first hints |
| CodePatch.MovesAre | core/tamisu_zygote_probe.c:267-276 | what the words of each kind do to the register |
| CodePatch.PatchImm64 | core/tamisu_zygote_probe.c:267-276 | exactly four words change, each to its part of the value |
| CodePatch.PatchedValue | core/tamisu_zygote_probe.c:267-276 | for every 64-bit value the patched MOVZ and MOVK words put it in their register, whatever it held |

## Left out

- Kernel internals reached through resolved symbols (policy serialization, the chain order of an inserted node, task work, mmap, text patching): parameters say what they answer, and a duplicated policy is a deep copy.
- Extended-permission rules, filename transitions, type transitions, genfs contexts, and new types and attributes: they share the table or the policy but not the edits modelled here.
- PolicyDb.PolicyDb.DontAudit: states that it acts only on nodes that already exist, which is what the code does; it is not the set reading.
- PolicyDb.PolicyDb.GetAvtabNode: assumes that the insertion succeeds, and has no extended-permission keys; serialized keys and data are taken as 8 bytes each.
- PolicyDb.PolicyDb.RemoveAvtabNode: assumes that its own allocation succeeds.
- FileLoadPolicy.SelinuxState.AllowCurrent: flags say whether there are a file, a policy, and the label and security ids; how the contexts are looked up is not modelled.
- NativePolicy.Probe.AllowCurrent: the staging code around the grant only appears as the calls that hold one.
- GrantTimers.WildIffLate: what the kernel does when the timer of a freed entry fires is undefined, so runs end there.
- NativeRuns.Run: the batches are of rule statements that fit a payload; a batch that adds types or attributes would change the symbol tables, which all records refer to. A policy that was there stays.
- FileLoadPolicy.MissingResolves: the symbol tables agree with each other, as loading a policy builds them: a type's name is found with its value, and every type found, an alias included, has a name.
- SepolicyApply.PolicyHolder.HandleSepolicy: a command that is not a rule is a function parameter that keeps the table well formed; copying the payload in and allocating its buffer succeed.
- SepolicyApply.PolicyHolder.ApplyCommand: the effect of a command that is not a rule is the function parameter too.
- SepolicyApply.PolicyHolder.LivePatch: starts from parsed statements; the text rule parser is not modelled, and can loop without advancing on malformed rules.
- SepolicyApply.PolicyHolder.PatchRules: batches of rule statements only; for the auditdeny entries of a batch with dontaudit statements it states the edits of the nodes, since dontaudit has no set reading.
- ElfHash.Dlsym: the address computation from the symbol, indirect functions and the loader's relocation processing (RELA, RELR and TLS descriptors) are not modelled.
- ElfHash.SysvIsPolynomial: the closed form is only for names whose 28 bits do not overflow; SysvStepBits covers the rest step by step.
- SegmentMap.MapSegment: page protections, VMA names, failures of individual mappings and headers whose addresses wrap.
- SegmentMap.CopySegment: the same.
- SegmentMap.LoadSegments: the same, and the reservation of the span succeeds.
- TlsRegistry.Registry.GetThreadTls: failures of the thread-key functions and of the allocation are one condition with shutdown.
- TlsRegistry.Registry.ShutdownLocked: the thread key, deleted after the lock is released, is not modelled.
- TlsRegistry.Registry.DestroyThreadTls: freeing each block is modelled as forgetting the thread's table.
- RcSplice.RcStream.ReadProxy: copy faults; each copy moves as many bytes as fit. Loading the module script and recognising init.rc are outside.
- RcSplice.RcStream.ReadIterProxy: partial copies into the iterator.
- RcSplice.RcStream.AppendModule: copy faults.
- RcSplice.RcStream.ReadMany: copy faults.
- LsmHook.LsmHooks.Install: hooks with an offset, the lookup of the hook heads, and the static calls of kernels from 6.12 on; the lists of all hook heads are one sequence of slots in the order they are walked.
- LsmHook.LsmHooks.Unhook: the static calls of kernels from 6.12 on.
- LsmHook.LsmHooks.RunThenExit: assumes that replacements are pairwise distinct and not pristine slot values.
- JsonParser.Parser.ParseValue: states results for printed values only; on malformed input the array and object loops may not advance. Numbers are integer-valued doubles, taken as integers: `std::to_string` prints such a value exactly and `std::stod` reads it back exactly.
- JsonParser.Parser.ParseArray: printed arrays only, for the same reason.
- JsonParser.Parser.ParseObject: printed objects only, for the same reason.
- JsonParser.Parse: printed values only, for the same reason.
- FdBroker.Broker.Handoff: copying the command in and the lookup of the target task are not modelled. Which process receives files after two handoffs to one process (the same callback may be queued twice) is not claimed, only conservation.
- FdBroker.Broker.PlaceLocked: queueing the delivery is a separate step that may happen at any time.
- FdBroker.Conservation: exit takes no lock; the check and the read of one file are one step, and so is each of its two writes to a slot. That one of them falls into the middle of another call's locked region is not modelled.
- Lifecycle: tracepoint registration and delivery of the announcements over netlink.
- CodePatch.InstallHook: the capture stub's contents, the record of the hook, cache maintenance and uninstalling; address differences are computed without signed overflow, which needs addresses on both sides of 2^63. `is_pcrel`'s masks are read as bit fields.
- Zygote crash guards, boot-image tooling, zygiskd's request handling, feature flags and the command line: thin wrappers or easy members.
