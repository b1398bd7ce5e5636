# Vestigium: a verified model of record and replay

Vestigium records the execution of a guest in a virtual machine and replays it. Recording answers
every CPUID and RDTSC exit with values of its own, notes every VMCALL, and logs one event per
exit; replay restores the initial snapshot, feeds the events back, lets the guest make one more
run, and compares a hash of the final state with the one stored in the archive. This project
models that machinery and proves exactly when the comparison succeeds, and exactly when the parts
it rests on do what they are for.

`dafny verify dfyconfig.toml` checks the whole project.

| file | what it models |
|---|---|
| `Words.dfy`, `Trace.dfy` | machine words, debug and release overflow, little-endian bytes; the event vocabulary |
| `GuestMachine.dfy` | registers, memory, an arbitrary deterministic guest, one trip into the hypervisor |
| `Recorder.dfy`, `Replayer.dfy` | the two engines as state machines, one step per loop iteration |
| `Lockstep.dfy` | the theorems that relate them |
| `GuestMemory.dfy`, `Layout.dfy` | mapped ranges, region maps and iteration orders; the guest's memory layout |
| `StateHash.dfy`, `Codec.dfy`, `Archive.dfy` | the hash input as a canonical form; the archive's binary layout |
| `Paging.dfy`, `Loader.dfy` | identity page tables against the hardware walk; the image loader |
| `Vmm.dfy`, `Engines.dfy` | the mutable objects: processor, partition, snapshot, logger, both engines |
| `Pipeline.dfy` | the record and replay commands, and the two in sequence |
| `TargetApp.dfy` | the demonstration guest, as written and as one instance of the guest model |

How the model is set up:

- A guest is any total function from a register file and a memory to an exit, a new register file
  and a set of byte stores. Stores land on mapped addresses only. Every theorem is for all guests.
- The values the recorder injects come from an arbitrary oracle indexed by event ordinal;
  `Recorder.SHIPPED_ORACLE` holds the constants in the code.
- A register value is a pair of 64-bit halves. Initialising the union through `Reg64` is taken to
  leave the upper half zero. The registers include an unbounded family that the engines never name.
- A debug build panics where `+=` overflows and a release build wraps; `Build` chooses, and a panic
  is a `Failed` or `Faulted` state, so there is no overflow precondition on either engine.
- A host buffer is an array, and a partition is a list of mappings onto such arrays, a later mapping
  of an address taking precedence. Restoring maps the snapshot's own arrays, as the code does.
- The hash function is an arbitrary function of the bytes fed to it.
- The record loop and one `replay_event` call need not terminate. Their methods take a ghost bound
  within which they do; the results do not mention it, and `Lockstep.DivergesIff` says exactly
  which calls never return.

What came out false or narrower than the documentation says, each with an input and the exact
condition:

- Verification of a recording succeeds for all guests, images and iteration orders if and only if
  the image is at most 0xF0000 bytes (`Pipeline.VerificationLimit`). Above that the image or the
  stack overlaps the page tables, and the outcome depends on the iteration order of a hash map: for
  a given image and order all guests verify if and only if the image is not 0x100000 bytes and no
  region that overlaps the tables is mapped after them (`Pipeline.VerificationIff`). Otherwise even
  a guest that stores one byte and halts fails, or, at 0x100000 bytes, where the stack and the
  tables collide on the same key and the stack is not in the snapshot at all, there is for every
  order a guest that fails (`Pipeline.MisdirectedStoreFails`, `CollisionFailsVerification`).
- `instruction_count` is documented as a retired instruction count. The recorder writes the ordinal
  of the event, and replay never reads it (`Lockstep.LogIsFaithful`, `CountsAreIgnored`).
- A trace whose events are all injected need not be one a recorder could have logged, since the
  replay loop may have run the guest past an intercept first (`Lockstep.SpunInjectionIsNotRecorded`).
  The two coincide when every event is injected on its first iteration, and for guests that raise the
  unadvanced intercepts they meet again (`Lockstep.FaithfulIffRecordable`, `InjectedIffFaithful`).
- An event of the wrong kind at a CPUID or RDTSC exit is not reported: the loop runs the guest
  again, for ever if the guest raises the intercept again (`Lockstep.WrongInterceptHangs`,
  `CpuidGuestHangs`). `write_guest_memory` does nothing.
- A successful final comparison is about the low halves of six registers and the captured regions;
  RAX, which both commands print, is not among them (`Pipeline.SuccessIff`, `RaxIsNotCompared`).
- The hash input is canonical across two register counts if and only if the counts are equal
  (`StateHash.RegisterCountDecides`).
- The loader's comment says that sections do not overlap; nothing checks it. The image is
  independent of the order of the section table if and only if sections agree on the bytes they
  share (`Loader.OrderIrrelevantIff`).

## Model

| member | source | states |
|---|---|---|
| Lockstep.Prefix | crates/engine/src/replay.rs:72-146 | for every guest, oracle, start and prefix length k, replaying the first k recorded events takes k iterations, all injecting, to exactly the recorder's machine after k exits |
| Lockstep.Determinism | crates/cli/src/main.rs:238-249 | for every record run that stops, replaying its log and running once more reaches the same exit, register file and memory, in one iteration per event |
| Lockstep.OneEvent | crates/engine/src/record.rs:257-344 | one iteration of replay on the event just logged equals the recorder's own step, across widening of CPUID values and truncation of RCX |
| Lockstep.Converse | crates/engine/src/replay.rs:72-192 | a trace whose every event is injected on its first iteration is, up to instruction counts, the log of a recorder given its values, ending in the same machine; the only bound is the counter of a debug build |
| Lockstep.FaithfulIffRecordable | crates/engine/src/record.rs:232-351 | for every trace: some oracle makes the recorder log it if and only if every event is injected on its first iteration and a debug build's counter does not overflow |
| Lockstep.CountsAgreeIff | crates/engine/src/replay.rs:72-146 | a replayed trace takes one iteration per event if and only if no call spins on its first iteration |
| Lockstep.InjectedIffFaithful | crates/engine/src/replay.rs:89-108 | on a guest that re-raises the intercepts it meets on the way, injecting every event at all is the same as injecting each on its first iteration |
| Lockstep.InjectedIffRecordable | crates/engine/src/replay.rs:72-146 | so on a guest that re-raises the intercepts it meets a trace is recordable if and only if all its events are injected and a debug build's counter does not overflow |
| Lockstep.SpunInjectionIsNotRecorded | crates/engine/src/replay.rs:89-108 | a guest whose unadvanced CPUID is followed by RDTSC: the trace of the RDTSC alone is injected after one spin and is the log of no recording, however long and under any oracle |
| Lockstep.CountsAreIgnored | crates/engine/src/replay.rs:72-146 | replay of any trace, also one that hangs or aborts, does not depend on instruction counts |
| Lockstep.InjectionEffect | crates/engine/src/replay.rs:149-212 | register by register, what an injected event leaves: zero-extended values in the registers of its kind, RIP moved by the low four bits of the bit field or by 3, everything else and memory as the guest left it |
| Lockstep.RecordedEventEffect | crates/engine/src/record.rs:257-344 | the recorder leaves every register and memory as the injection of its logged event does |
| Lockstep.InjectedRegsAt | crates/engine/src/replay.rs:149-192 | the value `inject_event` gives to any one register, for all four event kinds |
| Lockstep.RecordedExit | crates/engine/src/record.rs:232-351 | one iteration of the record loop by exit number: 4097, 4099 and 4 log the event owed, with the counter, and resume with RIP moved modulo 2^64 by the low four bits of the bit field, or by 3, the owed registers set and nothing else changed; any other number stops with the machine as the guest left it; which additions panic, and that the event is logged by then |
| Lockstep.ReplayedExit | crates/engine/src/replay.rs:78-142 | one iteration of replay_event by exit number and event kind: which inject, with the same resumption, and that all others leave registers and memory as the guest left them and do not fail |
| Lockstep.FailedRun | crates/engine/src/runner.rs:21-36 | a failed run is an error of either engine and changes nothing |
| Lockstep.LogIsFaithful | crates/engine/src/record.rs:229-354 | in every reachable state entry i has ordinal i modulo 2^64, the kind of the i-th guest exit and its supplied values or RCX, and never changes again |
| Lockstep.CountIsLength | crates/engine/src/record.rs:230-344 | the counter equals the number of logged events modulo 2^64, and a debug build stops before it wraps |
| Lockstep.ShippedValues | crates/engine/src/record.rs:260-305 | with the shipped constants every logged CPUID and RDTSC event carries exactly those constants, and no system call is logged |
| Lockstep.MemoryBelongsToTheGuest | crates/engine/src/replay.rs:153-198 | on every guest exit, also the one that ends the recording and the replay's last run, memory changes by exactly the stores of that run, the replay of the log so far is in the same state, and no event reaches the memory-writing stub |
| Lockstep.MappedAddressesStay | crates/engine/src/record.rs:229-354 | the set of mapped addresses is the same in every state of a recording |
| Lockstep.ReplayKeepsAddresses | crates/engine/src/replay.rs:72-146 | so it is throughout the replay of any trace |
| Lockstep.SpinningMeansUnassisted | crates/engine/src/replay.rs:73-108 | the replay loop is still looping after k iterations exactly when the first k unassisted runs all end in intercepts of another kind |
| Lockstep.DivergesIff | crates/engine/src/replay.rs:73-143 | a call never returns if and only if every unassisted run ends in a CPUID or RDTSC exit that the event does not describe |
| Lockstep.ReturnsAfterWrongIntercepts | crates/engine/src/replay.rs:73-143 | any other call returns from the first unassisted run that is no wrong intercept, with one iteration for each run |
| Lockstep.WrongInterceptHangs | crates/engine/src/replay.rs:89-108 | on a guest that re-raises an unadvanced intercept, one wrong intercept hangs the call for good, and nothing else does |
| Lockstep.CpuidGuestHangs | crates/engine/src/replay.rs:89-98 | on a guest that does nothing but CPUID, a call returns if and only if its event is a CPUID event |
| Recorder.StepAppends | crates/engine/src/record.rs:232-351 | an iteration appends one event numbered by the counter, or appends nothing and ends the run |
| Recorder.RunningPrefix | crates/engine/src/record.rs:229-354 | a running recorder has logged one event per iteration and earlier logs are prefixes of later ones |
| Recorder.StopPoint | crates/engine/src/record.rs:229-354 | a run that has ended did so at one particular iteration |
| Replayer.ReplayEventIs | crates/engine/src/replay.rs:72-146 | any bound on the loop yields the same outcome, machine and iteration count of the call |
| GuestMachine.RestoreIsWholeFileIff | crates/vmm/src/vcpu.rs:52-68 | restoring captured registers rebuilds the whole file if and only if every register left out already agrees |
| GuestMachine.SetAllFrame | crates/vmm/src/vcpu.rs:52-68 | writing by name list leaves unnamed registers alone |
| GuestMachine.SetAllLookup | crates/vmm/src/vcpu.rs:52-68 | the last value given for a name is the one it has |
| GuestMachine.AdvanceRipExact | crates/engine/src/record.rs:357-368 | only RIP changes, by the length modulo 2^64; only an overflowing debug build panics |
| GuestMachine.LongModeTable | crates/vmm/src/vcpu.rs:71-137 | all thirteen long-mode registers as 16-byte values, segments field by field, and every other register unchanged |
| GuestMemory.ViewAt | crates/vmm/src/ept.rs:23-34 | an address reads the byte of the last mapping that covers it, and is mapped when one does |
| GuestMemory.ViewAfterStore | crates/engine/src/replay.rs:57-61 | a store at a mapped address is a point update of guest memory and at any other address nothing |
| GuestMemory.SettleStores | crates/engine/src/replay.rs:57-61 | buffers settled to a memory with one more store are those buffers with the store applied to the mapping that owns the address |
| GuestMemory.EvolvedIsSettled | crates/engine/src/replay.rs:57-61 | after any run the bytes of the mapped buffers, those hidden behind a later mapping included, are determined by what they were and the memory the guest now sees |
| GuestMemory.ViewOfSettle | crates/engine/src/replay.rs:57-61 | buffers settled to a memory show exactly that memory |
| GuestMemory.OrderIrrelevantIff | crates/engine/src/replay.rs:54-61 | all iteration orders of a region map give the same guest memory if and only if overlapping regions hold equal bytes |
| GuestMemory.RestoreIsExact | crates/engine/src/replay.rs:54-61 | restoring consistent regions in any order maps exactly their addresses, to exactly their bytes |
| GuestMemory.EvolvedIsReread | crates/cli/src/main.rs:233-264 | a snapshot's regions, restored in any order and run on, overlapping or not, hold their old bytes updated through the guest's final memory |
| GuestMemory.SameOwnersShowTheSame | crates/engine/src/replay.rs:54-61 | if every address resolves to the same region, restoring the regions in another order shows the guest the same memory |
| GuestMemory.SameOwnersSettleAlike | crates/cli/src/main.rs:171-264 | and running to the same memory leaves the same bytes in every region, hidden ones included |
| Layout.DisjointIff | crates/cli/src/main.rs:64-116 | the four regions are pairwise disjoint if and only if the image is at most 0xF0000 bytes, and then lie in the first gigabyte; rounding again changes nothing |
| Layout.HeaderSizeDecides | crates/engine/src/loader.rs:29-37 | the loader's rounded size is within that limit exactly when the header's image size is |
| Layout.CapturedDescribes | crates/cli/src/main.rs:119-128 | in a layout that fits, the captured region map is separate and describes guest memory byte for byte |
| Layout.RestoreExactIff | crates/cli/src/main.rs:64-130 | restoring the initial snapshot gives the recorder's initial memory for all images of a size and all orders if and only if the size is at most 0xF0000 |
| Layout.AlikeRestores | crates/cli/src/main.rs:64-235 | for every image not of 0x100000 bytes, an order that maps nothing over the tables after them restores the recorder's memory |
| Layout.AllOrdersMapAlikeIff | crates/cli/src/main.rs:64-128 | every order is such an order if and only if the image is at most 0xF0000 bytes |
| Layout.MisplacedTables | crates/cli/src/main.rs:64-128 | in any other order some address of the tables belongs to the tables' buffer in the recording and to another region in the replay |
| Layout.CollisionLosesStack | crates/cli/src/main.rs:119-128 | at 0x100000 bytes no order restores the memory, since the tables replace the stack in the map |
| Layout.OverlapHidesTables | crates/cli/src/main.rs:64-130 | for every other larger size, an image and an order under which the walk from the restored page tables finds every 64-bit address not present |
| Layout.BootTranslation | crates/cli/src/main.rs:104-116 | in the mapped memory the tables are visible whatever the image size, and translate the first gigabyte to itself |
| Layout.EvolvedBuffers | crates/cli/src/main.rs:171-177 | the four host buffers after a run are determined by the initial ones and the final guest memory, for every image size |
| Layout.FinalCapturesAgree | crates/cli/src/main.rs:171-264 | in an order that maps alike, the recorder's captured buffers and a restored snapshot's after reaching the same memory are the same regions, whatever the image size |
| StateHash.HashStreamIsCanonical | crates/engine/src/record.rs:159-179 | for equal register counts two snapshots feed the same bytes if and only if their low register halves and region maps are equal |
| StateHash.HashLayout | crates/engine/src/record.rs:159-179 | the fed bytes in order: eight bytes for the low half of each register, then by increasing address each region's address, length and bytes |
| StateHash.SortedIsUnique | crates/engine/src/record.rs:167-169 | sorting the keys forgets the order in which the map yielded them |
| StateHash.RegionStreamInjective | crates/engine/src/record.rs:171-176 | the fed bytes determine the list of regions, addresses, lengths and contents |
| StateHash.RegisterCountDecides | crates/engine/src/record.rs:162-176 | the fed bytes determine low halves and regions across snapshots with m and n registers if and only if m equals n |
| StateHash.FewerRegistersCollide | crates/engine/src/record.rs:162-176 | for any two different counts, two different snapshots that feed the same bytes |
| StateHash.RegisterCountMatters | crates/engine/src/record.rs:162-165 | three registers and no region feed the same bytes as no register and one region |
| Codec.BufferLawful | crates/engine/src/record.rs:57-78 | a buffer written as raw bytes and read element by element round trips, leaves what follows, and nothing else decodes |
| Codec.VecLawful | crates/trace/src/format.rs:5-30 | length-prefixed sequences of any lawful codec are lawful |
| Codec.PairLawful | crates/cli/src/main.rs:188-199 | so are tuples and struct fields in order |
| Words.LeAt | crates/trace/src/format.rs:5-30 | byte i of an integer in the file or in the hash input has weight 256 to the i |
| Archive.RegisterLawful | crates/engine/src/record.rs:82-111 | 16-byte registers round trip through their raw image |
| Archive.EventRoundTrip | crates/trace/src/format.rs:5-22 | all four event kinds come back from the tag and payload that EventLayout gives them, leaving trailing bytes |
| Archive.EventExact | crates/trace/src/format.rs:5-22 | bytes that decode as an event are that event's encoding, whose bytes EventLayout gives; other tags are rejected |
| Archive.EventLayout | crates/trace/src/format.rs:5-22 | the bytes of each variant: tag 0, 1, 2 or 3 in four bytes, then its fields in order, with the lengths of the three fixed ones |
| Archive.EntryLawful | crates/trace/src/format.rs:25-30 | so it is for whole trace entries |
| Archive.RoundTrip | crates/cli/src/main.rs:187-199 | decoding the archive returns snapshot, events and hash for every iteration order of the encoder and leaves trailing bytes |
| Archive.ArchiveOffsets | crates/cli/src/main.rs:187-190 | where the file has the region count, the regions in iteration order, the register count, the registers, the event count, the events and the hash |
| Archive.ElementOffsets | crates/engine/src/record.rs:82-120 | where within them each region has its address, length and bytes, each register its low and its high half, each event its count and its bytes |
| Archive.DecodedIsEncodedIff | crates/cli/src/main.rs:197-199 | bytes that decode are the encoding, in some iteration order, of what they decode to if and only if they do not name a region address twice |
| Archive.DecodedIsEncodable | crates/cli/src/main.rs:187-199 | whatever decodes can be encoded again: no decoded length or count exceeds its field |
| Archive.InsertionRebuildsMap | crates/engine/src/record.rs:115-120 | inserting the entries of any iteration order rebuilds the map |
| Archive.LastEntryWins | crates/engine/src/record.rs:115-120 | of an address that a file names twice the last entry stays |
| Paging.CreateIdentityMapping | crates/vmm/src/paging.rs:12-38 | for every table address whose sums do not panic, wrapping ones included, the bytes written in place are those of the 1536 table entries |
| Paging.WriteSlot | crates/vmm/src/paging.rs:24-30 | one 64-bit store sets one entry and leaves every other entry alone |
| Paging.TableIsUnique | crates/vmm/src/paging.rs:22-31 | the entries determine every byte of the table |
| Paging.TableEntries | crates/vmm/src/paging.rs:22-31 | the value of each of the 1536 entries as a number: two links with bits 0 and 1, 512 large pages with 0x83, zeros |
| Paging.IdentityTranslation | crates/vmm/src/paging.rs:11-38 | for every page-aligned table below 2^52, the walk of section 4.5 of the Intel SDM, Volume 3A, maps every address below 2^30 to itself, writable, and finds every other canonical address not present |
| Paging.ZeroTablesMapNothing | crates/vmm/src/paging.rs:11-38 | where the first table page reads as zero the walk finds no address present |
| Loader.MapIntoMemory | crates/engine/src/loader.rs:28-62 | in terms of the section table's own fields: each byte of the host memory is the file byte of the last section with raw data there, or zero; the memory is the image size rounded up to 4096 bytes |
| Loader.ImageAt | crates/engine/src/loader.rs:44-59 | for all sections, each byte is the file byte of the last section that holds it, or zero |
| Loader.ImageByFields | crates/engine/src/loader.rs:44-59 | the same law for the image as a sequence, over the fields pointer, size and address alone |
| Loader.ImageIgnoresOrder | crates/engine/src/loader.rs:44-59 | for sections that agree where they overlap, the image depends only on which sections there are |
| Loader.OrderIrrelevantIff | crates/engine/src/loader.rs:44-59 | every permutation of the section table gives the same image if and only if any two sections that hold an address bring the same file byte there |
| Loader.ImageHoldsSections | crates/engine/src/loader.rs:44-59 | if sections agree, every byte of every section is its file byte |
| Loader.OverlapDependsOnOrder | crates/engine/src/loader.rs:44-59 | two overlapping sections of which the later one wins, in either order |
| Loader.SeparateSectionsLoad | crates/engine/src/loader.rs:44-59 | if the ranges of no two sections with raw data meet, as the code's comment has it, then for any order of the table every byte of every such section is its file byte and every other byte is zero, over the table's own fields |
| Loader.PageRoundIsLeast | crates/engine/src/loader.rs:36-37 | the rounded size is the least multiple of 4096 not below the original, and rounding is idempotent |
| Vmm.Vcpu.GetRegisters | crates/vmm/src/vcpu.rs:33-49 | fills the caller's slice with the named registers |
| Vmm.Vcpu.SetRegisters | crates/vmm/src/vcpu.rs:52-68 | writes the named registers in order and no others; both lists have one length |
| Vmm.Vcpu.SetupLongMode | crates/vmm/src/vcpu.rs:71-137 | the thirteen long-mode registers get their values |
| Vmm.Partition.MapGpaRange | crates/vmm/src/ept.rs:23-34 | adds one alias of any host buffer; no other mapping changes |
| Vmm.Partition.Store | crates/engine/src/replay.rs:57-61 | a guest store lands at offset gpa minus base of the buffer that owns the address and nowhere else |
| Vmm.Partition.Run | crates/engine/src/runner.rs:21-36 | running the processor on the shared buffers is the guest step on the memory they show, and hidden bytes stay |
| Engines.Snapshot.CaptureRegion | crates/engine/src/record.rs:141-147 | the region becomes a fresh copy, replacing one at the same address and leaving the others |
| Engines.Snapshot.CaptureRegisters | crates/engine/src/record.rs:150-155 | the registers become the named ones, in order |
| Engines.Snapshot.HashState | crates/engine/src/record.rs:159-179 | whatever order the map yields, the hash is of the canonical stream |
| Engines.Advance | crates/engine/src/replay.rs:201-212 | moves RIP as specified or reports the overflow, leaving memory alone |
| Engines.RecordEngine.Run | crates/engine/src/record.rs:229-354 | for a run that stops, whatever the log already holds, registers, shared memory, log and status are those of the recorder's state machine, and hidden buffer bytes stay |
| Engines.RecordEngine.OneExit | crates/engine/src/record.rs:232-351 | one iteration of the loop is one step of the state machine |
| Engines.ReplayEngine.RegisterVcpu | crates/engine/src/replay.rs:32-41 | the active lookup succeeds once its id is registered and keeps succeeding; the active id does not change |
| Engines.ReplayEngine.RestoreSnapshot | crates/engine/src/replay.rs:49-69 | the snapshot's own buffers are mapped in some iteration order and the registers written |
| Engines.ReplayEngine.InjectEvent | crates/engine/src/replay.rs:149-192 | registers change as specified, memory and the active id do not |
| Engines.ReplayEngine.OneIteration | crates/engine/src/replay.rs:73-143 | one trip around the loop is one iteration of the state machine |
| Engines.ReplayEngine.ReplayEvent | crates/engine/src/replay.rs:72-146 | a call that returns ends in the specified outcome and machine |
| Engines.SnapshotIsGuestMemory | crates/cli/src/main.rs:233-264 | with a snapshot's buffers mapped, the mapped regions are what the snapshot holds, whatever was written since |
| Pipeline.CapturedRegistersSuffice | crates/cli/src/main.rs:213-235 | from equal fresh processors, long mode plus any restored list with RIP and RSP rebuilds the recorder's whole register file; the six captured names are one such list |
| Pipeline.BootedRegisters | crates/cli/src/main.rs:139-152 | every register of the processor that recording boots, in numbers: RIP is 0x100000 plus the entry, RSP 0x10000 past the image's end, CR3 0x200000, long mode, the rest as at reset |
| Pipeline.StackEndsAtRsp | crates/cli/src/main.rs:78-90 | RSP is the exclusive end of the stack's mapping |
| Pipeline.BootedMemory | crates/cli/src/main.rs:64-116 | every byte of the memory it boots with: tables, image, zeroed stack and null page, and nothing else mapped |
| Pipeline.RecordedSnapshot | crates/cli/src/main.rs:118-164 | the archive's six registers in order and its regions with their addresses and contents |
| Pipeline.BootsIdentityMapped | crates/cli/src/main.rs:139-152 | the booted guest has paging in force through CR3 and an identity map of exactly the first gigabyte |
| Pipeline.EqualHashesIff | crates/cli/src/main.rs:260-272 | for any regions and order, unless the hash collides, equal hashes mean equal low halves of the six registers and equal guest memory, and nothing more |
| Pipeline.SuccessIff | crates/cli/src/main.rs:233-272 | what a success proves: a recording's snapshot replayed on any guest with any events compares equal, unless the hash collides, if and only if the last run agrees with the recorder's final machine on the low halves of the six registers and on all of memory |
| Pipeline.OtherRegistersAreNotCompared | crates/cli/src/main.rs:252-264 | changing any register but the six changes nothing that is hashed |
| Pipeline.HashInputLayout | crates/cli/src/main.rs:171-177 | the hashed bytes begin with RIP, RSP, RFLAGS, CR0, CR3 and CR4, in that order, and go on with the regions |
| Pipeline.RaxIsNotCompared | crates/cli/src/main.rs:252-264 | two machines that differ in RAX alone have equal hashes under every hash function |
| Pipeline.RecordCommand | crates/cli/src/main.rs:57-190 | for every image size, a file is written exactly when the run stops, and it encodes the initial snapshot, the log and the hash of the host buffers as the run left them |
| Pipeline.ReplayAll | crates/cli/src/main.rs:240-244 | the loop over events reaches the machine of the replayed trace or fails on the event that does |
| Pipeline.Restore | crates/cli/src/main.rs:207-235 | engine, processor and partition are in the state that the archive describes, sharing buffers with the snapshot |
| Pipeline.RestoredRegisters | crates/cli/src/main.rs:213-235 | which of the six registers gets which value of the archive; with none, and for all others, long mode's |
| Pipeline.FinishReplay | crates/cli/src/main.rs:248-264 | the hash is of the snapshot's regions, overlapping or not, as the last run left them |
| Pipeline.ReplayCommand | crates/cli/src/main.rs:193-273 | undecodable files are rejected; for all others whose replay does not hang, overlapping regions included, the verdict is the one JudgeConcludes describes, for some iteration order |
| Pipeline.JudgeConcludes | crates/cli/src/main.rs:197-272 | in terms of the single calls, for every archive and order: a panic exactly when there are registers but not six or the calls come to one that fails, a hang exactly when they come to one that hangs, and otherwise the archive's hash against that of the regions after one more run |
| Pipeline.VerificationSucceeds | crates/cli/src/main.rs:233-272 | for all guests, oracles, hash functions, reset states, images and orders that map nothing over the tables after them, if recording stops, its archive replays to equal hashes |
| Pipeline.VerificationIff | crates/cli/src/main.rs:64-272 | for every image and every iteration order: all guests verify, under hashes that do not collide on the two inputs, if and only if the image is not 0x100000 bytes and no region that overlaps the tables comes after them |
| Pipeline.VerificationLimit | crates/cli/src/main.rs:64-272 | for every nonzero page-aligned size: verification succeeds for all guests, images, orders and hashes that do not collide on the two inputs if and only if the size is at most 0xF0000 |
| Pipeline.CollisionFailsVerification | crates/cli/src/main.rs:119-272 | at 0x100000 bytes, for every image, a guest whose verification fails in every order unless the hash collides |
| Pipeline.FailureAbove | crates/cli/src/main.rs:64-272 | for every image above the limit, a guest, an order and a hash for which verification fails |
| Pipeline.FailureOf | crates/cli/src/main.rs:64-272 | for every image and order outside the exact condition, a guest and a hash for which verification fails |
| Pipeline.MisdirectedStoreFails | crates/cli/src/main.rs:119-264 | whenever a region that overlaps the tables comes after them, whatever bytes it holds, a guest that stores one byte and halts makes replay hash another input than recording did |
| Pipeline.RecordThenReplay | crates/cli/src/main.rs:49-273 | the two commands in sequence, through the encoded file, for every image size: the verdict is the one on that recording in some order; in an order that maps alike, and so for at most 0xF0000 bytes always, it is the comparison of two equal hashes |
| Pipeline.RecordThenReplayExecutable | crates/cli/src/main.rs:49-273 | the same from the header's image size, the section table and the raw file, with the limit on the header's size |
| TargetApp.App.Start | target_app/src/main.rs:32-42 | the program yields as threads 0 and 1 in turn and ends with the counter at twice the number of rounds |
| TargetApp.App.ExecuteSlice | target_app/src/main.rs:23-27 | one slice yields once and increments once |
| TargetApp.Demonstration | target_app/src/main.rs:32-51 | for any number of rounds recording logs yield j of thread j modulo 2 as event j, halts with twice the rounds in RAX and in the counter, and replay reaches that halt |
| TargetApp.IncrementIsPending | target_app/src/main.rs:23-27 | at every recorded yield the counter in memory is one behind, its increment pending |
| TargetApp.DemonstrationVerifies | target_app/src/main.rs:32-51 | loaded at the command's layout, the demonstration stops and its archive is verified |

## Left out

- Pipeline.ReplayCommand: gives no verdict for an archive whose replay hangs; `Lockstep.DivergesIff` says which calls do.
- Pipeline.ReplayAll: takes traces that do not hang, for the same reason.
- Pipeline.RecordThenReplay: takes a log shorter than 2^64 events, which any host vector is, and, in an order that does not map alike, a replay that does not hang; in all others none does.
- Pipeline.RecordThenReplayExecutable: takes the same logs and replays, and the sections of Loader.MapIntoMemory.
- Engines.RecordEngine.Run: is stated for a run that stops.
- Engines.ReplayEngine.ReplayEvent: is stated for a call that returns.
- Loader.MapIntoMemory: takes a nonzero image size and sections within bounds; the code leaves both to the parser, and outside them it panics or its allocation or copy is undefined.
- Paging.CreateIdentityMapping: leaves out a table address for which a debug build panics; the commands pass 0x200000.
- Vmm.Partition.MapGpaRange: keeps the partition's invariant only for a buffer that is not mapped yet; neither command maps one twice.
- StateHash.RegisterCountDecides: takes counts up to 2^60, more than any host vector of 16-byte registers holds; a bound is needed, since region maps over 64-bit addresses feed a bounded number of bytes.
- Paging.IdentityTranslation: reserved bits, user and execute permissions and the accessed and dirty updates of the walk are not modelled.
- Failures of single register reads and writes: the hypervisor's register calls always succeed here; failures of a run are modelled.
- Partition and processor creation, intercept configuration, handles, `Drop` and raw allocation: resource management.
- The hypervisor itself: a run is the guest function, and mapping a range adds an alias with the later mapping winning.
- PE parsing: the section list and image size are inputs.
- SipHash: the hash is any function of the fed bytes.
- The bincode library: its fixed-width layout is taken as given and the codecs are built on it.
- Where the compiler puts the demonstration's locals and code: `TargetApp` chooses registers and addresses.
- Command-line parsing, files, printing and the crate that carries the straight-line payload: they would only add easy members.
- Performance counters, preemptive scheduling, compression and system call interception: the documentation mentions them and the code does not implement them.
