# Proofs about the A2GSPU instrumentation of the GS2 emulator

GS2 emulates the Apple II family and the Apple IIgs. Its A2GSPU layer makes the emulated machine
observable: a bus log that accounts for every master-clock tick, snapshots that can be saved,
compared and restored, trap expressions, coverage bitmaps, an interrupt injector, a bounded event
history, and small encoders for pictures and commands. What that layer reports is only worth
something if it is exact, and that exactness is what this project proves.

Each source file has its own modules. A component that changes its state in place is a class whose
methods are proved against a step function on values; the promises are then proved about every run
of those steps. Byte formats are proved against an independent reader or a reference definition.

| source | modules |
|---|---|
| src/NClock.hpp | `Clock` (state, steps, class), `Timing` (closed forms over runs), `CycleCost` (what each cycle pays) |
| src/a2gspu_buslog.hpp | `BusLog` (recorder), `Ledger` (log and clock together) |
| src/a2gspu_snapshot.cpp, src/a2gspu_ctrl.cpp | `Options`, `Bytes`, `Snapshot` (writer), `Restore` (reader), `Acceptance` (which files are accepted), `Transaction` (round trips, the restore verb) |
| src/a2gspu_snapdiff.hpp | `SnapLayout` (second reader), `SnapRoundTrip` (it reads what was written), `SnapAcceptance` (which files it accepts), `SnapDiff` (comparison) |
| src/a2gspu_trap.hpp | `TrapExpr` (parser), `TrapMeaning` (evaluator), `TrapSpelling` (which texts are accepted), `TrapPrint` (round trip), `TrapEngine` (state machine, PC ring) |
| src/a2gspu_coverage.hpp | `Coverage` (steps on sets, runs), `CovTracker` (packed bitmaps, lookup), `CovPlan` (plan loader) |
| src/a2gspu_fault.hpp | `Fault` |
| src/a2gspu_context.hpp | `EventHistory` |
| src/a2gspu_png.hpp | `Crc`, `Zlib`, `Png` |
| src/a2gspu_dhgr.hpp | `Dhgr` |
| src/a2gspu_agent.hpp | `Agent` |

`dafny verify dfyconfig.toml` checks everything.

## Findings

Places where a promise, taken literally, does not hold of the code. The model follows the code, and
each has a lemma with the exact condition.

- The bus log's description says that a record's base is 14 exactly for a 1 MHz cycle. The clock
  forces 1 MHz only by comparing with the US rate, so in the PAL 1 MHz mode a fast cycle also has
  base 14 (`Ledger.SlowSideIsBase14`, `Ledger.Pal1MhzFastCycle`).
- A slow record carries no reason when the MMU asked for 1 MHz in a cycle without an access, or
  with a skipped read (`Ledger.SlowCyclesAreExplained`, `Ledger.UnexplainedSlowCycle`).
- `NClockII` resets its scan-line counter instead of subtracting. After a mode change it stays on
  the 912-tick line grid exactly when the new cycle cost divides the position in the line
  (`Timing.ModeChangeExact`, `Timing.MisalignedModeChange`).
- Trap arithmetic is modulo 2^24, but a lone number is not reduced: a chain equals its sum modulo
  2^24 exactly when it has an operator or is not a lone number of 2^24 or more; registers and
  memory never get there (`TrapMeaning.ChainIsSum`, `TrapMeaning.LoneNumberIsNotMasked`).
- After `off` and a second `on` the event history is empty. Until the next event, an answer to an
  older cursor is complete, without loss and without more, although later events existed and are
  gone (`EventHistory.QueryAccounts`, `EventHistory.ReopenedHistoryIsSilent`).
- A FAIL of `restore` with `rolled-back=yes` is documented to leave the machine exactly as it was
  before the command (Docs/A2GSPU_RAILS.md:822). The rollback loads a checkpoint, and some devices
  lose state on every load: an Uthernet II its connections, a SecondSight its GPU mode, the video
  scanner the switch changes still in its queue. Such a machine does not come back, even from a
  file that was refused before it changed anything (`Transaction.RestoreVerb`,
  `Transaction.RollbackIsExact`, `Transaction.MachinesThatRecover`, `Transaction.RollbackMayLose`).
- A picture without scan lines gets a zlib stream without any block, which no decoder accepts
  (`Zlib.StreamDecodes`).

## Model

| member | source | states |
|---|---|---|
| Clock.NClock.IncrCyclesIIgs | src/NClock.hpp:347-457 | one cycle of the IIgs clock: the whole new state (ticks, refresh debt, video position), the requested and charged type, and the cost split handed to the bus log |
| Clock.NClock.IncrCyclesII | src/NClock.hpp:284-314 | one cycle of the II clock: divider, charge, video tick, end of line, keeping the validity of the state |
| Clock.NClock.SetClockMode | src/NClock.hpp:222-232 | a mode change installs the mode's row, and resets the divider except for free running |
| Clock.NClock.SetCpuPer14m | src/NClock.hpp:175-180 | the divider is clamped to 1..20 and its phase restarts |
| Clock.NClock.AdvanceFrame | src/NClock.hpp:202-206 | the next frame starts where the last ended |
| Clock.NClock.DrainVideo | src/NClock.hpp:347-457 | the draining loop completes exactly ticks/14 video cycles and leaves ticks%14 |
| Timing.GsClosedForm | src/NClock.hpp:347-457 | after every run of cycles of any types, slow mode, mode and divider changes from power-on with a scanner, video position is a function of the master clock alone: 65 cycles in 912 ticks; line position below 65, refresh debt below 50, and every sync cycle ends on a video boundary |
| Timing.GsRunKeepsInvariant | src/NClock.hpp:347-457 | the inductive invariant behind it, kept by every run from any state that has it |
| Timing.GsCycleKeepsInvariant | src/NClock.hpp:347-457 | one cycle keeps it, so a single subtraction per line is enough |
| Timing.RefreshIsModular | src/NClock.hpp:347-457 | over every run the refresh debt is the time spent on accesses and edge waits modulo 50; refresh cycles and stretched lines do not count |
| Timing.FramesAreWholeLines | src/NClock.hpp:202-232 | over every run of either clock frame boundaries are whole lines, and 262 (US) or 312 (PAL) lines apart while the clock set stays |
| Timing.IiClosedForm | src/NClock.hpp:284-314 | the II clock obeys the same closed form over every run whose mode changes are aligned |
| Timing.IiRunKeepsPosition | src/NClock.hpp:284-314 | the same from any state on the grid |
| Timing.ModeChangeExact | src/NClock.hpp:222-314 | after a mode change, whatever the divider was, the II clock stays on the grid for ever if and only if the new cost divides the position in the line |
| Timing.MisalignedModeChange | src/NClock.hpp:222-314 | one cycle at 14 MHz and a change to 1 MHz, after which it does leave the grid |
| Timing.DividerCharges | src/NClock.hpp:175-180 | n cycles from divider phase d charge exactly (d+n)/N times and leave phase (d+n)%N |
| CycleCost.WhatACycleCosts | src/NClock.hpp:347-457 | one cycle's cost and what it does to the clock: shared cycles are free, a 1 MHz cycle waits for the next video edge and takes 14, others take the mode's ticks and only a regular fast one pays the 5 of a refresh, a line that ends takes 2 |
| CycleCost.RefreshIsPaid | src/NClock.hpp:378-393 | over every run the refresh ticks are 5 for each regular fast cycle on which the time spent on accesses crosses a multiple of 50; no other cycle pays |
| CycleCost.OverrideIsExact | src/NClock.hpp:347-360 | over every run, a cycle is charged at 1 MHz exactly when it was asked for, the machine is slow, or the US clock is in its 1 MHz mode; otherwise as requested |
| CycleCost.ChosenModeIsInForce | src/NClock.hpp:222-232 | on both clocks the mode last chosen is in force, with its ticks, its stretch and its frame length |
| CycleCost.FastCyclesShareTicks | src/NClock.hpp:362-376 | n fast cycles of the IIgs clock from divider phase d take the ticks of (d+n)/N |
| CycleCost.SettingsCharge | src/NClock.hpp:175-232 | what n cycles of the II clock take after a mode or a divider was set |
| BusLog.Recorder.PendAccess | src/a2gspu_buslog.hpp:152-160 | a pended access replaces the one before it, which is counted as overlap |
| BusLog.Recorder.FinishCycle | src/a2gspu_buslog.hpp:180-205 | a cycle end stores one record or counts one drop, and consumes access and note |
| BusLog.Recorder.RecordCycle | src/a2gspu_buslog.hpp:208-216 | the cost parts pass through 8-bit fields into the record |
| BusLog.Recorder.StartAt | src/a2gspu_buslog.hpp:218-227 | a mark empties the log and clamps its capacity |
| BusLog.Summarize | src/a2gspu_buslog.hpp:236-249 | a summary holds the counts and sums of its window by side and by reason, for any window |
| Ledger.CycleIIgs | src/NClock.hpp:347-457 | clock and log step together as one machine |
| Ledger.CycleII | src/NClock.hpp:284-314 | the II clock leaves an untimed record per cycle |
| Ledger.CostIsExact | src/NClock.hpp:350-455 | the four parts fit 8 bits and add up to exactly what the master clock gained |
| Ledger.RecordIsFaithful | src/a2gspu_buslog.hpp:180-216 | no part is lost in the 8- and 16-bit casts; time, side, kind and cost are the clock's |
| Ledger.ReasonsFollowCost | src/a2gspu_buslog.hpp:180-205 | refresh, stretch, slow mode and fast ROM are named exactly when they apply |
| Ledger.SlowCyclesAreExplained | src/a2gspu_buslog.hpp:162-205 | a record is slow exactly when the machine is or the MMU asked, and names a bus or mode reason under an exact condition |
| Ledger.LedgerSinceMark | src/a2gspu_buslog.hpp:152-229 | over every run since a mark: stored plus dropped are the cycles, each record starts where the last ended, and with no drop the costs sum to the clock's growth and every access is recorded, overlapped or pending |
| Ledger.StoredSinceMark | src/a2gspu_buslog.hpp:180-227 | as many records as cycles up to the limit of the mark, 2^20 by default and at most 2^24, and the rest counted as dropped |
| Ledger.OffKeepsLog | src/a2gspu_buslog.hpp:229-229 | while it is off, every run of the machine leaves the log alone |
| Ledger.AccessIsRecorded | src/a2gspu_buslog.hpp:152-205 | a record holds the address, value and kind of the access its cycle made, and an internal one without |
| Ledger.MmuReasonIsExact | src/a2gspu_buslog.hpp:162-178 | the reason for a 1 MHz cycle by the ranges of bank and offset |
| Ledger.SidesPartition | src/a2gspu_buslog.hpp:236-249 | fast and slow partition the records and their ticks |
| Ledger.SlowSideIsBase14 | src/a2gspu_buslog.hpp:28-29 | exactly when base 14 identifies slow cycles |
| Ledger.Pal1MhzFastCycle | src/NClock.hpp:347-457 | the PAL machine at power-on, where it does not |
| Ledger.UnexplainedSlowCycle | src/a2gspu_buslog.hpp:192-192 | a slow record without a bus or mode reason |
| Fault.FaultQueue.ScheduleFault | src/a2gspu_fault.hpp:32-48 | admission and stable insertion, with every refusal leaving the state alone |
| Fault.FaultQueue.PollFaults | src/a2gspu_fault.hpp:49-61 | a poll by the owner delivers the due prefix one by one; any other poll does nothing |
| Fault.FaultQueue.ClearAll | src/a2gspu_fault.hpp:20-23 | clearing releases the line, the queue and the latches |
| Fault.BusyIsExact | src/a2gspu_fault.hpp:19-23 | busy holds exactly when something can still happen without a new request: an idle injector is left alone by every run of polls, clearings and latch reads, a busy one is not; clearing makes it idle |
| Fault.RunsAreConsistent | src/a2gspu_fault.hpp:19-61 | over every run: deliveries in (due, id) order, every IRQ edge a real transition, at most one NMI and one ABORT, scheduled = delivered + queued + cleared |
| Fault.PollDeliversExactlyTheDue | src/a2gspu_fault.hpp:49-61 | what a poll leaves is a suffix, all of it in the future, and all it took was due |
| Fault.PollLeavesRest | src/a2gspu_fault.hpp:49-61 | the delivery loop of a run is the poll of the scheduler and leaves that suffix |
| Fault.SortInserts | src/a2gspu_fault.hpp:46-47 | the stable sort after a push is one insertion behind equal deadlines |
| Fault.AcceptedIsExact | src/a2gspu_fault.hpp:32-48 | a request is accepted if and only if it is a known fault with room and a deadline, an ABORT has a 65816, an NMI or ABORT is neither latched nor queued, and an IRQ edge comes last and changes the line |
| Fault.PollLatches | src/a2gspu_fault.hpp:49-61 | a poll latches an NMI or ABORT if and only if one was latched or due; the line follows the last due edge; the report is that of the last delivery |
| Fault.StepKeepsConsistent | src/a2gspu_fault.hpp:19-61 | each operation keeps that, after any delay |
| Snapshot.SaveCpu | src/a2gspu_snapshot.cpp:34-52 | the CPU block is the header and fifteen little-endian fields |
| Snapshot.LenBegin | src/a2gspu_snapshot.cpp:168-168 | a placeholder length is appended and its place returned |
| Snapshot.LenEnd | src/a2gspu_snapshot.cpp:169-172 | seeking back patches exactly the four length bytes and returns to the end |
| Snapshot.WritePieces | src/a2gspu_snapshot.cpp:168-300 | a payload with nested length-prefixed records comes out as its flat encoding |
| Snapshot.WriteDevice | src/a2gspu_snapshot.cpp:160-175 | a device block is appended whole, with its length patched in |
| Snapshot.WriteSentinel | src/a2gspu_snapshot.cpp:539-542 | the end word |
| Snapshot.WriteManifest | src/a2gspu_snapshot.cpp:486-489 | the manifest trailer |
| Snapshot.WriteSnapshot | src/a2gspu_snapshot.cpp:573-589 | the whole file: CPU, MMU, device blocks, sentinel, manifest |
| Snapshot.FieldsRoundTrip | src/a2gspu_snapshot.cpp:34-83 | fields that fit their widths read back identically wherever they stand |
| Snapshot.StoringReplaces | src/a2gspu_snapshot.cpp:63-83 | loading the fields of a saved CPU over any CPU gives the saved CPU |
| Restore.ReadHeader | src/a2gspu_snapshot.cpp:305-313 | a block header, or the file put back before the word that was not one |
| Restore.Lookup | src/a2gspu_snapshot.cpp:315-470 | the first entry of that name that accepts the version, and none exactly when no entry does |
| Restore.Rig.LoadCpu | src/a2gspu_snapshot.cpp:63-83 | accepts exactly readable CPU blocks of the right magic and version |
| Restore.Rig.LoadDevices | src/a2gspu_snapshot.cpp:305-477 | the device loop, for every input: outcome, device states, names restored and skipped, and where it stopped |
| Restore.Rig.SnapRestore | src/a2gspu_snapshot.cpp:594-611 | the stage that refused, or the restored machine; and, accepted or not, what the attempt left of MMU and devices |
| Restore.LeftIsSameHardware | src/a2gspu_snapshot.cpp:594-611 | whatever the file, an attempt leaves the same devices on the same hardware |
| Restore.BlocksKeepHardware | src/a2gspu_snapshot.cpp:305-477 | no blocks, accepted or not, change which devices there are or their hardware, if no single load does |
| Restore.Rig.SnapSave | src/a2gspu_snapshot.cpp:573-589 | saving the live machine |
| Acceptance.AcceptedByItsBytes | src/a2gspu_snapshot.cpp:594-611 | a file is accepted if and only if it begins with the header and a register block, the MMU takes what follows, no block breaks its device or is cut short, and the four bytes behind the last block are "SEND"; a refusal names the first of these that fails |
| Acceptance.BlocksAccepted | src/a2gspu_snapshot.cpp:305-477 | the device blocks are accepted if and only if none is broken or cut short, and reading stops where the walk ends |
| Acceptance.HeaderIsExact | src/a2gspu_snapshot.cpp:305-313 | a block header by its bytes: "GSDV", the name up to its NUL, version and length |
| Acceptance.ManifestIsExact | src/a2gspu_snapshot.cpp:486-498 | the manifest reported is the one the bytes behind the sentinel hold, of 1 to 4096 bytes, or none |
| Acceptance.RegistersHaveTheirPlaces | src/a2gspu_snapshot.cpp:63-83 | from which bytes of a file each register is loaded, and what its flags make of them |
| Transaction.BlockReadsBack | src/a2gspu_snapshot.cpp:160-175 | a written block is found again with its name, version and payload, whatever bytes the payload holds |
| Transaction.SavedBlocksReadBack | src/a2gspu_snapshot.cpp:305-477 | reading any list of written blocks splits the names into restored and skipped, leaves in each present device what it keeps of the saved state, and stops at the sentinel |
| Transaction.SavedFileRestores | src/a2gspu_snapshot.cpp:573-611 | restoring a saved file into any machine whose shared devices and MMU are the same hardware gives the saved CPU and what MMU and common devices keep of the saved states |
| Transaction.OnlyNamedDevicesChange | src/a2gspu_snapshot.cpp:305-477 | for every file whose blocks are accepted, whatever the device codecs do: a device named as restored is in the state of the last block it accepted among those read, applied to what the earlier ones had made of it; any other device is unchanged |
| Transaction.EachDeviceSeesItsBlocks | src/a2gspu_snapshot.cpp:305-477 | each device is as the blocks of its own name left it in file order, and no other block matters to it |
| Transaction.NamedIsAccepted | src/a2gspu_snapshot.cpp:305-477 | a device of the machine is named as restored exactly when it accepted some block |
| Transaction.CpuReadsBack | src/a2gspu_snapshot.cpp:34-83 | the CPU block round trip |
| Transaction.ManifestReadsBack | src/a2gspu_snapshot.cpp:486-498 | the manifest round trip, with its size limits |
| Transaction.RestoreVerb | src/a2gspu_ctrl.cpp:695-764 | for every file: OK exactly when the preflight and all stages pass, and then the file's machine runs; a FAIL names the first step that refuses, and one that reports n/a leaves the machine untouched; one that reports a rollback leaves what the checkpoint keeps, which is the old machine exactly when nothing of it is lost over what the attempt left |
| Transaction.RollbackIsExact | src/a2gspu_ctrl.cpp:753-762 | the rolled-back machine is the old one if and only if MMU and devices keep their states over what the attempt left |
| Transaction.MachinesThatRecover | src/a2gspu_ctrl.cpp:753-762 | a machine that loses nothing to a checkpoint recovers from every file; one that does not survive its own checkpoint already fails on an empty file; where a checkpoint means the same over every state, each rollback is exact if and only if the machine survives its own checkpoint |
| Transaction.RollbackMayLose | src/a2gspu_snapshot.cpp:404-416 | a codec that drops a live connection, and the refused file after which it is gone |
| Transaction.RestoreOrRollBack | src/a2gspu_ctrl.cpp:729-762 | the same for the part after the checkpoint |
| Transaction.RealTableIsValid | src/a2gspu_snapshot.cpp:315-470 | the nineteen device blocks of this program have distinct, plain names |
| Transaction.CodecLawsAreSatisfiable | src/a2gspu_snapshot.cpp:343-416 | codecs that refuse other hardware, accept an empty block without a device and lose a connection on every load, as `diskii`, `media` and `u2` do, meet the assumptions of the restore theorems |
| SnapLayout.ReadLayout | src/a2gspu_snapdiff.hpp:83-127 | the cursor-driven reader computes the layout grammar on every input |
| SnapLayout.ReadPart | src/a2gspu_snapdiff.hpp:56-71 | one memory section or page map: bounds, duplicates, references |
| SnapLayout.ReadRefs | src/a2gspu_snapdiff.hpp:60-71 | page references are accepted exactly when region and offset agree |
| SnapLayout.ReadDevice | src/a2gspu_snapdiff.hpp:103-116 | one device block: exact acceptance and where its payload is |
| SnapLayout.ReadDevices | src/a2gspu_snapdiff.hpp:103-116 | the block loop up to the sentinel |
| SnapLayout.ReadTrailer | src/a2gspu_snapdiff.hpp:117-125 | manifest framing, size, ASCII and platform agreement, and no trailing bytes |
| SnapRoundTrip.WrittenFileParses | src/a2gspu_snapdiff.hpp:83-127 | every written file parses to its sections, registers, geometry and manifest, and is consumed whole |
| SnapRoundTrip.BlocksParse | src/a2gspu_snapdiff.hpp:103-116 | any list of distinct named payloads parses to exactly those sections |
| SnapRoundTrip.PlaceIsExact | src/a2gspu_snapdiff.hpp:103-116 | each with its offset, size and version |
| SnapRoundTrip.SectionsHoldPayloads | src/a2gspu_snapdiff.hpp:56-59 | the bytes at a section's place are that device's payload |
| SnapRoundTrip.AcceptedFramingIsWritten | src/a2gspu_snapdiff.hpp:103-116 | conversely, framing that is accepted is the writer's output for some list of devices |
| SnapAcceptance.AcceptedIsFile | src/a2gspu_snapdiff.hpp:83-127 | every accepted file is a header, registers, memory that fits the geometry, at most 64 distinct named blocks, the sentinel and a trailer that agrees |
| SnapAcceptance.FileIsAccepted | src/a2gspu_snapdiff.hpp:83-127 | and every such file is accepted, with its sections, banks, registers and manifest |
| SnapAcceptance.PlatformDecides | src/a2gspu_snapdiff.hpp:74-81 | a manifest with a platform fits the IIgs layout exactly when the platform is 5 and the other exactly when it is not; without one it fits both |
| SnapAcceptance.TrailerIsExact | src/a2gspu_snapdiff.hpp:117-125 | which bytes are a trailer: none, or 1 to 4096 printable characters that fit the layout |
| SnapAcceptance.PageRefIsExact | src/a2gspu_snapdiff.hpp:60-71 | a page reference is a place inside a region or one of two marks |
| SnapAcceptance.IieSections | src/a2gspu_snapdiff.hpp:94-101 | names, places and sizes of the memory sections of a IIe file |
| SnapAcceptance.GsSections | src/a2gspu_snapdiff.hpp:94-101 | and of a IIgs file with any banks |
| Snapshot.RegistersReadBack | src/a2gspu_snapdiff.hpp:87-92 | the words and fields of a written CPU block, as both readers take them |
| SnapRoundTrip.NameRoundTrip | src/a2gspu_snapdiff.hpp:107-111 | a padded name reads back |
| SnapRoundTrip.NameIsExact | src/a2gspu_snapdiff.hpp:107-111 | and every accepted name field is the padding of its name |
| SnapDiff.FindRuns | src/a2gspu_snapdiff.hpp:215-223 | the runs are separate, ordered and cover exactly the differing offsets; changed bytes are their total and the number of differing offsets, stored ranges the first 128 |
| SnapDiff.RunsAreMaximal | src/a2gspu_snapdiff.hpp:215-223 | no run can be extended |
| SnapDiff.RunsAreUnique | src/a2gspu_snapdiff.hpp:215-223 | there is only one such list |
| SnapDiff.DifferenceIsSymmetric | src/a2gspu_snapdiff.hpp:215-223 | and it is the same in both directions |
| SnapDiff.NoRunsMeansEqual | src/a2gspu_snapdiff.hpp:215-226 | no run, zero changed bytes and equal bytes are one and the same |
| SnapDiff.CompareSection | src/a2gspu_snapdiff.hpp:207-226 | a section is reported exactly when presence, version or bytes differ |
| SnapDiff.Compare | src/a2gspu_snapdiff.hpp:202-229 | refuses exactly different geometries; equal exactly when registers and all sections agree; reports exactly the disagreeing sections, each once and in order, and the number of differing bytes over all sections |
| SnapDiff.ParsedIsValid | src/a2gspu_snapdiff.hpp:83-127 | the sections of every parsed file lie inside it |
| TrapExpr.Parser.Term | src/a2gspu_trap.hpp:217-262 | the term parser reads the grammar's tree into the arena, children before parents, on every text |
| TrapExpr.Parser.Expr | src/a2gspu_trap.hpp:263-272 | the same for left-associated chains |
| TrapMeaning.EvalIsMeaning | src/a2gspu_trap.hpp:284-314 | evaluating an arena in 32-bit words equals the tree's meaning over integers |
| TrapMeaning.ChainIsSum | src/a2gspu_trap.hpp:284-314 | a chain is its integer sum modulo 2^24 if and only if it has an operator or is not a lone number of 2^24 or more |
| TrapMeaning.LoneNumberIsNotMasked | src/a2gspu_trap.hpp:284-287 | the number that shows it |
| TrapSpelling.EverySpellingReads | src/a2gspu_trap.hpp:194-282 | every spelling of an expression (spaces, letter case, $, 0x and bare numbers, brackets) parses to its tree |
| TrapSpelling.AcceptedIsSpelled | src/a2gspu_trap.hpp:194-282 | and a text is accepted if and only if it is such a spelling |
| TrapPrint.NamesDenote | src/a2gspu_trap.hpp:284-303 | the value of every register name on every CPU, and of the bank and the offset of the program counter |
| TrapPrint.CallsDenote | src/a2gspu_trap.hpp:297-304 | the memory functions read their argument's place, little-endian, anywhere or in bank 0 |
| TrapPrint.StackCallsDenote | src/a2gspu_trap.hpp:184-188 | and the stack functions read page 1 or bank 0 by the stack rule |
| TrapPrint.PrintedReadsBack | src/a2gspu_trap.hpp:217-282 | printing any expression tree and parsing it gives the tree |
| TrapPrint.HexReadsBack | src/a2gspu_trap.hpp:257-261 | hexadecimal printing and reading are inverse |
| TrapPrint.ParseText | src/a2gspu_trap.hpp:275-315 | for every text: accepted exactly by the grammar, and then the arena is well founded and evaluates to the meaning on every CPU |
| TrapEngine.Trap.FireTrap | src/a2gspu_trap.hpp:698-718 | policy, cap, key count, record and pairing in one step |
| TrapEngine.Trap.Check | src/a2gspu_trap.hpp:721-749 | an instruction: exit before entry, stack edges |
| TrapEngine.Trap.CheckStore | src/a2gspu_trap.hpp:752-758 | stores fire store traps only |
| TrapEngine.Trap.CheckRead | src/a2gspu_trap.hpp:761-767 | reads fire read traps only |
| TrapEngine.MachineFollowsHistory | src/a2gspu_trap.hpp:698-749 | for every configuration and history the records, hits and counters are those the history calls for, stack hits being rising edges |
| TrapEngine.BanksDoNotMatter | src/a2gspu_trap.hpp:692-749 | over every run, a trap without a bank gives the same records and hits for histories that differ only in banks |
| TrapEngine.HitsByAddress | src/a2gspu_trap.hpp:692-749 | an event is a hit exactly when it is of the trap's kind and lies in the window, by its full address if the window has a bank and by its offset if not |
| TrapEngine.RecordsCarryKeys | src/a2gspu_trap.hpp:698-718 | an entry carries its number and the key of the event that made it, whose condition held |
| TrapEngine.RecordsAreWellPaired | src/a2gspu_trap.hpp:698-749 | entries are numbered without gaps and never exceed the cap or `once`; heavy payload goes to exactly the first N per key; an exit carries the entry before it |
| TrapEngine.ExitsIncrease | src/a2gspu_trap.hpp:741-745 | exit numbers strictly increase over a run |
| TrapEngine.PcRing.Note | src/a2gspu_trap.hpp:724-724 | the ring stands for the full PC history |
| TrapEngine.PcRing.Last | src/a2gspu_trap.hpp:596-604 | the ring payload is the last n PCs of that history |
| Coverage.EveryRunIsInStep | src/a2gspu_coverage.hpp:98-220 | over every run of starts, fetches and resets: range bitmap, segment bitmaps and counter agree, every mark ran with its planned byte, and without an error everything that ran is marked |
| Coverage.FirstStartIsInStep | src/a2gspu_coverage.hpp:98-109 | a fresh binding is in step as soon as an instruction starts, even over a stale cursor |
| Coverage.OwnerAgrees | src/a2gspu_coverage.hpp:110-155 | an address is marked in the range exactly when its own segment has it |
| Coverage.CleanRunIsExact | src/a2gspu_coverage.hpp:110-155 | without an error the marks are exactly the bytes of instructions that began in a segment |
| Coverage.InstructionIsExact | src/a2gspu_coverage.hpp:98-155 | from a state without an error an instruction leaves none if and only if every byte it fetches is inside the segment it began in and the planned one there, and its start has no other mode on record; and then all its addresses are marked, in the range and in that segment |
| Coverage.UnplannedCodeIsIgnored | src/a2gspu_coverage.hpp:98-109 | an instruction that begins outside every segment marks nothing and is no error |
| Coverage.FetchIsEach | src/a2gspu_coverage.hpp:148-155 | a fetch is one byte after the other, wrapping in its bank |
| Coverage.ErrorFreezes | src/a2gspu_coverage.hpp:110-118 | after a mapping error no mark changes until a reset |
| Coverage.ModesNeverChange | src/a2gspu_coverage.hpp:126-131 | between resets a recorded start keeps its mode |
| Coverage.StartIsRecorded | src/a2gspu_coverage.hpp:126-133 | a start fetched without error has its mode on record and is marked |
| Coverage.CountWithinSpan | src/a2gspu_coverage.hpp:90-96 | the counter never exceeds the span |
| CovTracker.SetBitIsExact | src/a2gspu_coverage.hpp:138-144 | setting a packed bit sets that bit and no other |
| CovTracker.Tracker.Mark | src/a2gspu_coverage.hpp:138-144 | the packed range bitmap and its counter follow the set |
| CovTracker.Tracker.MappedByte | src/a2gspu_coverage.hpp:110-135 | the packed segment bitmap and start table follow the sets, with the same refusals |
| CovTracker.Tracker.Fetch | src/a2gspu_coverage.hpp:148-155 | a multi-byte fetch wraps in its bank and follows the steps byte by byte |
| CovTracker.Tracker.Begin | src/a2gspu_coverage.hpp:98-109 | the lookup finds the segment that holds the PC, or none |
| CovTracker.UpperBound | src/a2gspu_coverage.hpp:101-102 | the binary search splits the order at the PC |
| CovTracker.LookupIsOwner | src/a2gspu_coverage.hpp:98-109 | the segment before that place is the unique owner, and there is none exactly when no segment holds the PC |
| CovTracker.Tracker.Reset | src/a2gspu_coverage.hpp:212-220 | clears every account and the error, keeping the plan |
| CovTracker.Tracker.Init | src/a2gspu_coverage.hpp:190-204 | arms a range with nothing marked |
| CovTracker.Tracker.Off | src/a2gspu_coverage.hpp:224-232 | nothing is armed |
| Coverage.RefusalBlocksWriting | src/a2gspu_coverage.hpp:351-352 | a byte that contradicts the plan, and nothing else in a fetch, blocks writing of mapped evidence, for every run up to a clearing, which gives it back |
| CovPlan.MapLoad | src/a2gspu_coverage.hpp:306-349 | a plan is armed if and only if the file is a header and records of bindable segments and nothing else; otherwise nothing is armed |
| CovPlan.ReadSegments | src/a2gspu_coverage.hpp:319-334 | the offset loop parses the records and finds the tight address range |
| CovPlan.TakeIsExact | src/a2gspu_coverage.hpp:320-330 | an accepted record is the bytes of a good segment |
| CovPlan.RecordsParse | src/a2gspu_coverage.hpp:319-334 | and the records of good segments are accepted |
| CovPlan.ApartFits | src/a2gspu_coverage.hpp:324-324 | the limit on the total is implied by the segments being disjoint |
| CovPlan.NeighboursDecideTwins | src/a2gspu_coverage.hpp:336-339 | after sorting, comparing neighbours decides distinct indices |
| CovPlan.NeighboursDecideOverlaps | src/a2gspu_coverage.hpp:340-343 | and decides disjoint segments, giving the lookup order |
| EventHistory.History.Retain | src/a2gspu_context.hpp:44-53 | the oldest event gives way, numbers go on, a large payload becomes a hole |
| EventHistory.History.TurnOn | src/a2gspu_context.hpp:339-342 | a fresh history with a checked capacity, or a refusal that changes nothing |
| EventHistory.History.TurnOff | src/a2gspu_context.hpp:343-344 | stops retaining, keeps what is there |
| EventHistory.History.Events | src/a2gspu_context.hpp:305-317 | a page holds as many events after the cursor as count and row budget allow, at least one, with what was lost and whether more follow |
| EventHistory.PageIsLongest | src/a2gspu_context.hpp:305-317 | a page is the longest beginning of what is pending that count and budget allow |
| EventHistory.QueryAccounts | src/a2gspu_context.hpp:305-317 | next minus after is lost plus returned; returned numbers have no gap; nothing kept is reported lost; a page with more to come advances; a last page reaches the last number exactly when something is kept or the cursor is already there |
| EventHistory.PollingCatchesUp | src/a2gspu_context.hpp:305-317 | with nothing added, as many polls as there are numbers to catch up with reach the last one and say so |
| EventHistory.ReopenedHistoryIsSilent | src/a2gspu_context.hpp:307-307 | the run in which a complete, lossless, last page does not |
| EventHistory.EveryRunIsAccounted | src/a2gspu_context.hpp:44-53 | over every run with a polling reader: kept numbers are the last ones, discarded plus kept are the events since `on`, and every number up to the cursor was delivered once or reported lost |
| EventHistory.HistoryHoldsTheLast | src/a2gspu_context.hpp:44-53 | over every run the history is the last of the events since `on`, with their parents, kinds and payloads, or the mark left for a large payload, and these marks are counted |
| EventHistory.DigitsAreDecimal | src/a2gspu_context.hpp:44-53 | the size in such a mark reads back in decimal |
| Crc.LookupIsEightShifts | src/a2gspu_png.hpp:42-55 | one table step is eight steps of the division register |
| Crc.LookupIsSerial | src/a2gspu_png.hpp:42-55 | and equals feeding the byte's bits one at a time |
| Crc.Table.Fill | src/a2gspu_png.hpp:43-52 | the table's entries |
| Crc.Table.Of | src/a2gspu_png.hpp:42-55 | the table CRC is bit-serial polynomial division for strings of every length from every start |
| Zlib.Checksum | src/a2gspu_png.hpp:108-109 | reducing at every step gives the two sums of the Adler-32 definition |
| Zlib.AdlerIsKnown | src/a2gspu_png.hpp:108-109 | that definition gives a checksum known from the literature |
| Zlib.Compress | src/a2gspu_png.hpp:94-110 | the loop writes the header, the stored blocks and the checksum |
| Zlib.BlocksDecode | src/a2gspu_png.hpp:97-107 | the blocks decode to the input, the first final block being the last, with matching lengths |
| Zlib.StreamDecodes | src/a2gspu_png.hpp:94-110 | the stream decodes to the input if and only if the input is not empty |
| Png.AppendChunk | src/a2gspu_png.hpp:62-70 | a chunk with its length, and the CRC of type and data |
| Png.EndChunkIsKnown | src/a2gspu_png.hpp:62-70 | the twelve bytes that end every picture, with their known checksum |
| Png.ChunkIsRead | src/a2gspu_png.hpp:62-70 | a checking reader takes it back |
| Png.LinesUnfilter | src/a2gspu_png.hpp:86-92 | the filtered lines give the pixels back |
| Png.WriteImage | src/a2gspu_png.hpp:73-163 | grey and RGB files |
| Png.ImageRoundTrip | src/a2gspu_png.hpp:73-163 | every image with a pixel reads back as itself from its file |
| Dhgr.Build | src/a2gspu_dhgr.hpp:68-89 | every table entry is the lo-res colour of its window rotated to its phase |
| Dhgr.Decoder.Push | src/a2gspu_dhgr.hpp:112-119 | after any dots the colour is that of the last four at the current phase |
| Dhgr.SolidDots | src/a2gspu_dhgr.hpp:123-127 | a solid colour's repeating dots |
| Dhgr.SolidIsOneColour | src/a2gspu_dhgr.hpp:58-127 | from the fourth dot on, at any length and offset, they show as the colour rotated by the offset |
| Agent.ValidCommand | src/a2gspu_agent.hpp:5-21 | accepts exactly 1 to 2047 bytes that encode allowed Unicode scalar values in UTF-8 |
| Agent.TakeScalar | src/a2gspu_agent.hpp:8-20 | takes one character's encoding, or shows there is none |
| Agent.EncodingReadsBack | src/a2gspu_agent.hpp:8-20 | every multi-byte encoding reads back as its value |
| Agent.ReadingEncodes | src/a2gspu_agent.hpp:8-20 | and every accepted reading is the encoding of its value |
| Agent.EncodingIsUnique | src/a2gspu_agent.hpp:8-20 | no two values are encoded at one place |

## Left out

- Files, pipes, SDL, the environment, processes and exit codes: files are byte sequences with a position, and whether the host opens, saves or reopens one is an input (`Transaction.RestoreVerb`).
- MMU, CPU core and device internals: states are opaque. A saved block is accepted by the same hardware and leaves what `kept` says, which may be less than was saved and may depend on the state it is loaded over; a failed restore may leave any state of that hardware (the law `Sane`). Hardware is what a snapshot does not carry: RAM geometry, slots, mounted images. Devices do not write into each other's states. Guest memory is an arbitrary function.
- Transaction.RestoreVerb: does not promise the old machine after every rollback, because the code does not give it back where a device loses state on a load; the exact condition is stated instead.
- Transaction.SavedFileRestores: what a file from other hardware does to a shared device is left to that device; `Transaction.OnlyNamedDevicesChange` and `Transaction.RestoreVerb` cover such files.
- `adjust_c14m` and attaching a scanner after cycles have run: the closed forms are not claimed there.
- Wrap-around of 64-bit counters and of the ring index: integers are unbounded; the 8- and 16-bit casts of the bus log, the 24- and 32-bit arithmetic of traps, the 32-bit lengths of snapshots and the CRC words are modelled.
- Png.ImageRoundTrip: says nothing of a picture whose compressed data reaches 4 GiB, where the chunk length is cut to 32 bits.
- Transaction.RestoreVerb: the checkpoint file is assumed to hold at rollback what was written to it, unless it cannot be reopened.
- TrapEngine.Trap.Check: one trap at a time, since traps do not affect each other; conditions and keys enter as their values at the moment (src/a2gspu_trap.hpp:317-364 only compares two expressions).
- Trap specifications, payload text, and `recompute_flags`, which only gates the hooks.
- TrapEngine.PcRing.Last: the payload count is at most 256, as the specification parser demands.
- `std::sort` and `std::stable_sort` are insertion sorts here; the results of the first do not depend on how ties fall, because a tie is refused.
- CovTracker.Tracker.Fetch: needs an instruction start since the last binding, as the CPU loop provides; binding alone leaves the cursor of an earlier plan (src/a2gspu_coverage.hpp:222-232).
- Coverage files, per-PC counts and the range syntax of `A2GSPU_COVERAGE`.
- The choice between the two memory layouts when both parse, report previews and JSON (src/a2gspu_snapdiff.hpp:128-195).
- Attaching the event history to another machine, marks, and the rendering of rows: a row is its length.
- Crc.Table.Of: the table belongs to an object instead of being a function-local static.
- DHGR file formats and page hashes, the HGR and SHR renderers, verb dispatch, and the other CTRL verbs.
