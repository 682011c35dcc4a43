# A verified model of the 6502-to-Z80 translator

The repository statically translates 6502 cartridge code to Z80. This project models the parts
whose correctness is hardest to see and proves what they promise:

- **Lifter against oracle.** `Isa` is an arithmetic reference for the instruction set; `Oracle` is
  the interpreter class of the repository, with its bus and bit-level flags, proved equal to it step
  by step; `InstructionLaws` describes the whole instruction set by relations (conservation, bits,
  congruences, in the bit calculus of `ByteBits`) and proves that the reference does exactly what
  they admit. `Cpu6502` and `OpcodeTable` are the shared decoder and its shipped 256 rows, which
  `OpcodeFields` derives from the bit fields of the opcodes. `Ir` gives the intermediate
  representation a meaning, `Lifter` lifts one instruction, `LiftRange` and `RangeLifter` lift an
  address range in two passes, and `RoutineSimulation` proves that the lifted routine follows the
  interpreter. `RangeLabels` and `LiftLaws` say which labels, pointers, regions and profiled
  operations a routine has and where the two passes go; `ReturnSites` covers the stack-escape
  validators and `LiftConditions` exactly which sites and ranges are accepted. `ReturnDispatch` is
  the computed-return marking, `ReturnRun` the run-to-return loop, `UnlabelledTarget` a concrete
  range in which a branch leaves the routine although its target was emitted, and `MultiByte`
  chained arithmetic.
- **Proof-of-concept compiler.** `FragmentCompiler` (decode, lift, one-pass lowering),
  `Z80Backend` (bytes, labels, holes), `Z80Interpreter`, `FragmentLayout`, `FragmentLabels`,
  `FragmentSource`, `FragmentFlags` and `FragmentSimulation`: a compiled slice runs in lock step
  with the 6502 under a flag discipline that is proved to be exactly what each step needs.
- **Discovery.** `FunctionWalk` (one walk), `WalkLaws` (its trace and its records, on the decoded
  instructions), `Discovery` (the worklist and byte classes), `DiscoveryLaws` (exactly what is found,
  when and in which order) and `Continuations` (the outer fixpoint).
- **Layout and checks of the pipeline.** `UnionFind` and `EdgePlacer`, `SectionPacking`,
  `DispatchIndex`, `RemapSafety`, and `RemapMeaning`, which compares the tests for mapper writes with
  what the operations do.
- **Boards.** `Mmc3Board` with `Mmc3Registers`, `Mmc3Irq` and `Mmc3Views`, `Mmc1Board`, `MapperPolicies`, and the
  counters `Vrc4Irq`, `Fme7Irq`, `Mmc5Irq`.
- **Acceptance runs.** `CounterDelta`, `PhaseMembership`, `Traversal`, `UpperExit`; `TraversalHistory`
  and `UpperExitHistory` say exactly which sequences of frames are accepted and complete.

Bytes and addresses are bounded integers and every wrap is written out. Code that changes state is
a class or a loop proved against a specification function; the laws are lemmas about that function.

Where the repository's code falls short of what one would expect, the code is kept and the exact
condition is proved:

- the two-operation form of DCP, ISC, SLO, RLA, SRE and RRA is faithful exactly when the second
  operation rereads the byte the first wrote; when that is, is spelled out for every operand
  (`Lifter.PairPreservedIffCoherent`, `Lifter.CoherentExactly`, `Lifter.OwnPointerFails`);
- a taken branch to an emitted address leaves the routine exactly when that address has no label,
  which can only be when the linear sweep did not decode the branch or the address lies in a
  dispatch table
  (`RangeLifter.TakenBranchLeavesIff`, `UnlabelledTarget.TakenBranchLeaves`);
- a slice with a branch back to its own first instruction does not compile
  (`FragmentLabels.CompilesIff`, `FragmentLabels.SelfBranchDoesNotCompile`);
- the discovery walk starts over at its entry exactly when it decodes a terminator or annotated call
  whose last byte is $FFFF, and never ends exactly when a pass that starts over has added no target,
  as for a function that begins with such a jump (`FunctionWalk.RestartsIff`,
  `FunctionWalk.WalkIsTheLoop`, `FunctionWalk.JumpAtTopIsEndless`);
- marking computed returns twice marks more than once exactly for the lists described by
  `ReturnDispatch.MarkingTwiceIff`;
- the check on mapped MMC3 routines passes over every writer but STA, such as INC $8000, and over an
  indexed STA that crosses from below $8000; those are all it misses
  (`RemapMeaning.WhatTheCheckPassesOver`, `RemapMeaning.IncrementIsPassedOver`);
- MMC5 compare values 1 to 5 match twice in 262 calls (`Mmc5Irq.MatchesPerFrame`).

## Model

| member | source | states |
|---|---|---|
| Cpu6502.DecodedBytes | crates/cpu6502/src/lib.rs:236-267 | decoding fails exactly when the opcode or an operand byte lies past the end; otherwise the instruction has its opcode's table row, and its opcode and operand, low byte first, are exactly the bytes decoded |
| Cpu6502.DecodesBack | crates/cpu6502/src/lib.rs:236-267 | laying an instruction of the table out in memory and decoding it gives the instruction back |
| Cpu6502.DecodedIsValid | crates/cpu6502/src/lib.rs:236-267 | over a well-formed table the decoder delivers only allowed mnemonic, mode, operand and size combinations |
| Cpu6502.DecodeLocal | crates/cpu6502/src/lib.rs:236-267 | decoding depends on the instruction's own bytes only, so the interpreter's three fetched bytes decode as the image does |
| OpcodeTable.ShippedIsWellFormed | crates/cpu6502/src/table.rs:24-316 | the shipped 256 rows meet every table condition the proofs use |
| OpcodeFields.ShippedByFields | crates/cpu6502/src/table.rs:24-316 | every row of the shipped table is selected by the three bit fields of its opcode, the irregular places listed |
| OpcodeFields.BranchFields | crates/cpu6502/src/table.rs:24-316 | a branch opcode is its condition: its top two bits select N, V, C or Z in the status byte and the third the value wanted |
| ByteBits.BitwisePlaces | crates/oracle_6502/src/lib.rs:412-753 | AND, ORA and EOR act on each of the eight places alone |
| ByteBits.NoSharedBit | crates/oracle_6502/src/lib.rs:508-513 | a conjunction is zero exactly when no bit is set in both bytes |
| ByteBits.StatusPlaces | crates/oracle_6502/src/lib.rs:220-230 | the status byte holds C Z I D B U V N from the lowest place |
| ByteBits.FlagPlaces | crates/oracle_6502/src/lib.rs:498-502 | and a byte read back gives each flag its place |
| InstructionLaws.AddressIff | crates/oracle_6502/src/lib.rs:260-333 | the effective address is the one its mode admits: sums that wrap within the page or memory, and pointers whose second byte comes from the next place of the same page |
| InstructionLaws.ReadIff | crates/oracle_6502/src/lib.rs:335-376 | loads, logic, addition, subtraction and comparison do exactly what conservation of operands, result and carry, signs and bits admit |
| InstructionLaws.MemoryIff | crates/oracle_6502/src/lib.rs:378-513 | stores, INC, DEC, BIT and the six combined instructions change exactly the byte, register and flags described |
| InstructionLaws.ImpliedIff | crates/oracle_6502/src/lib.rs:412-753 | transfers, pushes, pulls, register steps and flag instructions change exactly the register, stack byte or status place described |
| InstructionLaws.ControlIff | crates/oracle_6502/src/lib.rs:515-753 | jumps, calls, returns, BRK and branches go and push exactly as described, word order, wraps and vector included |
| InstructionLaws.ExecutesIff | crates/oracle_6502/src/lib.rs:412-753 | an instruction executes to a state if and only if the relational description admits that state |
| InstructionLaws.StepsUnless | crates/oracle_6502/src/lib.rs:121-186 | only JAM jams and only unstable opcodes are refused |
| InstructionLaws.BitReports | crates/oracle_6502/src/lib.rs:508-513 | after BIT the status byte has the top two bits of the operand, Z says whether A shares a set bit with it, and nothing else has changed |
| Isa.UnpackPacked | crates/oracle_6502/src/lib.rs:220-230 | pulling a pushed status byte restores all eight flags |
| Isa.OnlyWrite | crates/oracle_6502/src/lib.rs:412-753 | an instruction that falls through leaves memory alone or writes one byte |
| Oracle.FlagSet | crates/oracle_6502/src/lib.rs:224-230 | or-ing a mask into the status byte sets that flag and no other |
| Oracle.FlagCleared | crates/oracle_6502/src/lib.rs:224-230 | clearing a mask clears that flag and no other |
| Oracle.PackStatus | crates/oracle_6502/src/lib.rs:490-494 | the packed status byte, as PHP pushes it, is the weighted sum of its flags |
| Oracle.OverflowMask | crates/oracle_6502/src/lib.rs:355-365 | the adder's sixteen-bit mask `!(a ^ m) & (a ^ t) & 0x80` is exactly signed overflow |
| Oracle.ComplementAddIsSubtract | crates/oracle_6502/src/lib.rs:367-369 | adding the complement is subtraction with borrow, in value and in every flag |
| Oracle.BreakBits | crates/oracle_6502/src/lib.rs:490-502 | a pulled status byte clears B and sets U, a pushed one sets both, and no other flag changes |
| Oracle.UnpackStatus | crates/oracle_6502/src/lib.rs:498-502 | the flags of a pulled byte are its binary digits |
| BitMasks.OverflowBits | crates/oracle_6502/src/lib.rs:361 | the overflow mask, at sixteen bits, compares the signs of both operands and of the low byte of the sum |
| BitMasks.RotateLeft | crates/oracle_6502/src/lib.rs:394-401 | shifting left and or-ing the carry in doubles modulo 256 and adds it |
| BitMasks.RotateRight | crates/oracle_6502/src/lib.rs:403-410 | shifting right and or-ing the carry in at bit 7 halves and adds 128 for it |
| Oracle.Cpu.DoAdc | crates/oracle_6502/src/lib.rs:355-365 | the adder, with masks on the packed status byte, equals the reference addition |
| Oracle.Cpu.DoSbc | crates/oracle_6502/src/lib.rs:367-369 | the complement trick equals the reference subtraction |
| Oracle.Cpu.DoCmp | crates/oracle_6502/src/lib.rs:371-376 | comparison sets N, Z and C as the reference does and changes no register |
| Oracle.Cpu.ShiftByte | crates/oracle_6502/src/lib.rs:378-410 | the shifts and rotates on bits equal the reference ones, carry out included |
| Oracle.Cpu.TakeStatus | crates/oracle_6502/src/lib.rs:498-502 | pulling the status byte equals the reference, bit by bit |
| Oracle.Cpu.RunRmw | crates/oracle_6502/src/lib.rs:412-753 | the six combined instructions equal their reference meaning |
| Oracle.Cpu.Step | crates/oracle_6502/src/lib.rs:121-186 | one interpreter step equals the reference step; refused and jamming opcodes change nothing |
| ReturnRun.RunUntilRts | crates/oracle_6502/src/lib.rs:189-214 | the loop stops after the first return that no call since the start matches, at the step limit, or at a refused instruction; until then calls never fall behind returns |
| ReturnRun.DepthCounts | crates/oracle_6502/src/lib.rs:189-214 | the depth is how many more calls than returns the run has made |
| MultiByte.MultiByteAdd | crates/oracle_6502/src/lib.rs:355-365 | for every length, a carry-clear chain of ADC adds modulo 256^n with C the carry out and V the signed overflow of the whole number |
| MultiByte.MultiByteSubtract | crates/oracle_6502/src/lib.rs:367-369 | for every length, a carry-set chain of SBC subtracts modulo 256^n with C as no-borrow and V the signed overflow |
| Lifter.LabelForInjective | crates/ir/src/lib.rs:662-671 | two addresses never share a label, with or without a window prefix |
| LiftLaws.LabelSpellsAddress | crates/ir/src/lib.rs:662-671 | a label is `L_`, the prefix inside the window, and four hexadecimal digits that read back as the address |
| Ir.RegionsAre | crates/ir/src/lib.rs:34-52 | the memory map: which addresses belong to each region |
| LiftLaws.RegionIsTheOperands | crates/ir/src/lib.rs:704-1352 | every memory operation carries the region of its instruction's operand |
| LiftLaws.EscapeGoesWhereTheJumpGoes | crates/ir/src/lib.rs:918-942 | a jump at a profiled escape becomes the escape exactly when the interpreter goes to the profiled target, and is refused otherwise |
| LiftLaws.OthersAreRefused | crates/ir/src/lib.rs:710-722 | any other instruction at a profiled escape is refused, as is an unstable opcode |
| LiftLaws.CallIsMaterializedIff | crates/ir/src/lib.rs:958-984 | a call that is no dispatch call names the label of where the interpreter goes, and is materialized exactly when the profile lists its address |
| LiftLaws.PopsAreMarked | crates/ir/src/lib.rs:1686-1702 | behind a marker stand the pop of the first escape that pulls there and the pops of the first pair, and nothing else |
| LiftLaws.FirstRegion | crates/ir/src/lib.rs:1378-1381 | of the data regions that hold an address the first listed is taken |
| LiftLaws.FirstEngine | crates/ir/src/lib.rs:966 | of the dispatch calls listed for an address the first is taken |
| LiftLaws.FirstEscapeSite | crates/ir/src/lib.rs:924 | of the escapes listed for an address the first is taken |
| Lifter.AddrExprIsEffectiveAddress | crates/ir/src/lib.rs:689-701 | the address expression resolves to the interpreter's effective address on every machine |
| Lifter.LiftPreserves | crates/ir/src/lib.rs:704-1352 | every lifted instruction that falls through has exactly the interpreter's effect on registers, flags and memory |
| Lifter.PairPreservedIffCoherent | crates/ir/src/lib.rs:808-861 | a two-operation pair is faithful for every accumulator if and only if the second operation sees the byte just written |
| Lifter.CoherentExactly | crates/ir/src/lib.rs:808-861 | that condition in terms of the operand: the byte would not change, or the write lands and is no pointer byte of the instruction or the moved operand happens to hold the byte written |
| Lifter.WritableOperandIsCoherent | crates/ir/src/lib.rs:808-861 | a writable operand that is not one of the instruction's own pointer bytes meets the condition |
| Lifter.ReadOnlyOperand | crates/ir/src/lib.rs:808-861 | on a read-only operand the condition holds only if the write would not have changed the byte |
| Lifter.StepOnReadOnlyFails | crates/ir/src/lib.rs:808-861 | so every DCP or ISC on a read-only operand goes wrong for some accumulator |
| Lifter.OwnPointerFails | crates/ir/src/lib.rs:808-861 | a concrete `DCP ($10),Y` that decrements its own pointer is not faithful |
| Lifter.PointerWriteMovesOperand | crates/ir/src/lib.rs:808-861 | writing another value over its own pointer byte always moves the operand |
| LiftRange.WalkShape | crates/ir/src/lib.rs:1643-1784 | emitted source addresses strictly increase, every emitted instruction is what the image decodes to, and execution falls from each item to the next |
| LiftRange.SameInstruction | crates/ir/src/lib.rs:1643-1784 | the interpreter decodes from the loaded bus what the lifter decoded from the image |
| RangeLifter.Sweep | crates/ir/src/lib.rs:1362-1441 | the first pass, skipping data and the tables behind dispatch calls, collects exactly the specification's target set, or its error |
| RangeLifter.SweptTargetsAreCollected | crates/ir/src/lib.rs:1375-1441 | a target of a swept branch or jump that is in range, not data and in no dispatch table is collected |
| RangeLifter.CollectedTargets | crates/ir/src/lib.rs:1375-1441 | collected targets are named by a swept branch or jump, in range, not data and in no dispatch table |
| RangeLabels.SweepCovers | crates/ir/src/lib.rs:1375-1427 | every address of the range is profiled data, a byte of a swept instruction, or in the table of a swept dispatch call |
| RangeLabels.SweptAreApart | crates/ir/src/lib.rs:1375-1427 | swept instructions never overlap each other, a dispatch table or data |
| RangeLabels.LabelledExactly | crates/ir/src/lib.rs:1394-1442 | labelled are exactly the addresses in range, in no data and no table, that the profile lists or a swept branch or jump names |
| RangeLabels.NamedLabelsAreDefined | crates/ir/src/lib.rs:1436-1442 | the label of each such address that is emitted stands right before its instruction in the operations, and every jump to it arrives there |
| RangeLabels.LabelsAreAccounted | crates/ir/src/lib.rs:1660-1673 | every label behind the first belongs to the instruction behind it, an address the profile lists or a swept branch or jump names |
| RangeLabels.WalkResumesAtLowest | crates/ir/src/lib.rs:1643-1752 | behind a terminator, a dispatch table or a data hole emission resumes at the lowest target named behind it, and stops when there is none |
| RangeLabels.PointersAreExact | crates/ir/src/lib.rs:944-951 | a routine lists exactly the pointers its operations jump through |
| RangeLifter.ValidateSites | crates/ir/src/lib.rs:1442-1641 | the validator loops accept and reject exactly as their specification, entries from dispatch calls included |
| LiftConditions.EscapeAcceptedIff | crates/ir/src/lib.rs:1542-1641 | a consumed escape is accepted if and only if it lies elsewhere, or is two pulls, a stretch of loads and NOPs and the jump, which no label, dispatch name or scanned call enters in the middle |
| LiftConditions.ConsumeAcceptedIff | crates/ir/src/lib.rs:1462-1540 | a pull pair is accepted if and only if it lies elsewhere, or is two pulls with zero-page stores and NOPs between them, entered nowhere in the middle |
| LiftConditions.MaterializedAcceptedIff | crates/ir/src/lib.rs:1444-1461 | a materialized call is accepted if and only if it lies elsewhere or is a JSR to its target that ends in the range |
| LiftConditions.SitesAcceptedIff | crates/ir/src/lib.rs:1442-1641 | validation accepts if and only if every profiled site conforms |
| LiftConditions.LiftsIff | crates/ir/src/lib.rs:1362-1784 | exactly when a range lifts: it is not empty, what the passes come to is data or decodes, the sites conform, and the second pass comes to both ends of each consumed escape that starts in the range |
| RangeLifter.Emit | crates/ir/src/lib.rs:1643-1784 | the second pass, resuming behind terminators and dispatch tables, emits exactly the specification's items, in order |
| RangeLifter.Lift | crates/ir/src/lib.rs:1362-1784 | both passes and the validators together deliver the planned routine, with its end and its lists of names, or the first error |
| RangeLifter.PlanIsValid | crates/ir/src/lib.rs:1362-1784 | what a successful lift delivers meets everything the simulation needs |
| RangeLifter.EmittedTableIsSkipped | crates/ir/src/lib.rs:1716-1737 | in a lifted range no instruction is emitted from the table behind an emitted dispatch call |
| RangeLifter.MentionedNamesAreListed | crates/ir/src/lib.rs:724-740 | every label an operation of a routine refers to is in its list of branch labels or of external calls |
| RangeLifter.ListedNamesAreAccounted | crates/ir/src/lib.rs:724-740 | a listed branch label is the label of an address in range; a listed external call is the label of one out of range or of a data hole, or is named by a dispatch call |
| RangeLifter.SweptTargetIsEnterable | crates/ir/src/lib.rs:1375-1441 | the target of a swept, emitted branch, if in no dispatch table, can be entered exactly when it was emitted or is the named entry |
| RangeLifter.TakenBranchLeavesIff | crates/ir/src/lib.rs:1643-1784 | a taken branch of a lifted range leaves it if and only if its target is not the named entry and not both emitted and labelled; for a swept branch to no dispatch table, not emitted |
| RangeLifter.CallResumesAtNextSource | crates/ir/src/lib.rs:479-490 | at a lifted call that is no dispatch call, the next source address is where the interpreter's return resumes, whatever happened to the rest of the machine |
| RoutineSimulation.LabelsAreUnique | crates/ir/src/lib.rs:1643-1784 | no label is defined twice in a routine |
| RoutineSimulation.GotoFollows | crates/ir/src/lib.rs:1643-1784 | a jump to a label stands at its address if that can be entered, and otherwise leaves the routine naming it |
| RoutineSimulation.SimulateInstruction | crates/ir/src/lib.rs:704-1352 | one instruction's block, with labels, markers, holes and the routine's end, is followed to the interpreter's next address with the same machine, or leaves for it when no label enters that address |
| RoutineSimulation.RoutineSimulates | crates/ir/src/lib.rs:1362-1784 | for every run of the interpreter through plain instructions the operations, always running forward, match each of its states in turn; they stop early only at an address that no label enters, and where nothing is emitted unless an emitted branch named it |
| RoutineSimulation.StandingExits | crates/ir/src/lib.rs:742-985 | a routine that stands at a call, dispatch call, return, trap or indirect jump stops with exactly that exit on the interpreter's machine |
| RoutineSimulation.RunEndsInExit | crates/ir/src/lib.rs:1362-1784 | a plain run up to such an instruction ends in that exit with an equal machine, unless the routine left earlier for an address that no label enters |
| RangeLifter.LiftedRangeSimulates | crates/ir/src/lib.rs:1362-1784 | the same for the output of a successful lift of any range |
| RangeLifter.SweptRangeLeavesOnlyOutside | crates/ir/src/lib.rs:1362-1784 | when the first pass decoded every emitted instruction and none lies in a dispatch table, the lifted range tracks the interpreter until control leaves the emitted blocks: an early stop is never at an emitted address |
| UnlabelledTarget.TakenBranchLeaves | crates/ir/src/lib.rs:1375-1441 | over the shipped opcode table a concrete range lifts although its branch leads to an emitted instruction without a label, and the taken branch leaves the routine |
| RangeLifter.LiftedEscapeIsSound | crates/ir/src/lib.rs:1542-1641 | every consumed escape listed for a range that lifts, of any suffix length, arrives at its target with SP raised by exactly two and no memory written |
| RangeLifter.LiftedConsumeIsSound | crates/ir/src/lib.rs:1462-1540 | every pull pair listed for a range that lifts raises SP by exactly two and writes only zero page |
| ReturnSites.EscapeIsSound | crates/ir/src/lib.rs:1542-1641 | the same for one site the validator accepts |
| ReturnSites.ConsumeIsSound | crates/ir/src/lib.rs:1462-1540 | the same for one pull pair the validator accepts |
| ReturnSites.NoEntryInsideEscape | crates/ir/src/lib.rs:1568-1582 | no labelled address lies inside an accepted escape block, and no dispatch call names one |
| ReturnSites.NoCallInside | crates/ir/src/lib.rs:1583-1610 | no scanned call leads into a guarded block |
| ReturnDispatch.MarkRtsDispatch | crates/ir/src/lib.rs:635-660 | the in-place pass rewrites exactly the marked returns, changes nothing else and counts them |
| ReturnDispatch.CountIsRewritten | crates/ir/src/lib.rs:635-660 | the number returned is how many returns became dispatches |
| LiftLaws.BoundariesAre | crates/ir/src/lib.rs:642-648 | the balance starts over exactly at labels, at returns, and at operations that refer to labels other than dispatch calls |
| ReturnDispatch.MarkingIsBlockwise | crates/ir/src/lib.rs:632-660 | a return is rewritten exactly when its block pushes at least two more bytes than it pulls |
| ReturnDispatch.MarkedReturnPopsItsOwnPushes | crates/ir/src/lib.rs:632-660 | in a block that touches the stack only with PHA and PLA, both bytes a marked return pops were pushed from the accumulator inside that block |
| ReturnDispatch.SecondPassMarks | crates/ir/src/lib.rs:635-660 | a second pass marks exactly the unmarked returns whose block, counted across marked returns, pushes at least two more bytes than it pulls |
| ReturnDispatch.MarkingTwiceIff | crates/ir/src/lib.rs:635-660 | marking twice is marking once if and only if there is no such return |
| ReturnDispatch.MarkingTwiceMarksMore | crates/ir/src/lib.rs:635-660 | a concrete list on which a second pass marks another return |
| Z80Backend.Z80Program.Finish | poc/src/z80_backend.rs:87-107 | finishing fails exactly when a hole names an undefined label, and otherwise fills the holes in order |
| Z80Backend.FilledHole | poc/src/z80_backend.rs:87-98 | every hole ends up holding its label's position, little-endian |
| Z80Backend.FilledElsewhere | poc/src/z80_backend.rs:87-98 | no byte outside the holes changes |
| Z80Backend.Z80Program.WithLabel | poc/src/z80_backend.rs:226-283 | a jump emits its opcode and a two-byte hole recorded for its label |
| FragmentCompiler.Decode | poc/src/ir6502.rs:249-363 | the decode loop equals the recursive decoder, with its unsupported-opcode and truncation errors |
| FragmentCompiler.LiftSupportedRange | poc/src/ir6502.rs:149-215 | length and byte mismatches, decode errors and the lifted operation list, labels and ascending exit stubs included |
| FragmentCompiler.LowerOp | poc/src/ir6502.rs:369-401 | each operation's Z80 bytes, labels and holes |
| FragmentCompiler.OnePassIsTwoPass | poc/src/z80_backend.rs:87-107 | emission with back-patching succeeds exactly when a two-pass assembler resolves every name, and gives the same bytes |
| FragmentCompiler.Compile | poc/src/ir6502.rs:50-147 | lifting, lowering and finishing together equal the two-pass reference |
| FragmentLabels.CodeFits | poc/src/z80_backend.rs:43-45 | two Z80 bytes per source byte always suffice, so no sixteen-bit label position wraps |
| FragmentLabels.CompilesIff | poc/src/ir6502.rs:149-215 | a decodable slice compiles if and only if every branch inside it lands on an instruction other than the unlabelled start |
| FragmentLabels.SelfBranchDoesNotCompile | poc/src/ir6502.rs:149-215 | a concrete slice that branches to its own start does not compile |
| FragmentSource.DecodersAgree | poc/src/ir6502.rs:249-363 | on every supported opcode the fragment decoder and the shared decoder over the shipped table agree |
| FragmentSource.SupportedIff | poc/src/ir6502.rs:249-363 | exactly the ten opcodes of the supported rows of the shared table decode, with their sizes |
| FragmentSource.StepIsMeaning | poc/src/ir6502.rs:192-204 | one interpreter step on loaded slice bytes is the decoded operation's meaning |
| FragmentFlags.EncodedStep | poc/src/ir6502.rs:568-795 | the Z80 interpreter executes each encoded instruction as its lowered effect |
| FragmentFlags.PermittedSimulates | poc/src/ir6502.rs:369-401 | on permitted flags one lowered instruction keeps accumulator, zero page and flag knowledge, and takes or skips its branch with the 6502 |
| FragmentFlags.NotPermittedFails | poc/src/ir6502.rs:380-393 | wherever knowledge does not permit an instruction, related flags exist on which one step gives another accumulator or the other branch |
| FragmentSimulation.InstructionSimulates | poc/src/ir6502.rs:369-401 | one 6502 step inside a compiled slice is matched by one Z80 step of the linked bytes |
| FragmentSimulation.FragmentSimulates | poc/src/ir6502.rs:149-401 | however long a disciplined run stays inside the slice, the linked bytes have run equally many steps with the same accumulator and zero page, at the matching place |
| FragmentSimulation.EndsTogether | poc/src/ir6502.rs:209-212 | the Z80 code returns exactly at a source return or after leaving for an exit stub, and runs off its end exactly when a slice without exits does |
| FragmentSimulation.WellTypedIsDisciplined | poc/src/ir6502.rs:369-401 | every run of a slice whose instructions carry a consistent flag annotation obeys the discipline, whatever path it takes |
| FunctionWalk.Walk | crates/analysis/src/lib.rs:227-429 | the walk loop equals its specification, pass after pass, and stops unless a pass would be repeated for ever |
| FunctionWalk.WalkMeaning | crates/analysis/src/lib.rs:227-429 | a walk decodes instructions inside window, size bound and non-data bytes, each behind the one before except where a pass starts over, and gathers exactly their labels, external references and roots; a walk of one pass is strictly increasing and, if it finishes at a terminator, loses no label to the clean-up |
| WalkLaws.ContributesWhatItNames | crates/analysis/src/lib.rs:312-388 | a decoded instruction contributes the label, external reference, pointer and new root that its mnemonic, mode, operand and place name, and nothing else |
| WalkLaws.WalkRecords | crates/analysis/src/lib.rs:312-429 | what a walk records, on the instructions it decoded |
| WalkLaws.WalkIsTraced | crates/analysis/src/lib.rs:227-429 | which instructions a walk decodes: from the entry each one behind the last or, behind one that ends the path, at the lowest pending target; and why it ends where it does |
| WalkLaws.TraceIsTheWalk | crates/analysis/src/lib.rs:227-429 | whatever trace and end satisfy that description are those of the walk |
| FunctionWalk.RestartsIff | crates/analysis/src/lib.rs:391-401 | over an image of at most 32 KiB the first pass starts over if and only if it decodes a terminator or annotated call whose last byte is $FFFF |
| FunctionWalk.NothingAtTopNeverRestarts | crates/analysis/src/lib.rs:391-401 | so without such an instruction in the window every walk ends |
| FunctionWalk.UnchangedPassRepeats | crates/analysis/src/lib.rs:253-409 | a pass that comes back to the entry with the targets it began with is repeated for ever |
| FunctionWalk.WalkIsTheLoop | crates/analysis/src/lib.rs:253-409 | turn by turn, the source's loop never ends exactly when some pass starts over without a new target, and otherwise ends as the walk says |
| FunctionWalk.JumpAtTopIsEndless | crates/analysis/src/lib.rs:391-401 | a function that starts with an absolute jump in the last three bytes is walked for ever |
| Discovery.ClassMap.MarkCode | crates/analysis/src/lib.rs:117-121 | marks exactly the range as code |
| Discovery.ClassMap.MarkData | crates/analysis/src/lib.rs:123-129 | marks the range as data except where it is code |
| Discovery.InitialRoots | crates/analysis/src/lib.rs:541-565 | the root map holds exactly the initial addresses inside the window, zero excepted, with their kinds |
| Discovery.Enqueue | crates/analysis/src/lib.rs:631-640 | every new root is recorded with its kind, and queued unless discovered |
| Discovery.Analyze | crates/analysis/src/lib.rs:492-700 | the worklist ends with the discovered set equal to the root set, each function being its walk with the roots known then, bytes Code exactly where some walk decoded and Data exactly where declared and never decoded; it fails only if some walk never ends, and never when nothing ends at $FFFF |
| DiscoveryLaws.DiscoveredExactly | crates/analysis/src/lib.rs:346-383 | an address is discovered as a kind if and only if it is an accepted initial root of that kind, or a discovered function decodes a JSR that is no dispatch call, or a JMP that closes no loop, to it in the window |
| DiscoveryLaws.EveryFunctionHasAKind | crates/analysis/src/lib.rs:643-660 | every discovered function has a kind, so each is accounted for by the law above |
| DiscoveryLaws.DiscoveredIsLeast | crates/analysis/src/lib.rs:592-667 | any set that holds the initial roots and whatever its members call or jump to holds every discovered function |
| DiscoveryLaws.KnownExactly | crates/analysis/src/lib.rs:597-606 | each function is walked knowing exactly the initial roots and what the functions walked before it call or jump to |
| DiscoveryLaws.WalkedInOrderOfArrival | crates/analysis/src/lib.rs:583-640 | the order of the walks: initial roots ascending, then what each function in turn found, each address where it first comes up |
| DiscoveryLaws.FunctionRecords | crates/analysis/src/lib.rs:598-667 | a function lists exactly the labels, external references and pointers its decoded instructions name, and its end is where its trace ends |
| DiscoveryLaws.ClassesExactly | crates/analysis/src/lib.rs:117-130 | a byte is code exactly where some walk decoded an instruction, else data exactly where it is declared |
| Discovery.MergeKinds | crates/analysis/src/lib.rs:669-680 | afterwards each function has exactly the kinds of its root |
| Continuations.Trim | crates/cli/src/pipeline.rs:659-666 | each range is cut off at the next entry and otherwise kept |
| Continuations.OneOwner | crates/cli/src/pipeline.rs:659-667 | trimmed ranges never overlap |
| Continuations.OwnedIff | crates/cli/src/pipeline.rs:658-668 | an address lies in a trimmed range exactly when the last function entered at or below it reaches beyond it |
| Continuations.GivenRoots | crates/analysis/src/lib.rs:546-560 | the initial roots are the vectors, the listed functions and the table targets, each with its kind |
| Continuations.FindContinuations | crates/cli/src/pipeline.rs:669-692 | finds exactly the unowned, in-window, non-data labels that the profile does not list |
| Continuations.AnalyzeWithContinuations | crates/cli/src/pipeline.rs:649-705 | the fixpoint ends, adds to the profile's list only in-window non-data addresses that discovery, with the functions listed before, mentioned and left without an owner, and returns an analysis of the final list with every wanted label owned or listed; it fails only as discovery does |
| Continuations.LabelsAreOwned | crates/cli/src/pipeline.rs:643-705 | on return every in-window, non-data label (and on a dynamic bus every external reference) has exactly one owner, the last function entered at or below it, or is itself a discovered function at which nothing decodes |
| UnionFind.Find | crates/cli/src/pipeline.rs:1889-1895 | path halving ends at the class's root and leaves every class as it was |
| EdgePlacer.Merge | crates/cli/src/pipeline.rs:1901-1907 | an edge joins two classes exactly when they differ and fit together, and sizes stay the sums of their members' estimates |
| EdgePlacer.BuildClusters | crates/cli/src/pipeline.rs:1887-1911 | merged clusters fit 16 KiB, hold only routines connected by edges, and no edge's clusters could still be merged |
| EdgePlacer.SortByAnchor | crates/cli/src/pipeline.rs:1912-1917 | the order is a permutation sorted by first member, then by index |
| EdgePlacer.PlaceByEdges | crates/cli/src/pipeline.rs:1887-1922 | clusters and order together, identity when nothing merged |
| EdgePlacer.Reorder | crates/cli/src/pipeline.rs:1918-1922 | every slot is taken exactly once, so the routines are permuted |
| EdgePlacer.ClustersAreContiguous | crates/cli/src/pipeline.rs:1912-1922 | between two members of a cluster stand only members, in original order |
| EdgePlacer.ClustersByFirstMember | crates/cli/src/pipeline.rs:1912-1922 | clusters follow the order of their first members |
| EdgePlacer.LeadersKeepOrder | crates/cli/src/pipeline.rs:1838-1844 | routines that are first of their cluster keep their relative order |
| EdgePlacer.PlacedClusterFits | crates/cli/src/pipeline.rs:1901-1922 | the stretch of routines between two members of a cluster fits one section |
| SectionPacking.Program.PackCandidate | crates/cli/src/pipeline.rs:488-514 | one transactional sizing step, with its bank and size errors |
| SectionPacking.Program.PlacePlanned | crates/cli/src/pipeline.rs:2007-2041 | one frozen-plan step, with its missing, impossible and overflow errors |
| SectionPacking.PackTwice | crates/cli/src/pipeline.rs:2006-2057 | both passes as loops equal their specifications |
| SectionPacking.PackingFits | crates/cli/src/pipeline.rs:488-514 | no section exceeds its capacity, and routine sections never decrease and rise by at most one |
| SectionPacking.PackingSucceeds | crates/cli/src/pipeline.rs:488-514 | packing succeeds whenever each routine fits a section of its own, exactly full included, and there are banks for all |
| SectionPacking.PackingFailsOnly | crates/cli/src/pipeline.rs:488-514 | it fails only for want of a bank or on a routine larger than a section |
| SectionPacking.FrozenPlanHolds | crates/cli/src/pipeline.rs:2007-2041 | if nothing grows, the second pass carries out the plan to the letter and never overflows |
| SectionPacking.AdjacentSectionsAreFull | crates/cli/src/pipeline.rs:488-514 | with section-independent sizes two adjacent sections together hold more than 16 KiB |
| SectionPacking.SectionCountBound | crates/cli/src/pipeline.rs:488-514 | so the section count is bounded by the total size |
| DispatchIndex.PageCounts | crates/cli/src/pipeline.rs:94-112 | table size and target errors, and the count byte of every page with oversized pages as zero |
| DispatchIndex.PointerIndices | crates/cli/src/pipeline.rs:117-138 | all 32768 entries are the page-local lower bounds |
| DispatchIndex.OrderIs | crates/cli/src/pipeline.rs:2197-2209 | records are ordered by address, at one address the fixed bank first, then by bank |
| DispatchIndex.CountByteIs | crates/cli/src/pipeline.rs:98-114 | the count byte is how many records lie on the page, and zero for empty and oversized pages |
| DispatchIndex.EntryCounts | crates/cli/src/pipeline.rs:117-138 | in a sorted table an entry counts the records below its address, or below its page when the count byte is zero |
| DispatchIndex.ScanFinds | crates/cli/src/pipeline.rs:2197-2209 | the scan finds the first record for the address in the fixed bank or the given one |
| DispatchIndex.ScanFindsNothing | crates/cli/src/pipeline.rs:2197-2209 | and nothing when there is none |
| DispatchIndex.EntryFindsTheSame | crates/cli/src/pipeline.rs:114-138 | an entry is at most the number of records below its target, and scanning from it finds the record the whole table holds |
| DispatchIndex.FixedBankWins | crates/cli/src/pipeline.rs:2197-2209 | at a shared address the fixed-bank record is found first |
| RemapSafety.Writers | crates/cli/src/pipeline.rs:145-184 | the writer loop ends at a set that is closed under calls and holds only labels from which a possible mapper write is reached |
| RemapSafety.SoundAndClosedIsLeast | crates/cli/src/pipeline.rs:172-184 | that set is the least closed one, whatever the order of the passes |
| RemapSafety.CheckMappingContinuations | crates/cli/src/pipeline.rs:144-195 | the check rejects if and only if a bank-mapped routine has a call path to a possible mapper write |
| RemapSafety.BankLabelIs | crates/cli/src/pipeline.rs:185-187 | a routine is mapped exactly when its name starts with `L_b` |
| RemapSafety.DirectWriterIff | crates/cli/src/pipeline.rs:145-171 | a routine writes directly exactly when one of its operations may |
| RemapMeaning.MayRemapPrgIsExact | crates/ir/src/lib.rs:417-442 | the operation test is exact: it holds if and only if on some machine the operation changes a byte of $8000-$9FFF |
| RemapMeaning.WhatTheCheckPassesOver | crates/cli/src/pipeline.rs:145-171 | the operations that can change a byte from $8000 on without counting as writers are exactly all but STA, and STA with an index across $8000 |
| RemapMeaning.StaCounts | crates/cli/src/pipeline.rs:161-168 | an STA counts exactly when its base lies in expansion space or from $8000 on, or it goes through a pointer |
| RemapMeaning.IncrementIsPassedOver | crates/cli/src/pipeline.rs:145-171 | INC $8000 can change the mapping and does not count as a writer |
| LiftLaws.WritersByExclusion | crates/cli/src/pipeline.rs:148-170 | of the operations control can leave through, those counting as writers are mapper writes and the ones that neither refer to a label nor return, trap or pop |
| Mmc3Board.Mmc3.WriteRegister | crates/nes_rom/src/mmc3.rs:257-286 | the eight register aliases and the ignored range |
| Mmc3Registers.RegistersAreHistory | crates/nes_rom/src/mmc3.rs:257-286 | over any history each register holds the last value its address lines selected it for, and mirroring and enable follow the last such write |
| Mmc3Registers.BanksAreHistory | crates/nes_rom/src/mmc3.rs:257-286 | each bank register holds the last value written while it was selected |
| Mmc3Registers.AcceptedBankCounts | crates/nes_rom/src/mmc3.rs:130-132 | accepted boards carry a power of two of banks, from four to sixty-four |
| Mmc3Registers.PowerOnIsQuiet | crates/nes_rom/src/mmc3.rs:151-167 | at power-on every register is zero, the line is down and the filter at rest |
| Mmc3Board.A12IsLine12 | crates/nes_rom/src/mmc3.rs:292 | the level is binary digit 12 of the address |
| Mmc3Board.Mmc3.ObservePpuAddress | crates/nes_rom/src/mmc3.rs:291-300 | one observed PPU address |
| Mmc3Board.Mmc3.ClockM2FallingEdge | crates/nes_rom/src/mmc3.rs:305-309 | one M2 falling edge |
| Mmc3Irq.EdgesAreHistory | crates/nes_rom/src/mmc3.rs:287-309 | over any interleaving the edge register counts, up to three, the M2 edges since A12 went low |
| Mmc3Irq.ClocksExactlyOnFilteredRises | crates/nes_rom/src/mmc3.rs:287-309 | the counter is clocked exactly by an A12 rise after at least three such edges, and other non-write events touch only the filter |
| Mmc3Irq.LowSinceExists | crates/nes_rom/src/mmc3.rs:287-300 | whenever A12 is low there is a moment since which it has been |
| Mmc3Irq.CounterClosedForm | crates/nes_rom/src/mmc3.rs:311-326 | n clocks after a reload with latch L the counter is L - ((n-1) mod (L+1)), zero exactly at multiples of L+1, whatever else happens in between |
| Mmc3Irq.LineUpExactlyAfterLatchPlusOne | crates/nes_rom/src/mmc3.rs:311-331 | the enabled, unacknowledged line is up exactly from clock L+1 on |
| Mmc3Irq.LineStays | crates/nes_rom/src/mmc3.rs:327-331 | an asserted line stays up until an even $E000-range write |
| Mmc3Irq.LineRisesOnlyAtZero | crates/nes_rom/src/mmc3.rs:311-326 | it comes up only at a clock that leaves the counter at zero while enabled |
| Mmc3Irq.LinePeriod | crates/nes_rom/src/mmc3.rs:311-331 | acknowledged and enabled again at any moment, the line next comes up at the next clock whose number is a multiple of L+1 |
| Mmc3Irq.EveryRoundTakesOnePeriod | crates/nes_rom/src/mmc3.rs:311-331 | a handler that acknowledges and enables again each time the line comes up is served every L+1 clocks: n rounds take n(L+1) |
| Mmc3Views.OffsetsStayInside | crates/nes_rom/src/mmc3.rs:183-223 | after any events every address above $8000 decodes inside the ROM |
| Mmc3Views.ViewRefinesBoard | crates/cli/src/pipeline.rs:351-368 | while a bank is mapped in a window the analysis view holds the board's byte there and at $E000-$FFFF |
| Mmc3Views.ViewIsZeroElsewhere | crates/cli/src/pipeline.rs:351-368 | which units have a view, and that it is zero outside the unit's window and the fixed one |
| Mmc3Views.EveryUnitIsReachable | crates/cli/src/pipeline.rs:351-368 | two register writes map any bank into any analysed window |
| MapperPolicies.ViewEqualsDecoder | crates/nes_rom/src/lib.rs:442-510 | a banked view equals the address decoder at every address, and both refuse the same banks |
| MapperPolicies.FixedPrgIsDecoded | crates/nes_rom/src/lib.rs:442-510 | the fixed half holds what the decoder selects from $C000 on, on every board |
| MapperPolicies.AcceptedBankCounts | crates/nes_rom/src/lib.rs:346-367 | the accepted bank counts are the powers of two from two to sixteen |
| MapperPolicies.ExpandsExactly | crates/cli/src/pipeline.rs:851-872 | exactly the images with magic, mapper 0, one bank, no trainer and the bank itself are expanded |
| MapperPolicies.ExpansionIsInvisible | crates/cli/src/pipeline.rs:851-872 | expanding a 16 KiB image changes no CPU-visible byte, nothing after the PRG, and only once |
| Mmc1Board.Mmc1.WriteRegister | crates/nes_rom/src/mmc1.rs:175-197 | one write to the serial port |
| Mmc1Board.LinesOfWrite | crates/nes_rom/src/mmc1.rs:175-197 | a write resets by its top bit and commits to the register that A14 and A13 select |
| Mmc1Board.PortIsHistory | crates/nes_rom/src/mmc1.rs:175-197 | over any history the port holds the bits written since the last reset or commit |
| Mmc1Board.FifthWriteCommits | crates/nes_rom/src/mmc1.rs:172-197 | the fifth write commits five bits, least significant first, to the register of its own address and to no other; a reset forces mode 3 |
| Mmc1Board.OnlyCommitAddressesMatter | crates/nes_rom/src/mmc1.rs:172-197 | histories that differ only in the addresses of non-committing writes give the same board |
| Mmc1Board.OffsetsStayInside | crates/nes_rom/src/mmc1.rs:201-237 | after any writes, in every mode, an address above $8000 decodes inside the ROM |
| Mmc1Board.DecodesByMode | crates/nes_rom/src/mmc1.rs:201-237 | what each mode shows: an even bank and its successor, the first bank below, or the last bank above, and the selected bank in the other window, each at the place of the address |
| Mmc1Board.Mode3IsThePolicy | crates/nes_rom/src/lib.rs:442-470 | in mode 3 the live board and the stateless policy decode every address alike |
| Mmc1Board.ResetReachesThePolicy | crates/nes_rom/src/mmc1.rs:177-182 | after a reset write they agree whatever came before |
| Vrc4Irq.Vrc.IrqScanline | crates/nes_rom/src/vrc2.rs:215-229 | the prescaler loop equals its specification |
| Vrc4Irq.Vrc.WriteRegister | crates/nes_rom/src/vrc2.rs:150-203 | the $F000 block's latch nibbles, control and acknowledge, with either order of the address lines |
| Vrc4Irq.SelectLines | crates/nes_rom/src/vrc2.rs:147-158 | the register of a block is selected by either of A0 and A2 and either of A1 and A3, exchanged on swapped boards |
| Vrc4Irq.ControlStarts | crates/nes_rom/src/vrc2.rs:188-199 | from any state a control write with the enable bit starts the counter from the latch |
| Vrc4Irq.AcknowledgeRestores | crates/nes_rom/src/vrc2.rs:188-203 | after a control write and any scanlines an acknowledge takes the line down and counts on exactly when bit 0 of the control value asked for it |
| Vrc4Irq.ControlThenScanlines | crates/nes_rom/src/vrc2.rs:185-238 | from any state, a control write with the enable bit and k scanlines have fired iff the steps made, floor(341k/3) in cycle mode and k otherwise, reach 256 - latch |
| Vrc4Irq.ProgrammedThenScanlines | crates/nes_rom/src/vrc2.rs:146-238 | the same from the three register writes at their addresses, in either order of the address lines, with the latch the written nibbles |
| Vrc4Irq.CycleModeClosedForm | crates/nes_rom/src/vrc2.rs:210-238 | after k scanlines there have been floor(341k/3) steps with 341k mod 3 left over, and the interrupt has fired iff they reach 256 - latch |
| Vrc4Irq.ScanlineModeClosedForm | crates/nes_rom/src/vrc2.rs:210-238 | in scanline mode k scanlines make k steps |
| Fme7Irq.Fme7.IrqScanline | crates/nes_rom/src/fme7.rs:191-202 | one scanline of the wrapping down-counter |
| Fme7Irq.Fme7.WriteRegister | crates/nes_rom/src/fme7.rs:122-156 | command and parameter writes: the control byte, which also acknowledges, and both counter bytes |
| Fme7Irq.LatchesWhenExhausted | crates/nes_rom/src/fme7.rs:188-207 | from start value c the interrupt is latched after n scanlines iff 114n > c |
| Fme7Irq.ProgrammedThenScanlines | crates/nes_rom/src/fme7.rs:122-207 | from any state, six register writes and n scanlines hold the line iff both enable bits are written and 114n exceeds the written counter |
| Mmc5Irq.Mmc5.IrqScanline | crates/nes_rom/src/mmc5.rs:275-284 | one scanline of the byte comparison |
| Mmc5Irq.StatusIsHistory | crates/nes_rom/src/mmc5.rs:151-167 | over any calls, status reads and register writes a status read reports bit 7 exactly when a call since the last read matched |
| Mmc5Irq.SettingsAreHistory | crates/nes_rom/src/mmc5.rs:151-154 | over any history the interrupt is enabled by the top bit of the last control value and compares with the last compare value |
| Mmc5Irq.StatusPerFrame | crates/nes_rom/src/mmc5.rs:157-284 | after a status read and 262 calls the next read reports a match exactly for nonzero compare values |
| Mmc5Irq.PendingIsMatched | crates/nes_rom/src/mmc5.rs:275-288 | between reads the flag is up exactly when some call matched |
| Mmc5Irq.MatchesPerFrame | crates/nes_rom/src/mmc5.rs:275-284 | in any 262 calls compare values from 6 match once, 1 to 5 twice and 0 never |
| CounterDelta.DeltaIsExact | tools/core_route.py:29-33 | an advance within the limit is measured exactly across the eight-bit wrap |
| PhaseMembership.CheckDisjoint | tools/core_traversal.py:114-118 | the pairwise test accepts exactly the unambiguous profiles |
| PhaseMembership.NoStateInTwoPhases | tools/core_traversal.py:114-118 | in a validated profile no state belongs to two phases |
| PhaseMembership.AmbiguousShareAState | tools/core_traversal.py:114-118 | two phases the validator calls ambiguous do share a state |
| Traversal.Traverser.UpdateFrame | tools/core_traversal.py:219-276 | one frame of the acceptor, with its errors in order |
| Traversal.Traverser.CheckCompletion | tools/core_traversal.py:292-332 | anchor, endpoint and completion |
| Traversal.CompletedRun | tools/core_traversal.py:219-332 | a completed run has entered every phase in order, one at a time, and seen exactly one reset |
| Traversal.WindowsShareNoFrame | tools/core_traversal.py:292-332 | the anchor and endpoint windows are three consecutive frames each and share none |
| TraversalHistory.AcceptedIff | tools/core_traversal.py:219-276 | exactly which sequences of frames are accepted without completing, on the frames alone: trap, diagnostic, phase order, counter steps and the one tolerated jump, stalls, and movement on entering a phase |
| TraversalHistory.CompletedIff | tools/core_traversal.py:219-332 | exactly which complete a run: the last frame alone ends a window far enough from the first confirmed one, after a counter jump |
| TraversalHistory.EnteredAfterMoving | tools/core_traversal.py:251-254 | in an accepted run the frame that enters a phase has each listed observation at least its minimum above the first staged frame |
| Traversal.HoldsPreviousByte | tools/core_traversal.py:238-256 | in the stage the tracker holds the counter byte of the frame before |
| Traversal.TicksAreTrue | tools/core_traversal.py:238-256 | the accumulated ticks are the true ones while the producer advances by at most the limit from each frame to the next outside the reset frame |
| UpperExit.Exit.UpdateFrame | tools/core_upper_exit.py:166-227 | one frame of the acceptor, with its errors in order |
| UpperExit.CompletedRun | tools/core_upper_exit.py:154-227 | a complete run has left every phase in order on a frame meeting its demands, with exactly one reset |
| UpperExit.LeftAfterSighting | tools/core_upper_exit.py:213-221 | a phase that demands a sighting is left only after one, on a frame of that phase |
| UpperExit.FinalSamples | tools/core_upper_exit.py:213-226 | the last phase is left only on a stretch of qualifying frames with the required number of ticking samples |
| UpperExitHistory.ReachesIff | tools/core_upper_exit.py:154-227 | exactly which sequences of frames are accepted and how far they get, on the frames alone: each phase is left on the first frame that may leave it |
| UpperExit.HoldsPreviousByte | tools/core_upper_exit.py:166-197 | after the prefix the runner holds the counter byte of the frame before |
| UpperExit.TicksAreTrue | tools/core_upper_exit.py:166-197 | the accumulated ticks are the true ones while the producer advances by at most the limit from each frame to the next outside the reset frame |

## Left out

- LiftRange.WalkShape: an instruction whose last byte is $FFFF is reported as an error of its own; the source wraps the program counter there. Images are at most 32 KiB.
- Lifter.LiftPreserves: covers the mode in which every operand stays a plain memory access; the hardware-tagged operations (PPU, APU, OAM DMA, controllers) have their meaning in the runtime, which is not part of this model. Unstable opcodes and LAX immediate are refused, JAM is a trap.
- RoutineSimulation.RoutineSimulates: calls, returns, interrupts and indirect jumps end the simulated run; the software continuation stack is not part of this model. The entry's name must not be another address's label and the entry must not be a data byte.
- RangeLifter.Lift: the lists of branch labels, external calls and unresolved pointers are sets, without their order; where an inline dispatch goes is decided by the runtime, so a dispatch call is an exit.
- RangeLifter.ValidateSites: the text of a rejection is one error with its address.
- Oracle.Cpu.Step: memory is flat with an optional read-only top; the order of bus accesses inside one instruction and cycle counts are not modelled. The address BRK pushes follows the table's size of one and nothing is claimed about it.
- ReturnDispatch.MarkedReturnPopsItsOwnPushes: speaks of blocks of operations that fall through and touch the stack only with PHA and PLA.
- Report text and source comments: they have no part in the meaning.
- FragmentCompiler.Compile: listing text and reports are not modelled; the caller's addresses must not overflow sixteen bits, where the source's arithmetic traps.
- FragmentFlags.EncodedStep: the three interpreters are merged; `jp c`, which none of them knows, has its usual meaning, and results hold whether or not `ld a,n` sets the zero flag. Their 64-step limit is dropped.
- FunctionWalk.Walk: where the source would loop for ever the model says so, and discovery then gives no result; sorted lists without duplicates are sets.
- Discovery.Analyze: function names, warnings and the report text are not modelled; the profile is plain data.
- EdgePlacer.PlaceByEdges: edges arrive in the order they are tried; parsing the measured profile and ordering edges by weight are not modelled.
- SectionPacking.PackTwice: emission is an abstract size of a routine in a section; labels and diagnostics carried along with a candidate are not modelled.
- DispatchIndex.PointerIndices: record placement in banks for the source-clock mode is not modelled; the runtime's scan is its documented first match.
- RemapMeaning.WhatTheCheckPassesOver: what lowering does with such operations later is not part of this model.
- Mmc3Board.Mmc3.WriteRegister: CHR banking and PRG RAM gates are decoded from the same state and only add single-step facts.
- Mmc1Board.OffsetsStayInside: CHR banking and board construction checks are left out for the same reason, as are the PRG and CHR decoders of VRC4, FME-7 and MMC5, and the AxROM, CNROM and MMC2/MMC4 boards.
- Traversal.Traverser.UpdateFrame: the boot route is an input; event records and button choices are not modelled.
- UpperExit.Exit.UpdateFrame: the frozen prefix is an input; event records and button choices are not modelled.
- The real back end, the runtime, file handling, argument parsing, palettes, CHR packing and the emulator bindings: no state of the kind proved here.
