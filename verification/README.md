# RISC-V instruction generator: models and proofs

riscv-dv writes random RISC-V assembly programs and compares the traces of two simulators that run them.
Its worth rests on claims about whole programs and whole runs: a self-checking CSR program must not fail on a
correct hart, a random program must end, a trap must be invisible to the program it interrupts, and a comparison
of two traces must mean what its verdict says. This project models the code those claims rest on and proves
them, or, where the code falls short, proves exactly when they hold.

Check everything with `dafny verify dfyconfig.toml`.

## Layout

| modules | what they model |
|---|---|
| `Hex`, `Bits`, `Words` | hexadecimal digit strings; bit strings (first bit most significant), powers of two and bitwise or; XLEN-bit register words |
| `CsrMap`, `CsrTest` | `scripts/gen_csr_test.py`: field objects that overwrite a CSR value in place, and the program writer |
| `Zicsr`, `CsrSelfCheck`, `CsrVerdict` | section 9.1 of the RISC-V Unprivileged ISA 20191213 bit by bit, and the verdict of every written program on it |
| `InstrStream`, `MixOrder`, `StreamAssembly` | lists of instructions, insertion of atomic streams, mixing |
| `BranchTargets`, `ForwardBranches` | label numbering and branch targets |
| `ProgramFlow`, `JumpChain`, `ProgramTerminates` | local-label control flow, the shuffled jump stream, termination of assembled programs |
| `LoopInstr`, `LoopRuns`, `LoopMix` | the counter-loop constraint, how loops run, and the loop as it is built and mixed |
| `CallStack` | the two call-tree generators |
| `TrapCode`, `TrapMachine`, `TrapTransparency`, `TrapRuns` | the trap code writers, a machine that runs them, and their effect over any number of traps |
| `TraceCompare`, `TraceLockstep` | the in-order trace comparison |
| `SpikeLog`, `RenodeLog` | the two log readers |
| `PrivilegedReg`, `Immediate`, `PseudoInstr`, `BitPermutation` | register field packing, immediate extension, pseudo-instruction lowering |

Random draws are nondeterministic choices within the stated range, and solver calls are any assignment that meets
the constraint. Python code that updates objects in place is a class or a method over an array here, with the new
state tied to a function of the old one; the lemmas are about those functions.

## Where the code and its comments, or its purpose, part

- A legaliser is applied to the model even where the instruction does not write the CSR (set or clear of a zero
  immediate, the closing read). A generated program passes on a conforming hart if and only if such predicted writes
  change nothing before a later check and no address is read-only (`SelfCheckVerdict`). Stable legalisers suffice
  (`StableTestsPass`); on harts wider than 36 bits the third immediate is always zero, so a legaliser that never
  settles always fails (`NeverSettlingFails`).
- A mix with `contained` is meant to put the list between the first and last new instruction
  (`pygen/pygen_src/riscv_instr_stream.py:115-118`). The last new instruction ends up last only when it is the only one
  and the list is empty; otherwise it is always the last but one, or stands first (`ContainedMixLastNew`). Last of all
  is the last old instruction (`ContainedMixEnds`), or, when the last middle position was drawn at the end of the list
  and the order is lost (`ContainedMixKeepsOrder`), the new one before (`ContainedMixDisorder`).
- `insert_instr` does not look at the last instruction, and steps off the list when it starts there and finds it atomic
  (`InstrStream.Stream.InsertInstr`).
- `setup_allowed_instr` extends the shared list of basic instructions in place
  (`pygen/pygen_src/riscv_instr_stream.py:167-170`), so after its first use without `no_branch` a stream that asks for
  no branches may still hold some. Programs end all the same: `AssembledProgramTerminates` allows branches without a
  target anywhere in an atomic stream and as the last instruction of a jump stream.
- The trace comparison stops when a compared change is the last entry of trace 2, so a shorter trace 2 can pass
  (`PassedIff`, `CutOffTracePasses`).
- `build_loop_instr_stream` appends `self.loop_instr[i]`, an entry of the list itself, and so sets the first loop's
  counter again before its branch (`pygen/pygen_src/riscv_loop_instr.py:253`). Line 237 then spreads the list with a
  containing mix, which may exchange its last two instructions. A branch that is not taken on the initial value (beq,
  c.beqz, bltu from a negative start) always lets the loop end. Otherwise the loop the constraint is meant for ends if and
  only if the mix keeps the order (`MixedIntendedVerdict`), and the loop that is built if and only if the mix loses it
  (`MixedBuiltVerdict`). `IntendedLoopCanHang` and `BuiltLoopCanHang` are loops the constraint admits that never end.
- Nothing makes the counter and limit registers differ (lines 60-61). `SharedRegisterVerdict` says what happens then, and
  `SharedRegisterCanHang` is such a loop.
- Where the scratch register is not implemented, the push opens its frame on the program's own stack with the highest slot
  at sp itself (`pygen/pygen_src/riscv_instr_pkg.py:2000-2004`): a trap overwrites the word sp points at
  (`NoScratchOverwritesStack`).
- A register that one Renode dump leaves out is not compared at the next (`scripts/renode_log_to_trace_csv.py:94-95`).
  `GapReplayVerdict` says exactly when replay is right again.
- In vectored mode interrupt 0 shares its entry with the exceptions, as the comment at
  `pygen/pygen_src/riscv_asm_program_gen.py:836-840` admits; `TrapVerdict` has it end the test.
- The counting of callees at `pygen/pygen_src/riscv_callstack_gen.py:129-131` never draws the last caller, and raises
  at level 0 for every call tree of more than one level (`CountTopLevel`).
- `pygen/experimental/riscv_callstack_gen.py:133` reads the variable names in `self.stack_level`, not the solution;
  the model uses the solved levels the comment at lines 128-131 speaks of.
- `csrr` is lowered to `csrrw` from `zero`, which clears the CSR: right only for a CSR that holds zero
  (`CsrReadPreservedIff`).
- Every label of a jump stream is a bare number, so a branch sent to a numbered label may find a jump stream's label of
  the same number first. `BranchResolves` covers both cases: the branch still goes forward, and the program still ends.

## Model

| member | source | states |
|---|---|---|
| CsrMap.FieldWrite | scripts/gen_csr_test.py:57-80 | One field's in-place write leaves exactly the value `WriteOne` gives: the masked new or legalised bits in the field, all other bits kept, nothing when read-only |
| CsrMap.CsrWrite | scripts/gen_csr_test.py:176-186 | The loop over the write fields leaves the value of writing them one after the other, each seeing what the earlier ones left |
| CsrMap.LoadCsr | scripts/gen_csr_test.py:111-142 | Reset value, write fields and read mask are those of the described non-WPRI fields, at the mirrored bit positions |
| CsrMap.GetCsrMap | scripts/gen_csr_test.py:94-143 | One loaded CSR for each description, in order |
| CsrTest.PredictCsrVal | scripts/gen_csr_test.py:208-241 | Returns the masked value before the write, and leaves the model at the value each of the six operations writes |
| CsrTest.GenAccess | scripts/gen_csr_test.py:331-369 | The four (or three) lines of one access carry the prediction of the model, and the model moves on by that access |
| CsrTest.GenFinalRead | scripts/gen_csr_test.py:374-390 | The closing check reads the CSR and steps the model as a `csrrs` of zero |
| CsrTest.GenOp | scripts/gen_csr_test.py:330-390 | Each operation yields accesses with the three test values, then the closing read where it belongs; AccessesMade says what those are |
| CsrTest.GenCsr | scripts/gen_csr_test.py:326-390 | A CSR's part of the file is the code of its list of accesses, whatever is drawn; AccessesMade spells the list out |
| CsrTest.GenCsrTest | scripts/gen_csr_test.py:316-392 | A file uses two different registers of x1..x15 and holds every CSR's accesses in order |
| CsrTest.TestValues | scripts/gen_csr_test.py:163-173 | For an XLEN of whole bytes, every byte of the first test value reads 0xa5 and of the second 0x5a; the third is 32 drawn bits and zeros after them |
| CsrTest.AccessesMade | scripts/gen_csr_test.py:329-390 | Three accesses for each operation in turn, with those values, then a plain read on the last CSR; no others (the last operation listed once) |
| Zicsr.ArchWriteUnique | scripts/gen_csr_test.py:51-80 | The bit-level architectural write determines the result, in any order of fields |
| CsrSelfCheck.WriteLoopIsArchWrite | scripts/gen_csr_test.py:176-186 | For disjoint fields the field-by-field loop equals the bit-level write: plain fields take new bits, legalised ones f(new, old), all else keeps |
| CsrSelfCheck.FieldOrderIrrelevant | scripts/gen_csr_test.py:185-186 | Disjoint fields may be written in any order with the same result |
| CsrSelfCheck.ReadMaskBit | scripts/gen_csr_test.py:125-130 | A bit is in the read mask if and only if a non-WPRI field covers it |
| CsrVerdict.ResetWindow | scripts/gen_csr_test.py:125-131 | Read from the reset value, every non-WPRI field holds its described reset value |
| CsrSelfCheck.ResetWithinMask | scripts/gen_csr_test.py:125-131 | The reset value has no bit outside the read mask |
| CsrSelfCheck.ArchWriteWithinMask | scripts/gen_csr_test.py:176-205 | No write sets a bit outside the read mask |
| CsrSelfCheck.ModelFollowsHart | scripts/gen_csr_test.py:208-241 | After any access the model equals the hart, except that it also writes back where the hart does not write |
| CsrSelfCheck.ItemRuns | scripts/gen_csr_test.py:364-369 | From any state, an access's code passes its check if and only if the CSR held the predicted value, and then changes that CSR only |
| CsrVerdict.ModelWithinMask | scripts/gen_csr_test.py:194-205 | Over any run of accesses the model stays within its read mask |
| CsrVerdict.ItemsVerdict | scripts/gen_csr_test.py:330-390 | A writable CSR's part passes if and only if no suppressed write changed the model before a later check |
| CsrVerdict.ReadOnlyTraps | scripts/gen_csr_test.py:354-356 | The first writing access to a read-only address traps |
| Zicsr.ReadOnlyAddresses | scripts/gen_csr_test.py:354-356 | The addresses a writing access traps at are those from 0xc00 up |
| CsrVerdict.ProgramVerdict | scripts/gen_csr_test.py:326-392 | The whole program passes if and only if every CSR's part does, whatever ran before it |
| CsrVerdict.SelfCheckVerdict | scripts/gen_csr_test.py:316-392 | The exact condition, in terms of the descriptions and draws, under which a generated program never branches to `csr_fail` or traps |
| CsrVerdict.SettledWriteBack | scripts/gen_csr_test.py:70-80 | Writing a value back changes nothing when each legaliser keeps the value it holds |
| CsrVerdict.WriteSettles | scripts/gen_csr_test.py:70-80 | With stable legalisers every write leaves values the legalisers keep |
| CsrVerdict.StableTestsPass | scripts/gen_csr_test.py:316-392 | Stable legalisers and writable addresses: every generated program passes, for every xlen, operation list, register choice and draw |
| CsrVerdict.NeverSettlingFails | scripts/gen_csr_test.py:167-173 | Above 36 bits, with a legaliser that moves every value, no generated program passes |
| CsrVerdict.FlippingTestFails | scripts/gen_csr_test.py:82-91 | It happens: on a 64-bit hart with one CSR whose legaliser flips the low bit, at reset, every generated program fails |
| InstrStream.Stream.InsertInstrStream | pygen/pygen_src/riscv_instr_stream.py:71-113 | Whatever the ten draws give, a random insertion is at a non-atomic element and fails exactly when there is none; the list is the old one with the stream put in, or with that element replaced and its label kept; at a given index it fails when out of range |
| InstrStream.ReplacedAt | pygen/pygen_src/riscv_instr_stream.py:97-106 | Replacing, place by place: the stream stands where the one instruction was, its first element carries that label, all else is as before |
| InstrStream.Stream.InsertInstr | pygen/pygen_src/riscv_instr_stream.py:53-66 | One instruction goes in at the index, or before the first non-atomic instruction from the draw on, the last one not counting, or at the end when there is none; raises if and only if an atomic last element was drawn |
| InstrStream.Stream.DropTrailingBranches | pygen/pygen_src/riscv_instr_stream.py:208-213 | Only trailing branches are dropped, and none is left last |
| InstrStream.Stream.MixInstrStream | pygen/pygen_src/riscv_instr_stream.py:119-135 | The list after a mix, for any draw; every insertion in bounds; raises exactly when asked to contain the list in nothing |
| MixOrder.NewAtFinalIndex | pygen/pygen_src/riscv_instr_stream.py:134-135 | Each new instruction is where later insertions have moved it |
| MixOrder.SortedNewAt | pygen/pygen_src/riscv_instr_stream.py:119-135 | With sorted positions new instruction i is at position plus i |
| MixOrder.SortedOldAt | pygen/pygen_src/riscv_instr_stream.py:119-135 | With sorted positions each old instruction moves by the number of positions at or before it |
| MixOrder.FreeMixKeepsOrder | pygen/pygen_src/riscv_instr_stream.py:126-135 | A plain mix always keeps the new instructions in order |
| MixOrder.ContainedMixKeepsOrder | pygen/pygen_src/riscv_instr_stream.py:130-135 | A containing mix keeps their order if and only if the position before the last is below the list's length |
| MixOrder.ContainedMixOrder | pygen/pygen_src/riscv_instr_stream.py:126-135 | For every draw a containing mix keeps the order of all new instructions but the last, which comes after all but at most the one before it |
| MixOrder.ElsewhereOld | pygen/pygen_src/riscv_instr_stream.py:134-135 | Every place of a mixed list is a new instruction's or holds an old one |
| MixOrder.ContainedMixLastNew | pygen/pygen_src/riscv_instr_stream.py:115-135 | For every draw and list, the last new instruction is last only when alone and with nothing to contain; with two or more it is always last but one |
| MixOrder.ContainedMixEnds | pygen/pygen_src/riscv_instr_stream.py:115-135 | In order, such a mix begins with the first new instruction and ends with the last old one |
| MixOrder.ContainedMixDisorder | pygen/pygen_src/riscv_instr_stream.py:130-135 | Where the order is lost, the new instruction before the last one stands last |
| StreamAssembly.NeverInside | pygen/pygen_src/riscv_instr_stream.py:78-93 | No insertion point is strictly inside an earlier atomic stream |
| StreamAssembly.StreamContiguous | pygen/pygen_src/riscv_instr_stream.py:71-113 | After any run of insertions every inserted stream is an unbroken sublist |
| StreamAssembly.StreamsApart | pygen/pygen_src/riscv_instr_stream.py:71-113 | Different streams never overlap |
| StreamAssembly.BaseKept | pygen/pygen_src/riscv_instr_stream.py:108-113 | Every base instruction is still in the list |
| StreamAssembly.BaseOrderKept | pygen/pygen_src/riscv_instr_stream.py:108-113 | Base instructions keep their relative order through any run of insertions |
| StreamAssembly.LastKept | pygen/pygen_src/riscv_instr_stream.py:78-113 | The last instruction of the base list stays last, whatever is drawn |
| StreamAssembly.Covered | pygen/pygen_src/riscv_instr_stream.py:108-113 | Nothing else is in the list |
| BranchTargets.Sequence.InsertDirected | pygen/pygen_src/riscv_instr_sequence.py:137-139 | Mixing in the directed streams is a run of such insertions; it succeeds if and only if, before each, the list is empty or holds something that is not atomic |
| BranchTargets.Sequence.NumberLabels | pygen/pygen_src/riscv_instr_sequence.py:142-166 | Labelled non-atomic instructions are numbered in order and every instruction gets the number due at it |
| BranchTargets.Sequence.AssignBranches | pygen/pygen_src/riscv_instr_sequence.py:167-200 | Each unassigned branch gets the next drawn distance, the list of 30 being shuffled whenever it is used up, and is sent to a label; a numeric label no branch so far uses is dropped |
| BranchTargets.Sequence.PostProcessInstr | pygen/pygen_src/riscv_instr_sequence.py:131-201 | All of it together, for any draws, and exactly when it succeeds |
| ForwardBranches.TargetIsForward | pygen/pygen_src/riscv_instr_sequence.py:176-183 | The label assigned is at a later position if and only if there is a labelled instruction later on |
| ForwardBranches.CountIsNumber | pygen/pygen_src/riscv_instr_sequence.py:142-166 | The number due at an instruction is how many labelled non-atomic instructions stand before it |
| ForwardBranches.OnlyBranchesAssigned | pygen/pygen_src/riscv_instr_sequence.py:171-199 | Only unassigned legal branches get a target, only labelled non-atomic instructions are renamed, no label is gained, and nothing else changes but the index |
| ForwardBranches.DrawnLabel | pygen/pygen_src/riscv_instr_sequence.py:176-191 | The assigned label stands as many labelled instructions on as was drawn for the branch, or is the last label where fewer follow |
| ForwardBranches.LabelsKeptIffUsed | pygen/pygen_src/riscv_instr_sequence.py:193-199 | Though labels are dropped in one pass, one survives if and only if some branch of the whole program targets it |
| ForwardBranches.BranchResolves | pygen/pygen_src/riscv_instr_sequence.py:171-200 | At the end every assigned branch resolves to an existing label strictly after it, and to the very label assigned when no other label is a bare number |
| ForwardBranches.BranchAtDrawnDistance | pygen/pygen_src/riscv_instr_sequence.py:176-200 | At the end the branch resolves to the instruction at that distance, when no other label is a bare number |
| ForwardBranches.ChainKept | pygen/pygen_src/riscv_instr_sequence.py:137-200 | A jump stream comes through insertion, numbering and label removal whole |
| JumpChain.JalStream.PostRandomize | pygen/pygen_src/riscv_directed_instr_lib.py:107-155 | The stream built is a chain for some permutation: n labelled jumps, each its own instruction, between a start and any end instruction, all atomic |
| JumpChain.JalStream.ChooseTargets | pygen/pygen_src/riscv_directed_instr_lib.py:142-149 | Each jump is sent to the next in the order, forward or backward as it lies, the last to the end label |
| JumpChain.ChainNext | pygen/pygen_src/riscv_directed_instr_lib.py:122-149 | Wherever the stream stands, Nf and Nb find the next jump of the order inside it |
| JumpChain.ChainRuns | pygen/pygen_src/riscv_directed_instr_lib.py:107-155 | Running the stream follows the whole order and comes to `jump_end` |
| JumpChain.PermutationCovers | pygen/pygen_src/riscv_directed_instr_lib.py:112-114 | A shuffle of 0..n-1 contains every jump |
| JumpChain.EachJumpOnce | pygen/pygen_src/riscv_directed_instr_lib.py:107-155 | Each jump is run at exactly one step |
| ProgramFlow.RankedFinishes | pygen/pygen_src/riscv_instr_sequence.py:127-129 | A program whose steps all raise a rank, but for loop branches taken, ends within as many steps as it has instructions, and as many again for each of those |
| ProgramFlow.NoLoopTakes | pygen/pygen_src/riscv_instr_sequence.py:127-129 | Without loop branches nothing is added |
| ProgramTerminates.OffChainStep | pygen/pygen_src/riscv_instr_sequence.py:171-192 | Outside jump streams each step goes strictly forward, branches inside atomic streams included, unless it is a loop branch taken, whose label is found |
| ProgramTerminates.ChainEndStep | pygen/pygen_src/riscv_directed_instr_lib.py:129-131 | From the end of a jump stream, be it a branch, control goes forward and out of the stream |
| ProgramTerminates.RankRises | pygen/pygen_src/riscv_directed_instr_lib.py:107-155 | Counting jump streams by execution order, moving on past or into a stream raises the rank |
| ProgramTerminates.AssembledProgramTerminates | pygen/pygen_src/riscv_instr_sequence.py:127-201 | Base program, atomic streams of random instructions and counter loops, and jump streams, any placement, shuffle, draw and branch outcomes: the program ends, in no more steps than it has instructions, and as many again for each time a loop branch is taken |
| LoopInstr.TakenMatches | pygen/pygen_src/riscv_loop_instr.py:117-134 | Signed and unsigned compares of wrapped XLEN values agree with the stated compare of the small numbers |
| Words.WordMeaning | pygen/pygen_src/riscv_loop_instr.py:117-134 | What the unsigned and signed compares read from a register: the value modulo 2^XLEN, and the number in the range around zero that agrees with it |
| LoopInstr.LoopCMeaning | pygen/pygen_src/riscv_loop_instr.py:73-134 | Exactly which loops `loop_c` admits, with the equality branches meeting their limit after a whole number of steps |
| LoopInstr.NoOvershoot | pygen/pygen_src/riscv_loop_instr.py:111-134 | A taken branch leaves the counter where the constraint still holds |
| LoopInstr.PassesOfBne | pygen/pygen_src/riscv_loop_instr.py:111-116 | bne and c.bnez loops run (limit - init) / step times |
| LoopInstr.PassesOfBeq | pygen/pygen_src/riscv_loop_instr.py:111-116 | beq and c.beqz loops run once or twice |
| LoopRuns.MixedLoopExits | pygen/pygen_src/riscv_loop_instr.py:65-134 | With the update before the branch, every init, step, limit and branch type the constraint admits, among any instructions that leave the two registers alone, gives a loop that leaves its branch after exactly that many passes, on 32- and 64-bit harts |
| LoopRuns.StuckPasses | pygen/pygen_src/riscv_loop_instr.py:246-254 | With the counter untouched or set again before the branch, control gets past it if and only if it is not taken on the initial value |
| LoopMix.MixedIntendedVerdict | pygen/pygen_src/riscv_loop_instr.py:204-237 | For every draw of the mix and any companions, the intended loop ends if and only if the mix keeps the order or the branch is not taken on the initial value |
| LoopMix.MixedBuiltVerdict | pygen/pygen_src/riscv_loop_instr.py:235-254 | For every draw of the mix and any companions, the built loop ends if and only if the mix loses the order or the branch is not taken on the initial value |
| LoopMix.IntendedLoopCanHang | pygen/pygen_src/riscv_loop_instr.py:237-237 | A loop that `loop_c` admits and a draw for which it never ends as intended |
| LoopMix.IntendedLoopExits | pygen/pygen_src/riscv_loop_instr.py:204-234 | The loop by itself comes to its end |
| LoopMix.SharedRegisterVerdict | pygen/pygen_src/riscv_loop_instr.py:47-63 | With one register as counter and limit the loop ends if and only if the branch is bne, blt or bltu |
| LoopMix.SharedRegisterCanHang | pygen/pygen_src/riscv_loop_instr.py:47-63 | A loop that `loop_c` admits and that never ends with one shared register |
| LoopMix.LoopStream.BuildLoopInstrStream | pygen/pygen_src/riscv_loop_instr.py:246-255 | The list that is built, entry by entry (LoopBuilt) |
| LoopMix.LoopBuilt | pygen/pygen_src/riscv_loop_instr.py:246-255 | Loop i, wherever it stands: its two initialisations, target and update, then the list's own entry i, then its branch; six entries a loop and no others |
| LoopMix.FirstLoopBuilt | pygen/pygen_src/riscv_loop_instr.py:246-255 | It begins with a loop that sets its counter again before the branch, and for one loop is nothing else |
| LoopMix.BuiltLoopVerdict | pygen/pygen_src/riscv_loop_instr.py:245-255 | Left side by side, control gets past that loop if and only if the branch is beq or c.beqz, or bltu from a negative start |
| LoopMix.BuiltLoopCanHang | pygen/pygen_src/riscv_loop_instr.py:245-255 | A loop that `loop_c` admits and a draw for which it never ends as built |
| CallStack.LevelInhabited | pygen/experimental/riscv_callstack_gen.py:99-111 | No level up to the last is empty |
| CallStack.ProgramsAt | pygen/experimental/riscv_callstack_gen.py:146-150 | The lists hold exactly the programs of the level, ascending |
| CallStack.DrawPool | pygen/experimental/riscv_callstack_gen.py:152-165 | However it is filled and shuffled, the pool holds every program of the next level and no other |
| CallStack.CallstackGen.Distribute | pygen/experimental/riscv_callstack_gen.py:166-185 | Each caller gets the next of the pool, as many as counted for it; nothing else changes |
| CallStack.CallsAreShares | pygen/experimental/riscv_callstack_gen.py:166-185 | The call lists of a level together are as long as the pool |
| CallStack.CallstackGen.PostRandomize | pygen/experimental/riscv_callstack_gen.py:132-185 | At every level, programs call only the next level, all of the next level is called, in as many calls as it has programs or one more; every program carries its own number and level |
| CallStack.CallsAreBounded | pygen/experimental/riscv_callstack_gen.py:128-139 | Call chains are no longer than the last level and never meet a program twice |
| CallStack.EveryProgramReached | pygen/experimental/riscv_callstack_gen.py:169-170 | Every program is reached from program 0 by as many calls as its level |
| CallStack.CountCallees | pygen/pygen_src/riscv_callstack_gen.py:123-131 | The counts add up to the pool, the last caller gets none, and it raises if and only if there is a callee and at most one caller |
| CallStack.CountTopLevel | pygen/pygen_src/riscv_callstack_gen.py:99-131 | At level 0 it raises if and only if the tree has more than one level |
| TrapCode.PushGprToKernelStack | pygen/pygen_src/riscv_instr_pkg.py:1972-2004 | Appends exactly the push code |
| TrapCode.PopGprFromKernelStack | pygen/pygen_src/riscv_instr_pkg.py:2007-2019 | Appends exactly the pop code |
| TrapCode.GenInterruptVectorTable | pygen/pygen_src/riscv_asm_program_gen.py:834-867 | A jump to the exception handler, then one to each interrupt's vector, and the section behind each vector |
| TrapCode.GenTrapHandlerSection | pygen/pygen_src/riscv_asm_program_gen.py:767-831 | The code at the vector and the exception handler in both vector modes |
| TrapCode.GenIllegalInstrHandler | pygen/pygen_src/riscv_asm_program_gen.py:903-914 | Skip the instruction, pop, return |
| TrapTransparency.SlotsDistinct | pygen/pygen_src/riscv_instr_pkg.py:2000-2004 | The 31 slots of a frame never collide, even where addresses wrap |
| TrapTransparency.SlotAddress | pygen/pygen_src/riscv_instr_pkg.py:2000-2004 | Register i is saved 4 * (31 - i) bytes below the top of the frame on a 32-bit hart, 8 * (31 - i) on a 64-bit one |
| TrapTransparency.PushRun | pygen/pygen_src/riscv_instr_pkg.py:1972-2004 | After the push everything of the program is in the frame or untouched, for every legal sp and tp |
| TrapTransparency.PopRun | pygen/pygen_src/riscv_instr_pkg.py:2007-2019 | The pop restores all registers though it overwrites its own base register and tp on the way |
| TrapRuns.CheckRun | pygen/pygen_src/riscv_asm_program_gen.py:782-795 | The interrupt check branches if and only if the cause's top bit is set |
| TrapRuns.CheckBegins | pygen/pygen_src/riscv_asm_program_gen.py:782-795 | The check reads mstatus first exactly where it is to be checked |
| TrapRuns.VectorRun | pygen/pygen_src/riscv_asm_program_gen.py:848-867 | Behind a table entry interrupts go on to the interrupt handler with the frame intact, anything else ends the test |
| TrapRuns.TableRun | pygen/pygen_src/riscv_asm_program_gen.py:841-845 | Entered at cause i, the table jumps to vector i, at 0 to the exception handler |
| TrapRuns.DispatchRun | pygen/pygen_src/riscv_asm_program_gen.py:813-830 | Causes 11 and 2 go to the ecall and illegal-instruction handlers, all else ends the test with mtval in the second scratch register, the frame intact |
| TrapRuns.IllegalRun | pygen/pygen_src/riscv_asm_program_gen.py:903-914 | From inside any trap the handler returns to the next instruction with every register restored |
| TrapRuns.TrapVerdict | pygen/pygen_src/riscv_asm_program_gen.py:767-914 | Where every trap goes, in direct and vectored mode: interrupts to the interrupt handler, exceptions to the handler of their cause, the program's state saved; cause 11 goes to the ecall handler, and cause 2 comes back to mepc + 4 with x1..x31, the other CSRs and the memory outside the frame as they were |
| TrapRuns.NoScratchOverwritesStack | pygen/pygen_src/riscv_instr_pkg.py:1974-2004 | Without the scratch register the handler for an illegal instruction still restores the registers, but leaves x31 (as saved) in the word sp points at |
| TrapRuns.TimerInterruptGoesToHandler | pygen/pygen_src/riscv_asm_program_gen.py:843-864 | In vectored mode a machine timer interrupt goes through vector 7 to the interrupt handler |
| TrapRuns.MemoryAccessBehaved | pygen/pygen_src/riscv_instr_pkg.py:1975-1976 | Loads and stores clear of the frame where they are executed are among the instructions that TrapsInvisible allows |
| TrapRuns.ScratchAccessVerdict | pygen/pygen_src/riscv_instr_pkg.py:1975-1979 | A swap with mscratch is one of them if and only if it drops what it reads |
| TrapRuns.StepAgrees | pygen/pygen_src/riscv_instr_pkg.py:1971-2019 | With the scratch register implemented, one event on the hart matches the same event on a hart that just skips illegal instructions |
| TrapRuns.TrapsInvisible | pygen/pygen_src/riscv_asm_program_gen.py:898-914 | With the scratch register implemented: after any number of traps, anywhere in a program that, where it runs, keeps tp and is not influenced by the frame or by mstatus, mscratch, mepc, mcause and mtval, registers, pc and memory outside the frame are those of the run without traps, and tp holds the kernel stack pointer |
| TraceCompare.RegFile.CheckUpdateGpr | scripts/instr_trace_compare.py:234-251 | The map and flag after an entry; stops at a blank update, exits on a malformed one |
| TraceLockstep.EntryMeaning | scripts/instr_trace_compare.py:234-251 | Taken to its end, an entry is flagged if and only if some update alters what its register was last set to, absent counting as zero; a blank element ends it unflagged, and anything else that cannot be taken exits |
| TraceCompare.Advance | scripts/instr_trace_compare.py:73-80 | Moves trace 2 to just past its next change, or to its end |
| TraceCompare.SameUpdates | scripts/instr_trace_compare.py:88-117 | Length and element comparison is equality of the update lists |
| TraceCompare.ComparePair | scripts/instr_trace_compare.py:73-120 | Counts one more pair of changes, or ends with the right verdict, an exit included |
| TraceCompare.CheckLeftOver | scripts/instr_trace_compare.py:121-132 | Counts what trace 2 has left from its first unmatched change, or exits where that cannot be read |
| TraceCompare.CompareTraces | scripts/instr_trace_compare.py:58-132 | The nested loops exit if and only if an entry that has to be read cannot be, and otherwise give the verdict and counts of a direct definition over the two lists of changes |
| TraceLockstep.PassedIff | scripts/instr_trace_compare.py:118-120 | PASSED if and only if the changes of trace 2 are a prefix of those of trace 1 and are all of them or trace 2 ends on a change; matched is then their number |
| TraceLockstep.ReportCounts | scripts/instr_trace_compare.py:58-132 | Matched are the places where the changes agree; mismatched are the places where they do not, one if trace 2 runs out on an entry that changes nothing, and all of trace 2 from its first unmatched change |
| TraceLockstep.CutOffTracePasses | scripts/instr_trace_compare.py:118-120 | Two traces that differ and pass |
| TraceLockstep.CheckSame | scripts/instr_trace_compare.py:234-251 | With one spelling per value, maps that hold the same values give the same flag and again the same values |
| TraceLockstep.RegsFollowChanges | scripts/instr_trace_compare.py:65-80 | With one spelling per value, entries that are not flagged leave no trace: the register values follow from the changes alone |
| TraceLockstep.Lockstep | scripts/instr_trace_compare.py:65-120 | With one spelling per value, while all compared changes agree, both maps hold the same value for every register, absent being zero |
| TraceLockstep.StutterTrace1 | scripts/instr_trace_compare.py:69-72 | With one spelling per value, an entry that only rewrites current values, anywhere in trace 1, changes neither verdict nor counts |
| TraceLockstep.StutterTrace2 | scripts/instr_trace_compare.py:73-80 | With one spelling per value, such an entry anywhere but at the end of trace 2 changes neither pass or fail nor the matches |
| TraceLockstep.StutterAtEnd | scripts/instr_trace_compare.py:118-120 | With one spelling per value and such an entry at the end of trace 2, the verdict is PASSED if and only if the changes are equal |
| SpikeLog.ReadSpikeTrace | scripts/spike_log_to_trace_csv.py:127-189 | The state machine yields exactly the reports of a direct definition on the part of the log between trampoline and first ecall; ReportContents and BodyCut say what those are |
| SpikeLog.TakeLine | scripts/spike_log_to_trace_csv.py:140-185 | One line keeps the reader's state in step with that definition |
| SpikeLog.OneYieldPerCore | scripts/spike_log_to_trace_csv.py:155-165 | One report per instruction line, in the order of the log |
| SpikeLog.ReportContents | scripts/spike_log_to_trace_csv.py:174-185 | A report holds the register and value of each commit line up to the next instruction or trap, in order and no others, the CSR and value of those that name one, and the mode of the last, or none |
| SpikeLog.BodyCut | scripts/spike_log_to_trace_csv.py:133-149 | Read are the lines after the first that ends the trampoline, up to and including the first ecall after it |
| SpikeLog.BodyUncut | scripts/spike_log_to_trace_csv.py:133-189 | Without an ecall, all the lines after it |
| SpikeLog.IllegalIffTrapInBlock | scripts/spike_log_to_trace_csv.py:167-172 | An instruction is flagged if and only if a trap line comes before the next instruction |
| RenodeLog.TakeDump | scripts/renode_log_to_trace_csv.py:89-120 | One dump adds an entry at the previous PC if it changes a register, and none otherwise |
| RenodeLog.DiffState | scripts/renode_log_to_trace_csv.py:94-111 | The updates of a dump are the listed registers whose text changed, by number |
| RenodeLog.ProcessRenodeSimLog | scripts/renode_log_to_trace_csv.py:66-122 | The loop gives the trace of a direct definition over the dumps before ecall; EntryForDump says what that is |
| RenodeLog.EntryForDump | scripts/renode_log_to_trace_csv.py:66-120 | One entry for each dump that shows a listed register with a new text, in order and no others; it carries the PC of the dump before, or 80000000 for the first dump, and each such register with its value, ascending |
| RenodeLog.TraceIffReadable | scripts/renode_log_to_trace_csv.py:94-120 | There is a trace if and only if every dump has a PC and its new texts are numbers |
| RenodeLog.DumpsInOrder | scripts/renode_log_to_trace_csv.py:73-91 | The dumps are those of the dump lines, in order and no others |
| RenodeLog.ToDumpLast | scripts/renode_log_to_trace_csv.py:90-91 | A dump holds the names of its line, each with its last value |
| Hex.Positional | scripts/renode_log_to_trace_csv.py:110-110 | Digits in front of n others are worth 16^n times as much |
| Hex.DigitValues | scripts/renode_log_to_trace_csv.py:110-110 | The sixteen digits, in either case, stand for their places, and nothing else is a digit |
| RenodeLog.UpdatesReplay | scripts/renode_log_to_trace_csv.py:94-111 | Applying an entry gives each changed register its new value and no other |
| RenodeLog.ReplayReconstructs | scripts/renode_log_to_trace_csv.py:66-122 | Replaying the entries from zero gives the value each dump shows, for every register all dumps list |
| RenodeLog.GapReplayVerdict | scripts/renode_log_to_trace_csv.py:94-96 | After a dump that leaves a register out, replay is right again if and only if its text has changed since the next dump, or that dump shows the value replayed before it |
| RenodeLog.OmittedRegisterLost | scripts/renode_log_to_trace_csv.py:94-96 | A register left out of one dump can lose its next change |
| PrivilegedReg.Reg.GetVal | pygen/pygen_src/riscv_reg.py:72-84 | The shift-and-or loop packs the fields low to high, and exits when the widths do not fill XLEN |
| PrivilegedReg.Reg.SetField | pygen/pygen_src/riscv_reg.py:94-103 | Sets the last field of that name only, its reset value too when hard-wired; exits when there is none |
| PrivilegedReg.Reg.AddField | pygen/pygen_src/riscv_reg.py:86-92 | Adds a field at the top |
| Bits.OrOfShifted | pygen/pygen_src/riscv_reg.py:82-83 | Or-ing a fitting value under a shifted one is addition, so bits never meet |
| PrivilegedReg.FieldRecovered | pygen/pygen_src/riscv_reg.py:82-83 | Every fitting field is read back from its own bit window |
| PrivilegedReg.PackedInjective | pygen/pygen_src/riscv_reg.py:82-83 | Different field values give different registers |
| PrivilegedReg.PackedFits | pygen/pygen_src/riscv_reg.py:72-84 | The packed value fits the total width |
| PrivilegedReg.SetFieldIsLocal | pygen/pygen_src/riscv_reg.py:94-103 | Setting one field changes its window only |
| PrivilegedReg.Reg.InitMstatus | pygen/pygen_src/riscv_privil_reg.py:32-60 | Adds the MSTATUS fields in order, for both widths |
| PrivilegedReg.Reg.InitMie | pygen/pygen_src/riscv_privil_reg.py:62-76 | Adds the MIE fields in order |
| PrivilegedReg.MstatusLayout | pygen/pygen_src/riscv_privil_reg.py:32-60 | Every field, looked up by its name, lies at its position in section 3.1.6 of the RISC-V Privileged Architecture with the access and zero reset value it is to have, and the fields fill XLEN |
| PrivilegedReg.MieLayout | pygen/pygen_src/riscv_privil_reg.py:62-76 | Every field, looked up by its name, lies at its position in section 3.1.9 with the access and zero reset value it is to have, and the fields fill XLEN |
| Immediate.Instr.SetImmLen | pygen/pygen_src/isa/riscv_instr.py:326-334 | 20 bits for U and J, 5 or 12 for I, S and B, unchanged for R, and the mask shifted within 32 bits |
| Immediate.Instr.ExtendImm | pygen/pygen_src/isa/riscv_instr.py:336-345 | The shifts and the or, on 32-bit words |
| Immediate.MaskFills | pygen/pygen_src/isa/riscv_instr.py:334-334 | A fresh instruction's mask is exactly the bits above the immediate |
| Immediate.LowBits | pygen/pygen_src/isa/riscv_instr.py:339-341 | The shifts keep the low bits, and the sign looked at is their top one |
| Immediate.ExtendedMeaning | pygen/pygen_src/isa/riscv_instr.py:336-345 | For every immediate and length 1..31 the printed number is the signed or unsigned value of the low bits |
| Immediate.FormatMeaning | pygen/pygen_src/isa/riscv_instr.py:326-345 | Format by format what the printed number is: the low 20, 12 or 5 bits, signed in its range unless the format or kind is unsigned |
| Immediate.RegisterFormatCleared | pygen/pygen_src/isa/riscv_instr.py:326-345 | An R-format immediate of a fresh instruction is cleared |
| Immediate.ExtendedTwice | pygen/pygen_src/isa/riscv_instr.py:336-345 | Extending again changes nothing |
| PseudoInstr.NopPreserved | scripts/lib.py:384-386 | nop moves on and changes nothing else |
| PseudoInstr.UnaryPreserved | scripts/lib.py:387-417 | mv, not, neg, negw, sext.w, seqz, snez, sltz and sgtz compute what they are for, on every state and both widths |
| PseudoInstr.SextMeaning | scripts/lib.py:396-402 | The word forms (negw, sext.w) give the result modulo 2^32, read as signed |
| PseudoInstr.ZeroBranchesPreserved | scripts/lib.py:418-427 | Branches against zero are taken exactly when they should be |
| PseudoInstr.SwappedBranchesPreserved | scripts/lib.py:428-443 | bgt, ble, bgtu and bleu are taken exactly when they should be |
| PseudoInstr.CsrWritesPreserved | scripts/lib.py:447-449 | csrw, csrs and csrc change that CSR as they should and nothing else, x0 included |
| PseudoInstr.CsrBits | scripts/lib.py:447-452 | Setting or clearing acts bit by bit on the value the CSR held |
| PseudoInstr.CsrImmediatesPreserved | scripts/lib.py:450-452 | csrwi, csrsi and csrci likewise |
| PseudoInstr.CsrReadPreservedIff | scripts/lib.py:444-446 | csrr is lowered to the right transition if and only if the CSR holds zero |
| PseudoInstr.DirectJumpsPreserved | scripts/lib.py:456-461 | j links nowhere, jal links ra unless it names a register |
| PseudoInstr.RegisterJumpsPreserved | scripts/lib.py:453-470 | jr and one-operand jalr go where the register says, linking nowhere and ra |
| PseudoInstr.OffsetJumpPreserved | scripts/lib.py:462-466 | jalr rd, imm(rs1) keeps its three operands |
| PseudoInstr.ReturnPreserved | scripts/lib.py:471-477 | ret is c.jr ra when compressed and jalr zero, ra, 0 otherwise, and goes to ra either way |
| PseudoInstr.ConvertTwice | scripts/lib.py:382-477 | Converting a converted instruction changes nothing |
| BitPermutation.ReversesGroups | scripts/lib.py:480-524 | Every rev name reverses the groups it says within the units it says, for every word and bit |
| BitPermutation.Interleaves | scripts/lib.py:583-642 | Every zip name interleaves the halves of the units it says |
| BitPermutation.ShuffleInverse | scripts/lib.py:583-642 | Each zip and its unzip undo one another |

## Left out

- CSR descriptions start from parsed fields: YAML loading and two CSRs of one name are not modelled. Legalisers are
  total functions, and a result that does not fit its field is cut to width where the original raises.
- One generated file is modelled, not several made from one copied map; `li` loads are single instructions.
- Instructions are values: two list entries that are the same Python object, and fields changed through one of them, are not modelled.
- Illegal and hint instructions are never injected while numbering labels (their percentages are 0): with a positive
  percentage the code reads an attribute `insert_illegal_instr` that instructions do not have.
- AssembledProgramTerminates: takes the number of times the loop branches are taken as given by the run; for one loop that
  number is what `MixedLoopExits` computes, but branches there do not carry register values. Nested loops, and branches
  among the instructions mixed into a loop, are not modelled.
- MixedLoopExits: uses the ADDI initialisation and update of the commented-out constraints and the branch operands
  they intend; the code draws those instructions at random.
- The experimental call-tree generator's solver giving no solution, lists left in the last level's programs when
  randomized twice, and the plain-integer pool filling of the other generator are not modelled.
- The virtual-address branch of the kernel stack push (MPRV with address translation) and the signature handshake are not
  modelled; `la` and `jalr` to `test_done` is one jump. Vectored interrupts numbered beyond the table go to no code of
  the generator and are not modelled. Interrupt handlers beyond the dispatch, and other privilege modes,
  are not modelled.
- Memory in the trap model is a function from word addresses to words: accesses that overlap a word in part are not modelled.
- Values in traces and dumps are plain hexadecimal digits: a 0x prefix, sign, underscore or blank is not read.
- Out-of-order comparison, printing limits and file output of the comparator; a mode argument other than in-order.
- Regular expressions, register renaming and the post-processing in `process_spike_sim_log`: lines are given by what the
  patterns find in them. The whitespace and field splitting of the Renode reader likewise.
- `set_val` of a register, whose running value never advances.
- Compressed immediates, whose mask is not shifted, and binary encoding.
- PseudoInstr.ConvertTwice: jumps have at least one operand.
- The orc and zext names, which add only further constants to the same table.
- Operand text is parsed before `PseudoInstr`; branch offsets and jump targets are given as distances, and the program
  counter does not wrap at the top of the address space.
- `riscv_illegal_instr`, coverage, instruction tables, data pages and scripts that only move files.
