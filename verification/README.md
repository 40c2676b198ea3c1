# Verified model of framehop's unwinding core

framehop walks the stacks of a process that is being profiled. It finds each caller in one of two ways: a general,
slow one (evaluating call frame information, simulating instructions) and a fast one (executing a small unwind rule,
which a cache keeps per address and module generation). This project models both, and proves where they agree, that
walks make progress and end, and when the rules inferred from machine code lead to the caller the CPU returns to.

`dafny verify dfyconfig.toml` checks everything.

| files | what they model |
|---|---|
| `words.dfy`, `ptr_auth.dfy` | machine integers, the readable stack, frame addresses, pointer authentication masks |
| `aarch64_rule.dfy`, `x86_regs.dfy`, `x86_rule.dfy`, `x86_progress.dfy` | registers, the fifteen rules, their execution and their meaning in unbounded integers |
| `register_ordering.dfy` | the mixed-radix code for the order of popped registers |
| `dwarf.dfy`, `aarch64_dwarf.dfy`, `x86_dwarf.dfy`, `x86_pe.dfy` | compiling call frame information and Windows epilogs into rules, and the slow paths |
| `aarch64_code.dfy`, `aarch64_asm.dfy`, `aarch64_epilogue.dfy`, `aarch64_epilogue_proof.dfy`, `aarch64_prologue.dfy`, `aarch64_analysis.dfy`, `x86_code.dfy`, `x86_prologue.dfy`, `x86_epilogue.dfy`, `x86_analysis.dfy` | instruction analysis, against a small machine semantics |
| `rule_cache.dfy`, `modules.dfy`, `unwinder.dfy`, `cache_agreement.dfy`, `generation_wrap.dfy` | the rule cache, module lists and generations, and the system of unwinders that share a cache |
| `walk.dfy`, `x86_walk.dfy` | the frame iterator and whole walks |
| `cfi_index.dfy` | the search table for frame description entries |

Conventions. `read_stack` is a map from u64 addresses to values; an address outside the map is one it refuses. What the
source updates in place is a class or an array here, and each such method is proved against a function on values, about
which the lemmas speak. Arithmetic is on unbounded integers with every wrap-around and every overflow check written out,
as in a release build: `new_sp - 8` on x86_64 wraps, u16 and i32 counters of the instruction analysis wrap.

Where the code and its documentation differ, the model follows the code: `OffsetSpAndPopRegisters` ends by adding the 8
bytes of the return address (`src/x86_64/unwind_rule.rs:236`), which its doc comment at line 27 does not mention.

What is false as one might hope for, and exactly when it holds:

- Where the fast rule of a translated row finds a caller, the generic path agrees, if and only if the row is aligned
  (`AgreesWhereFoundExactlyIfAligned` in `Aarch64Dwarf` and `X86Dwarf`): the divisions by 8 and 16 lose bytes. The generic
  path finds callers that rules do not: rules insist on more, and `RuleFindsExactly` says on what. Conversely it does not
  reach above 2^63, where rules still find callers; `AgreesExactly` gives that bound. Windows epilogs and aarch64
  epilogues are a question of alignment, too (`X86Pe.AgreesExactlyIfAligned`,
  `Aarch64EpilogueProof.RightExactlyIfAligned`).
- The rule cache is transparent if and only if a rule stands in for every frame of its lookup address
  (`CacheAgreement.TransparentExactly`). For tables of unwind data this comes down to a condition on their entries
  (`Aarch64Walk.TableIsTransparentExactly`, `X86Walk.TableIsTransparentExactly`): a row without a rule that evaluates
  here and fails there, an epilog that has to be simulated, and an epilog whose rule is not that of the unwind codes, all
  break it. Data that looks at the kind of frame may break it, as null opcodes do (`Aarch64Walk.FirstFrameMatters`).
  `X86Walk.FailedEvaluationStays` shows one such row at work. All this is for runs of up to 65536 generations. One more is
  too many wherever the fallback rule is not what a module gives (`GenerationWrap.OneGenerationTooMany`), and runs of
  any length are all right only where rules do not depend on the modules (`GenerationWrap.AlwaysTransparentExactly`).
- Walks on x86_64 end if rows keep the return address right below the CFA or move sp; otherwise a walk may loop forever
  (`X86Walk.ReturnAddressElsewhereLoops`), because progress is compared with the previous frame only.
- The simulation of a Windows epilog of `add rsp` and pops is what the CPU does if and only if there is no `pop rsp`
  (`X86Pe.SimulationIsRightExactly`).
- The x86_64 epilogue analysis is right on every machine if and only if nothing pops rsp and no prefixed `pop rbp` comes
  after the last plain one (`X86Epilogue.RightExactly`). The prologue analysis is if and only if it takes nothing from the
  code before the function (`X86Prologue.RightExactly`); on aarch64, if and only if what it takes from there, and the
  division by 16, leave the offset as it should be (`Aarch64Prologue.SpIsRightExactly`).

## Model

| member | source | states |
|---|---|---|
| `Words.CheckedAddSigned` | src/add_signed.rs:33-44 | the wrapped-sum comparison is exact integer addition, and fails exactly when the sum leaves the u64 range |
| `PtrAuth.MaskFromMaximum` | src/aarch64/unwindregs.rs:57-60 | the mask deduced from a maximum address is 2^n - 1 for its n significant bits; there is one exactly if the maximum is not zero |
| `PtrAuth.StripRemovesHash` | src/aarch64/unwindregs.rs:57-65 | any hash in the bits above the maximum is removed, and every address up to the maximum comes back |
| `PtrAuth.StripKeepsExactlyShortAddresses` | src/aarch64/unwindregs.rs:57-65 | stripping leaves an address alone if and only if it fits the significant bits of the maximum |
| `PtrAuth.StripIsIdempotent` | src/aarch64/unwindregs.rs:63-65 | stripping twice is stripping once, for every mask and pointer |
| `PtrAuth.StripKeepsMaskedBits` | src/aarch64/unwindregs.rs:63-65 | stripping keeps a bit if and only if the mask has it, for every mask, pointer and bit |
| `Aarch64Rule.UnwindRegs.SetLr` | src/aarch64/unwindregs.rs:134-136 | the stored lr is the stripped value; nothing else changes |
| `Aarch64Rule.UnwindRegs.ExecRule` | src/aarch64/unwind_rule.rs:60-235 | the in-place `exec` yields the result and leaves the registers of the value function `Exec` |
| `Aarch64Rule.ExecFollowsMeaning` | src/aarch64/unwind_rule.rs:74-235 | for all eight rules: a caller is found if and only if the rule's unbounded formulas are in range, readable and pass the checks; then sp, fp and the stripped lr are those formulas; otherwise the registers are unchanged |
| `Aarch64Rule.ExecEndsExactly` | src/aarch64/unwind_rule.rs:74-227 | the stack ends if and only if the rule says so, a chain of frame pointers reaches null, or the stripped return address is null |
| `Aarch64Rule.ErrorsAreTrue` | src/aarch64/unwind_rule.rs:74-230 | every error names its cause: the unreadable address is one the rule needs, overflow is a formula out of range, no progress is no progress |
| `Aarch64Rule.ExecMakesProgress` | src/aarch64/unwind_rule.rs:224-235 | a caller found after the first frame has a strictly higher sp; the return address is not null, is what lr holds, and is a fixed point of stripping |
| `Aarch64Dwarf.UnwindRowInPlace` | src/aarch64/dwarf.rs:27-93 | the in-place `unwind_frame` agrees with its value function; registers change only if the generic path succeeds |
| `Aarch64Dwarf.GenericPathFollowsRow` | src/aarch64/dwarf.rs:53-92 | for every row, whatever its rules, with or without expressions, and for any base register: the generic path gives the CFA as sp and what the rules of section 6.4.1 of DWARF Version 5 say of fp and lr; what they say nothing of is kept in the first frame and an error after it, and each error has its cause |
| `Aarch64Dwarf.TranslatesExactly` | src/aarch64/dwarf.rs:110-195 | a row becomes a cacheable rule if and only if its offsets lie in stated byte ranges and its register rules are of the stated kinds, aligned or not |
| `Aarch64Dwarf.TranslationTruncates` | src/aarch64/dwarf.rs:117-190 | aligned or not, the rule of a translated row means the row with its offsets truncated to multiples of 16 and 8 |
| `Aarch64Dwarf.TranslationKeepsMeaning` | src/aarch64/dwarf.rs:117-190 | the rule of an aligned row has the row's own meaning, in unbounded integers |
| `Aarch64Dwarf.EvalRowExactly` | src/aarch64/dwarf.rs:53-92 | for a row whose meaning can be fetched: when the i64 arithmetic of the generic path reaches it, when it succeeds, and every register it then gives |
| `Aarch64Dwarf.GenericPathDelivers` | src/aarch64/dwarf.rs:53-92 | the generic path computes a row's meaning wherever that can be fetched and lies below 2^63, except that it refuses an undefined fp after the first frame |
| `Aarch64Dwarf.RuleAgreesWithGenericPath` | src/aarch64/dwarf.rs:53-195 | if the rule of an aligned row finds a caller and the row lies below 2^63, generic evaluation succeeds with the same registers and, once stripped, the same return address; the only exception is an undefined fp after the first frame |
| `Aarch64Dwarf.AgreesExactly` | src/aarch64/dwarf.rs:53-92 | the exact bound: an aligned row whose rule finds a caller agrees if and only if fp is not lost, base and CFA are below 2^63, and so is each slot, or the kept register happens to be the same in the first frame |
| `Aarch64Dwarf.AgreesWhereFoundExactlyIfAligned` | src/aarch64/dwarf.rs:53-195 | for every translated row: wherever the rule finds a caller, the row is below 2^63 and fp is not lost, the generic path agrees, if and only if the row is aligned |
| `Aarch64Dwarf.RuleFindsExactly` | src/aarch64/dwarf.rs:53-195 | where that is: for an aligned row below 2^63, with fp not lost, the rule finds a caller (and then the same) if and only if the generic path finds a non-null one, the return address is stored on the stack after the first frame, no slot is unreadable, and on fp-based rows fp and sp go up |
| `Aarch64Dwarf.UndefinedReturnAddressEndsStack` | src/aarch64/dwarf.rs:124-144 | after the first frame a translated row with undefined lr ends the stack; any other end comes from a fetched null |
| `Aarch64Dwarf.UnalignedRowDisagrees` | src/aarch64/dwarf.rs:117-190 | for every translated row that is not aligned, registers and a stack on which rule and generic path both find a caller, and not the same |
| `Aarch64Dwarf.PlainRowEvaluatesExactly` | src/aarch64/dwarf.rs:53-92 | a row without a CFA expression never evaluates if and only if its CFA is not a known register with an offset above -2^63; and it always fails somewhere |
| `Aarch64Dwarf.ExpressionRowEvaluatesExactly` | src/aarch64/dwarf.rs:53-92 | a row with a CFA expression never evaluates if and only if the expression never does; it never fails if and only if that never fails and only first frames are concerned |
| `Aarch64Epilogue.EpilogueDetector.StepOver` | src/aarch64/instruction_analysis/epilogue.rs:314-397 | the in-place step over one instruction: the kind of step and all three offsets |
| `Aarch64Epilogue.EpilogueDetector.Analyze` | src/aarch64/instruction_analysis/epilogue.rs:63-153 | the in-place loop of `analyze_slice` computes `AnalyzeSlice` for every slice and pc, tail call branches included |
| `Aarch64Asm.PairDecodes` | src/aarch64/instruction_analysis/epilogue.rs:330-375 | the decoder against an assembler: for pair loads and stores of any registers, indexing and seven-bit offset, it gets back the kind, both registers, the base and the offset in bytes, sign included |
| `Aarch64Asm.ImmediateDecodes` | src/aarch64/instruction_analysis/epilogue.rs:376-394 | the same for `add sp` and `sub sp` with any immediate, shifted or not |
| `Aarch64Asm.DecodedPairIsAssembled` | src/aarch64/instruction_analysis/epilogue.rs:330-375 | every word decoded as a pair load or store is what the assembler makes of its fields |
| `Aarch64Asm.DecodedImmediateIsAssembled` | src/aarch64/instruction_analysis/epilogue.rs:376-394 | every word decoded as a change of sp is what the assembler makes of its fields |
| `Aarch64Asm.WordsOfAssembled` | src/aarch64/instruction_analysis/prologue.rs:82-86 | reading the little-endian bytes of assembled words gives back the words, whatever fraction of a word follows |
| `Aarch64Asm.KnownWords` | src/aarch64/instruction_analysis/epilogue.rs:240-260 | the words known by heart are `ret`, `retab`, `pacibsp`, `autibsp` and the check before an authenticated tail call, as the assembler makes them |
| `Aarch64Asm.AuthTailCallExactly` | src/aarch64/instruction_analysis/epilogue.rs:170-236 | the rest of an authenticated tail call is, for all bytes, exactly the check and then `b`, or `movz x16` and `braa` |
| `Aarch64EpilogueProof.StepKindExactly` | src/aarch64/instruction_analysis/epilogue.rs:314-397 | what each step does with any word: it goes on over pair loads and `add sp` only, and stops at returns, branches, `autibsp` and all else as such |
| `Aarch64EpilogueProof.AnalysisFindsExactly` | src/aarch64/instruction_analysis/epilogue.rs:63-153 | the analysis finds an end if and only if the code from pc on is loads and `add sp` up to a return or what is taken for a tail call |
| `Aarch64EpilogueProof.BranchIsTailCallExactly` | src/aarch64/instruction_analysis/epilogue.rs:80-123 | a branch is taken for a tail call if and only if it follows an instruction that moves sp up, or ends an authenticated tail call |
| `Aarch64EpilogueProof.AdjustsExactly` | src/aarch64/instruction_analysis/epilogue.rs:155-168 | those instructions are pair loads with writeback and `add sp` |
| `Aarch64EpilogueProof.AuthTailCallIsFound` | src/aarch64/instruction_analysis/epilogue.rs:80-123 | an authenticated tail call is found from each of its words |
| `Aarch64EpilogueProof.WalkTracks` | src/aarch64/instruction_analysis/epilogue.rs:125-153 | from any point of a run of sp-relative pair loads and `add sp`, the walk reaches the return with offsets that describe sp, fp and lr of the CPU there |
| `Aarch64EpilogueProof.RuleExistsExactly` | src/aarch64/instruction_analysis/epilogue.rs:400-433 | a detected epilogue yields a rule if and only if its offsets are in reach and fp is not restored without lr |
| `Aarch64EpilogueProof.RuleRecovers` | src/aarch64/instruction_analysis/epilogue.rs:400-433 | the chosen rule, executed in the first frame, gives the CPU's sp, fp and stripped lr at the return; or an overflow exactly if a slot or sp lies outside the address space |
| `Aarch64EpilogueProof.EpilogueRuleFindsCaller` | src/aarch64/instruction_analysis/epilogue.rs:63-433 | at every instruction boundary of such an epilogue the analysis succeeds, and an aligned rule finds the caller that the CPU returns to |
| `Aarch64EpilogueProof.SpIsRightExactlyIfAligned` | src/aarch64/instruction_analysis/epilogue.rs:413-431 | whenever such a rule finds a caller, its sp is the CPU's if and only if the total offset is a multiple of 16 |
| `Aarch64EpilogueProof.RightExactlyIfAligned` | src/aarch64/instruction_analysis/epilogue.rs:400-433 | for every epilogue with a rule: the whole outcome is right on every machine that runs it if and only if all offsets found are aligned |
| `Aarch64EpilogueProof.EveryBoundaryFindsSameCaller` | src/aarch64/instruction_analysis/epilogue.rs:63-433 | two boundaries of one epilogue never lead to different callers |
| `Aarch64EpilogueProof.ShortEpiloguesFit` | src/aarch64/instruction_analysis/epilogue.rs:336-394 | no epilogue of up to 128 instructions overflows the i32 offsets |
| `Aarch64Prologue.PrologueDetector.StepBack` | src/aarch64/instruction_analysis/prologue.rs:151-202 | the in-place branches compute `ReverseStep`; an instruction of a prologue is undone by adding exactly what it took from sp, and an unexpected one changes nothing |
| `Aarch64Prologue.PrologueDetector.Analyze` | src/aarch64/instruction_analysis/prologue.rs:41-104 | the in-place backward loop computes `AnalyzeSlices` |
| `Aarch64Prologue.WalkBackFinds` | src/aarch64/instruction_analysis/prologue.rs:82-92 | the backward walk comes to what the executed instructions took from sp plus what it makes of the code before the function |
| `Aarch64Prologue.NothingExtra` | src/aarch64/instruction_analysis/prologue.rs:82-92 | that code adds nothing if it ends in an unexpected instruction, nor do instructions before that which do not move sp |
| `Aarch64Prologue.PrologueInstructionsAreExpected` | src/aarch64/instruction_analysis/prologue.rs:107-149 | every prologue instruction is recognised as the next one; only a store without writeback needs an earlier adjustment |
| `Aarch64Prologue.ReverseStepExactly` | src/aarch64/instruction_analysis/prologue.rs:151-202 | the backward walk goes on over `pacibsp`, pair stores and `sub sp`, and over nothing else |
| `Aarch64Prologue.ExpectedExactly` | src/aarch64/instruction_analysis/prologue.rs:107-149 | what the next instruction is taken for, for every word |
| `Aarch64Prologue.SettingFramePointerIsExpected` | src/aarch64/instruction_analysis/prologue.rs:107-149 | `mov x29, sp` and `add x29, sp, #n` show that the prologue goes on |
| `Aarch64Prologue.PrologueRuleExistsExactly` | src/aarch64/instruction_analysis/prologue.rs:41-104 | before an instruction that continues the prologue there is a rule if and only if the offset found is in reach, and not zero where a store without writeback follows |
| `Aarch64Prologue.PrologueRuleFindsCaller` | src/aarch64/instruction_analysis/prologue.rs:41-222 | after any pair stores, `sub sp` and `pacibsp` executed from the entry, whatever code comes before it, a rule with the right offset restores the entry's sp and fp and the stripped lr, or overflows exactly if sp had wrapped |
| `Aarch64Prologue.SpIsRightExactly` | src/aarch64/instruction_analysis/prologue.rs:205-222 | whenever such a rule finds a caller, its sp is the entry's if and only if the offset is right |
| `Aarch64Prologue.RightIfAligned` | src/aarch64/instruction_analysis/prologue.rs:205-222 | where the walk adds nothing for earlier code, the offset is right if and only if sp was lowered by a multiple of 16 |
| `Aarch64Analysis.EpilogueIsLeftToItsAnalysis` | src/instruction_analysis.rs:13-19 | wherever an epilogue instruction comes next, the prologue analysis gives way, and the whole analysis is the epilogue's |
| `Aarch64Analysis.AnalysisFindsCallerInEpilogue` | src/instruction_analysis.rs:13-19 | the whole analysis, at every boundary of an epilogue, finds the caller that the CPU returns to |
| `Aarch64Analysis.AnalysisFindsCallerInPrologue` | src/instruction_analysis.rs:13-19 | the whole analysis, before any instruction that continues the prologue, has a rule and, with the right offset, finds the caller that the function was entered from |
| `RegisterOrdering.EncodableExactly` | src/x86_64/register_ordering.rs:31-50 | for a table of any size: encoding succeeds if and only if the list repeats nothing and draws on the table only |
| `RegisterOrdering.CodeBelowFactorial` | src/x86_64/register_ordering.rs:31-50 | codes stay below n! |
| `RegisterOrdering.DecodeUndoesEncode` | src/x86_64/register_ordering.rs:15-50 | decoding a code gives back the encoded list |
| `RegisterOrdering.EncodeUndoesDecode` | src/x86_64/register_ordering.rs:15-50 | encoding a decoded ordering gives back the code |
| `RegisterOrdering.FirstDigit` | src/x86_64/register_ordering.rs:31-50 | the lowest digit of a code is the position of the first register in the table, and the other digits are the code of the rest in what is left of it |
| `RegisterOrdering.DecodableExactly` | src/x86_64/register_ordering.rs:15-29 | decoding meets no zero divisor if and only if the code is below n! |
| `RegisterOrdering.DecodePermutes` | src/x86_64/register_ordering.rs:15-29 | decoding reorders the table |
| `CalleeSaved.SwapIn` | src/x86_64/register_ordering.rs:22-25 | the in-place swap brings the chosen register forward and leaves what the code calls the remaining table |
| `CalleeSaved.Decode` | src/x86_64/register_ordering.rs:15-29 | the u16 loop over the eight registers terminates without a zero divisor on every code below 8! and decodes it |
| `CalleeSaved.Encode` | src/x86_64/register_ordering.rs:31-50 | the u16 loop is exact: it gives the count and the code, or fails exactly where the unbounded encoding does |
| `CalleeSaved.RoundTrip` | src/x86_64/register_ordering.rs:4-50 | whatever is encoded has at most eight registers, a code below 8!, decodes to itself and contains no rsp |
| `X86Regs.UnwindRegs.Set` | src/x86_64/unwindregs.rs:48-50 | a setter changes the one register it names |
| `X86Rule.PopInPlace` | src/x86_64/unwind_rule.rs:228-235 | the popping loop in place: the end of the pops or the error, and every register written before it |
| `X86Rule.ExecRule` | src/x86_64/unwind_rule.rs:102-250 | the in-place `exec` yields the result and leaves the sixteen registers and ip of the value function `Exec` |
| `X86Progress.ExecFollowsMeaning` | src/x86_64/unwind_rule.rs:111-250 | for all registers: a caller is found if and only if the rule's unbounded formulas lead to one; then sp, ip, every popped register and bp are those formulas and all other registers are kept |
| `X86Progress.ReturnSlotWrapsExactly` | src/x86_64/unwind_rule.rs:238-239 | the only wrapped value ever used is the slot of the return address, exactly if sp is below 8 and the rule does not move it |
| `X86Progress.ExecEndsExactly` | src/x86_64/unwind_rule.rs:111-243 | the stack ends if and only if the rule says so, bp is null, or the return address is null where all other checks pass |
| `X86Progress.ErrorsAreTrue` | src/x86_64/unwind_rule.rs:111-246 | every error names its cause, among them the very slot of bp, of a popped register or of the return address that cannot be read |
| `X86Progress.PopListFacts` | src/x86_64/register_ordering.rs:15-29 | the registers a valid rule pops are distinct, at most eight, and never rsp |
| `X86Progress.ExecMakesProgress` | src/x86_64/unwind_rule.rs:111-250 | no step lowers sp; each leaves ip == stack[sp - 8]; from such a state a further step strictly raises sp, whatever the rule and the flag |
| `X86Progress.RunsTerminate` | src/x86_64/unwind_rule.rs:111-250 | runs of any rules with any flags over a fixed stack: the first step does not lower sp, all later ones raise it with the invariant kept, so a run has at most 2^64 - sp steps |
| `X86Dwarf.UnwindRowInPlace` | src/x86_64/dwarf.rs:25-83 | the in-place `unwind_frame` agrees with its value function; registers change only if the generic path succeeds |
| `X86Dwarf.GenericPathFollowsRow` | src/x86_64/dwarf.rs:51-83 | for every row, whatever its rules, with or without expressions, and for any base register: the generic path gives the CFA as sp, what the rules say of bp and the return address, or else the word right below the CFA, and keeps all other registers; and each error has its cause |
| `Dwarf.EvaluationFollowsRules` | src/dwarf.rs:392-478 | each kind of register rule and CFA rule evaluates to what it says: nothing, a value, or what is stored in a slot, within reach of the i64 arithmetic |
| `X86Dwarf.TranslatesExactly` | src/x86_64/dwarf.rs:101-164 | a row becomes a cacheable rule if and only if its return address is undefined, or is at CFA-8 with the CFA and bp offsets in stated byte ranges |
| `X86Dwarf.UndefinedReturnAddressEndsStack` | src/x86_64/dwarf.rs:106-110 | a translated row ends the stack for all registers and stacks if and only if its return address is undefined |
| `X86Dwarf.TranslationKeepsMeaning` | src/x86_64/dwarf.rs:124-160 | the rule of an aligned row with its return address at CFA-8 means the row's CFA and bp slot |
| `X86Dwarf.RuleAgreesWithGenericPath` | src/x86_64/dwarf.rs:51-164 | if the rule of an aligned row finds a caller and the row lies below 2^63, generic evaluation gives the same return address and the same sixteen registers |
| `X86Dwarf.AgreesExactly` | src/x86_64/dwarf.rs:51-83 | the exact bound: an aligned row whose rule finds a caller agrees if and only if base and CFA are below 2^63, and so is the slot of bp, or the kept bp happens to be the same |
| `X86Dwarf.AgreesWhereFoundExactlyIfAligned` | src/x86_64/dwarf.rs:51-164 | for every translated row with its return address at CFA-8: wherever the rule finds a caller and the row is below 2^63, the generic path agrees, if and only if the row is aligned |
| `X86Dwarf.RuleFindsExactly` | src/x86_64/dwarf.rs:51-164 | where that is: for an aligned row below 2^63, the rule finds a caller (and then the same) if and only if the generic path finds a non-null one, the slot of bp can be read or lies below sp in the first frame of an sp-based row, and on bp-based rows bp is not null and sp goes up |
| `X86Dwarf.UnalignedRowDisagrees` | src/x86_64/dwarf.rs:124-160 | for every such row that is not aligned, registers and a stack on which rule and generic path both find a caller, and not the same |
| `X86Dwarf.EvaluatesWithOneSlot` | src/x86_64/dwarf.rs:51-83 | a row that evaluates at all, expressions or not, does so in some first frame, over a stack of one slot |
| `X86Dwarf.PlainRowEvaluatesExactly` | src/x86_64/dwarf.rs:51-83 | a row without expressions never evaluates if and only if it has no computable CFA or keeps both sp and the return address; and it always fails somewhere |
| `X86Pe.CompileRule` | src/x86_64/unwind_rule.rs:52-86 | the collecting loop, which gives up at the ninth register, computes the rule for a sequence |
| `X86Pe.CompilesExactly` | src/x86_64/unwind_rule.rs:52-86 | an epilog compiles if and only if it is an optional offset below 512 KiB and then pops of distinct callee-saved registers |
| `X86Pe.SimulateInPlace` | src/x86_64/pe.rs:140-167 | the in-place simulation of an epilog: the return address or the unreadable address, and all registers in either case |
| `X86Pe.SimulationIsExecution` | src/x86_64/pe.rs:140-167 | for any sequence of `add rsp`, `lea rsp` from the frame register and pops in which nothing is read between a `pop rsp` and the next `lea`: the simulation ends as the CPU does that runs it and returns, with the same address and sixteen registers, or the same fault |
| `X86Pe.SimulationIsRightExactly` | src/x86_64/pe.rs:140-167 | for sequences without `lea`: it does so on every machine if and only if there is no `pop rsp` |
| `X86Pe.RuleAgreesWithSimulation` | src/x86_64/pe.rs:133-167 | executing the rule of an aligned epilog ends as running its instructions one by one: the same unreadable address, the same return address, the same sixteen registers |
| `X86Pe.AgreesExactlyIfAligned` | src/x86_64/pe.rs:133-167 | for every epilog that compiles: rule and simulation end alike for all registers and stacks, short of wrapping around, if and only if the offset is a multiple of 8 |
| `X86Pe.WrappingIsRefused` | src/x86_64/unwind_rule.rs:222-236 | where the simulation would wrap around, the rule ends in an error |
| `X86Pe.RulesAreVisible` | src/x86_64/unwind_rule.rs:52-86 | two sequences whose rules do the same on one particular machine have the same rule |
| `X86Prologue.FindPrologueRule` | src/x86_64/instruction_analysis/prologue.rs:3-45 | the backward byte loop computes `PrologueRule` |
| `X86Prologue.WalkBackFindsPushes` | src/x86_64/instruction_analysis/prologue.rs:11-44 | the backward walk counts exactly the executed pushes, plain or prefixed, or finds the frame setup they follow, if and only if the code before the function is clear: no pushes and no frame setup at its end, once a byte like a prefix is taken to belong to a plain first push |
| `X86Prologue.PrologueRuleExistsBeforePush` | src/x86_64/instruction_analysis/prologue.rs:47-82 | before a further push there is a rule if and only if four bytes can be seen |
| `X86Prologue.NextIsExpectedExactly` | src/x86_64/instruction_analysis/prologue.rs:47-82 | the next instruction is expected if and only if it is a push, `sub rsp`, `sub esp` or `mov rbp, rsp`, and four bytes can be seen |
| `X86Code.RegisterIsNamed` | src/x86_64/instruction_analysis/prologue.rs:27-36 | the register of a push or pop is the one whose number is in its opcode and prefix |
| `X86Prologue.PrologueRuleFindsCaller` | src/x86_64/instruction_analysis/prologue.rs:3-82 | at every boundary where a rule is found, after clear code, it leads to the caller that returning at the entry leads to: the same result and the same sixteen registers |
| `X86Prologue.RightExactly` | src/x86_64/instruction_analysis/prologue.rs:3-82 | for every prologue where a rule is found, whatever code comes before the function: the rule is right on every machine if and only if that code is clear |
| `X86Epilogue.FindEpilogueRule` | src/x86_64/instruction_analysis/epilogue.rs:3-85 | the forward byte loop computes `EpilogueRule`, jump branches included |
| `X86Epilogue.EpilogueHasRule` | src/x86_64/instruction_analysis/epilogue.rs:12-85 | wherever pops are followed by a `ret`, or by a jump that is taken for a tail call, there is the rule of their count and of the last plain `pop rbp` |
| `X86Epilogue.RuleMeansEpilogue` | src/x86_64/instruction_analysis/epilogue.rs:12-68 | and there is a rule nowhere else |
| `X86Epilogue.LastRbpIsSeen` | src/x86_64/instruction_analysis/epilogue.rs:46-64 | that is the CPU's last pop of rbp if and only if no prefixed one comes after it |
| `X86Epilogue.EpilogueRuleFindsCaller` | src/x86_64/instruction_analysis/epilogue.rs:3-85 | at every boundary of fewer than 32767 pops and a `ret`, none of rsp and the last of rbp plain, the rule gives the sp, bp and return address, or the error, of executing what is left |
| `X86Epilogue.RightExactly` | src/x86_64/instruction_analysis/epilogue.rs:3-85 | for every epilogue of fewer than 32767 pops and a `ret`: the rule found is right on every machine if and only if nothing pops rsp and no prefixed `pop rbp` comes after the last plain one |
| `X86Analysis.EpilogueIsLeftToItsAnalysis` | src/instruction_analysis.rs:13-19 | wherever a pop or the `ret` comes next, the prologue analysis gives way, and the whole analysis is the epilogue's |
| `X86Analysis.AnalysisIsRightExactly` | src/instruction_analysis.rs:13-19 | the whole analysis is right on every machine under exactly the same condition |
| `X86Analysis.AnalysisIsRightExactlyInPrologue` | src/instruction_analysis.rs:13-19 | in a prologue that goes on, the whole analysis has a rule, which is right on every machine if and only if the code before the function is clear |
| `RuleCacheModel.RuleCache.LookUp` | src/rule_cache.rs:20-44 | the in-place lookup: hit or handle, and the one counter that is bumped |
| `RuleCacheModel.RuleCache.Insert` | src/rule_cache.rs:46-57 | the in-place insertion overwrites one slot and keeps every entry in the slot of its address |
| `RuleCacheModel.SlotsHoldLatest` | src/rule_cache.rs:20-57 | after any history, slot s holds the latest insertion for an address that is s modulo 509, and nothing else |
| `RuleCacheModel.HitIsLatest` | src/rule_cache.rs:20-57 | a lookup hits if and only if a rule was inserted for this address and generation, and every later insertion for an address congruent modulo 509 was for them again; and it gives the latest rule inserted for them |
| `RuleCacheModel.StatsAddUp` | src/rule_cache.rs:20-125 | over any history each of the four counters counts the lookups of its own outcome, and hits plus misses is the number of lookups |
| `Search.BinarySearchIsCorrect` | src/unwinder.rs:264-267 | a search finds the key, or the only place where it may go |
| `Modules.AddKeepsSorted` | src/unwinder.rs:263-280 | an addition keeps the list sorted |
| `Modules.RemoveKeepsSorted` | src/unwinder.rs:282-292 | a removal keeps the list sorted, and takes away one module of that start or nothing |
| `Modules.HistoryKeepsModules` | src/unwinder.rs:263-292 | over any history the list stays sorted, and each operation adds or removes exactly what it should |
| `Modules.SortedIsBuilt` | src/unwinder.rs:263-280 | every sorted list comes about by as many additions as it has modules, equal starts included |
| `Modules.FindModuleIsLinearScan` | src/unwinder.rs:298-324 | for non-empty, non-overlapping ranges the search finds what a linear scan finds, subject to the base address and u32 checks |
| `Modules.MaxIsGreatestEnd` | src/unwinder.rs:294-296 | the greatest known code address is the end of some module, and no module ends above it |
| `Modules.MaskKeepsModuleAddresses` | src/unwinder.rs:294-296 | the mask from the last module's end leaves every address of every module alone and removes any hash above |
| `Unwinding.Generations.Issue` | src/unwinder.rs:193-203 | each call gives the counter's value and advances it modulo 2^16 |
| `Unwinding.UnwinderInternal.constructor` | src/unwinder.rs:251-260 | a new unwinder has no modules and a generation of its own |
| `Unwinding.UnwinderInternal.Clone` | src/unwinder.rs:240-249 | a clone has the modules and the generation of the original |
| `Unwinding.UnwinderInternal.Add` | src/unwinder.rs:263-280 | the new list, still sorted, under a new generation |
| `Unwinding.UnwinderInternal.Remove` | src/unwinder.rs:282-292 | the new list, still sorted; a new generation exactly if something was removed |
| `Unwinding.RemovesExactly` | src/unwinder.rs:282-292 | something is removed if and only if some module has that start |
| `Unwinding.CallIsInItsModule` | src/code_address.rs:61-67 | a return address is looked up inside the call, and so in its module even where the call is the last instruction of that |
| `Unwinding.UnwinderInternal.UnwindFrame` | src/unwinder.rs:326-382 | the in-place `with_cache`: result, registers and the cache's new contents, hit or miss, rule, error or uncacheable |
| `CacheAgreement.WithCacheAgrees` | src/unwinder.rs:326-382 | over a cache whose rules stand in for their frames, unwinding gives the uncached result and registers and keeps the cache so |
| `CacheAgreement.SharedCacheIsTransparent` | src/unwinder.rs:193-382 | any interleaving of new, clone, add, remove and unwind over any number of unwinders and one cache answers as if there were no cache, if rules stand in for their frames and at most 65536 generations are issued |
| `CacheAgreement.TransparentExactly` | src/unwinder.rs:193-382 | all such runs answer as without a cache if and only if the rule that one frame resolves to, executed for any other frame of its lookup address, gives what unwinding that frame gives |
| `CacheAgreement.SteadyIsInterchangeable` | src/unwinder.rs:345-380 | callbacks whose rules and failures depend on the module and the lookup address alone meet that condition |
| `CacheAgreement.SecondFrameHits` | src/unwinder.rs:345-380 | for one lookup address and generation, the rule resolved first is executed the second time, whatever the second frame would resolve to |
| `GenerationWrap.AlwaysTransparentExactly` | src/unwinder.rs:193-203 | without a bound on the generations, all runs answer as without a cache if and only if rules do not depend on the modules, either |
| `GenerationWrap.OneGenerationTooMany` | src/unwinder.rs:193-203 | the bound is tight for every architecture: where the fallback rule does not do what unwinding inside a module does, some run of 65537 generations gives a stale answer |
| `StaleRules.LeavesGoStale` | src/unwinder.rs:193-203 | witness on aarch64: with nothing but leaf functions, runs of up to 65536 generations are not affected, and some run of 65537 is |
| `FrameIterator.UnwindIterator.Next` | src/unwinder.rs:155-179 | the in-place `next`: what it yields, its next state, its registers and the cache |
| `FrameIterator.NextYields` | src/unwinder.rs:155-179 | first the instruction pointer, then only non-null return addresses; an error leaves the iterator where it was, and the end is kept and touches nothing |
| `WalkTransparency.WalkIsTransparent` | src/unwinder.rs:155-179 | walks of any length yield the same frames, ends and errors over an agreeing cache as without one |
| `Aarch64Walk.TableIsTransparentExactly` | src/aarch64/dwarf.rs:42-92 | over a table of rules and rows, expressions included, sharing a cache is transparent if and only if every row that can be looked up translates, never evaluates, or never fails |
| `Aarch64Walk.ShareableRowExactly` | src/aarch64/dwarf.rs:42-92 | what that means: without a CFA expression, a row must translate or have a CFA that is not evaluable; a CFA expression must always fail, or never fail and be looked up by first frames only |
| `Aarch64Walk.FirstFrameMatters` | src/aarch64/macho.rs:15-37 | witness: null opcodes, which have a rule in the first frame only, are not transparent |
| `Aarch64Walk.OutsideOfModules` | src/aarch64/unwind_rule.rs:57-59 | a frame outside of all modules is unwound by its frame record: sp right above it, fp and lr from it, under the stated conditions and no others |
| `Aarch64Walk.GenericPathRaises` | src/aarch64/dwarf.rs:60-92 | after the first frame the generic path strictly raises sp whenever it succeeds |
| `Aarch64Walk.NextMakesProgress` | src/unwinder.rs:155-179 | for any modules, unwind data, stack and cache contents: every frame after a return address has a strictly higher sp |
| `Aarch64Walk.WalksTerminate` | src/unwinder.rs:155-179 | no walk yields more than 2^64 + 1 frames |
| `Aarch64Walk.CollectFrames` | src/unwinder.rs:155-179 | iterating until an error or the end terminates, with the instruction pointer first and non-null return addresses after it |
| `X86Walk.TableIsTransparentExactly` | src/x86_64/pe.rs:121-140 | over a table of rules, rows and unwind codes with epilogs, sharing a cache is transparent if and only if, wherever it can be looked up, every row translates, never evaluates or never fails, and every epilog has a rule, the one that the unwind codes have if a return address may look it up |
| `X86Walk.ShareableRowExactly` | src/x86_64/dwarf.rs:41-83 | what that means for a row without expressions: it must translate or not be evaluable |
| `X86Walk.FailedEvaluationStays` | src/x86_64/dwarf.rs:51-70 | witness on a row the source mentions: where its evaluation fails once, the fallback rule stays in the cache and then finds another caller than the row does |
| `X86Walk.OutsideOfModules` | src/x86_64/unwind_rule.rs:98-100 | a frame outside of all modules is unwound by its frame record: sp right above it, bp and the return address from it, under the stated conditions and no others |
| `X86Walk.GenericPathAdvances` | src/x86_64/dwarf.rs:51-83 | for rows with the return address right below the CFA, or that move sp: the generic path raises sp, or finds ip == stack[sp - 8] where that did not hold |
| `X86Walk.NextMakesProgress` | src/unwinder.rs:155-179 | for any modules, stack and cache contents over such rows: frames after a return address raise sp, or find ip == stack[sp - 8] where that did not hold |
| `X86Walk.WalksTerminate` | src/unwinder.rs:155-179 | over such rows, whatever the rules, unwind codes and epilogs, no walk yields more than 2^65 + 2 frames |
| `X86Walk.ReturnAddressElsewhereLoops` | src/x86_64/dwarf.rs:72-77 | witness that a condition on rows is needed: two rows that keep sp and have their return addresses elsewhere make a walk that yields frames forever, from its start |
| `CfiIndex.TryNew` | src/dwarf.rs:310-354 | index construction gives the first error, or the two vectors of the sorted pairs |
| `CfiIndex.ConstructionSucceedsExactly` | src/dwarf.rs:337-344 | construction succeeds if and only if every FDE starts at most 2^32 - 1 bytes above the base and has an offset below 2^32; otherwise its error is that of the first FDE which does not |
| `CfiIndex.PairStandsForFde` | src/dwarf.rs:337-345 | a pair has the FDE's start relative to the base and the FDE's offset, and each error its cause |
| `CfiIndex.IndexFindsNearestPair` | src/dwarf.rs:345-385 | the vectors are a sorted permutation of the pairs |
| `CfiIndex.SortByPcIsStable` | src/dwarf.rs:345-353 | FDEs of the same start keep their order |
| `CfiIndex.IndexFindsNearest` | src/dwarf.rs:310-385 | in terms of the FDEs: a lookup gives the offset of an FDE with the greatest start not above base plus address, or nothing exactly if all start above it |

## Left out

- Parsing of call frame information, compact unwind info and PE unwind data: rows, rules and epilog instructions are plain datatypes.
- DWARF expression evaluation: an expression is an arbitrary function of the registers, which are all that its evaluation may ask for.
- Chained PE unwind info and `resolve_operation`: behaviour of an external library, so unwind codes that do not compile to a rule are not part of this model.
- Compact unwind opcodes and stub helpers (`src/macho.rs` and its two architecture files): case tables over an external opcode type; a walk meets them as any rule whatsoever.
- Tail call heuristics: what is taken for a tail call is stated exactly, but no theorem says that the guesses are right.
- Section lookup, module construction, allocation policies, display and error formatting: plumbing.
- The standard library's binary search and stable sort: one deterministic algorithm stands for each; which of several modules or FDEs with equal starts a search hits is that algorithm's choice.
- Concurrency of the generation counter: an atomic increment is one step of the system.
- Width of the cache statistics: the u64 counters are natural numbers here.
- X86Pe.SimulationIsExecution: one way only for sequences with `lea`, because whether a register that was popped astray matters depends on what is popped after it; `pop rsp` keeps the popped value on the CPU, and not in the simulation.
- X86Walk.WalksTerminate: its condition on rows is sufficient, not exact, because whether other rows loop depends on how they combine.
- Aliasing between registers and cache in `with_cache`: the callback and the rule execution take the registers by value and return them.
- `from_max_known_address(0)`: the shift by 64 is an overflow in Rust and `None` here.
- Register codes of 8! and above: no rule that `encode` helped to make has one, and decoding them divides by zero, so rule execution requires a smaller code.
