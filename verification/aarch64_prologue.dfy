/** Rules inferred from the instructions of an aarch64 prologue, by walking backward to the function
    start and undoing the stack pointer adjustments found there. */
module Aarch64Prologue {
  import opened Words
  import opened Frames
  import opened PtrAuth
  import opened Aarch64Rule
  import opened Aarch64Code

  datatype UnexpectedInstructionType =
    | StoreOfWrongSize
    | StoreReferenceRegisterNotSp
    | AddSubNotOperatingOnSp
    | NoNextInstruction
    | NoStackPointerSubBeforeStore
    | Unknown

  datatype InstructionType =
    | NotExpectedInPrologue
    | CouldBePartOfPrologueIfThereIsAlsoAStackPointerSub
    | VeryLikelyPartOfPrologue

  datatype PrologueResult =
    | ProbablyAlreadyInBody(unexpected: UnexpectedInstructionType)
    | FoundFunctionStart(spOffset: I32)

  function AnalyzeInstructionType(word: bv32): InstructionType {
    if word == 0xd503237f || word == 0x910003fd then VeryLikelyPartOfPrologue
    else
      var bits := word >> 22;
      if bits & 0x2f9 == 0x2a0 then
        if bits & 6 == 0 || BaseReg(word) != 31 then NotExpectedInPrologue
        else if bits & 6 == 4 then CouldBePartOfPrologueIfThereIsAlsoAStackPointerSub
        else VeryLikelyPartOfPrologue
      else if bits & 0x2fe == 0x244 then
        var expectedResultReg := if (word >> 30) & 1 == 1 then 31 else 29;
        if BaseReg(word) != 31 || FirstReg(word) != expectedResultReg then NotExpectedInPrologue
        else VeryLikelyPartOfPrologue
      else NotExpectedInPrologue
  }

  /** Undo one already executed instruction: the new offset, or why it is not part of a prologue. */
  function ReverseStep(spOffset: I32, word: bv32): Result<I32, UnexpectedInstructionType> {
    if word == 0xd503237f then Ok(spOffset)
    else if (word >> 22) & 0x2f9 == 0x2a0 then
      if (word >> 23) & 3 == 0 then Err(StoreOfWrongSize)
      else if BaseReg(word) != 31 then Err(StoreReferenceRegisterNotSp)
      else if (word >> 23) & 3 == 3 || (word >> 23) & 3 == 1 then Ok(WrapI32(spOffset - Imm7(word)))
      else Ok(spOffset)
    else if (word >> 23) & 0x1ff == 0x1a2 then
      if FirstReg(word) != 31 || BaseReg(word) != 31 then Err(AddSubNotOperatingOnSp)
      else Ok(WrapI32(spOffset + Imm12(word)))
    else Err(Unknown)
  }

  /** The backward loop over the instructions before the pc. */
  function WalkBack(spOffset: I32, words: seq<bv32>): I32
    decreases |words|
  {
    if words == [] then spOffset
    else
      match ReverseStep(spOffset, words[|words| - 1])
      case Ok(offset) => WalkBack(offset, words[..|words| - 1])
      case Err(_) => spOffset
  }

  function AnalyzeSlices(before: seq<bv8>, after: seq<bv8>): PrologueResult {
    if |after| < 4 then ProbablyAlreadyInBody(NoNextInstruction)
    else
      var next := AnalyzeInstructionType(WordAt(after, 0));
      if next.NotExpectedInPrologue? then ProbablyAlreadyInBody(Unknown)
      else
        var offset := WalkBack(0, WordsOf(before));
        if next.CouldBePartOfPrologueIfThereIsAlsoAStackPointerSub? && offset == 0
        then ProbablyAlreadyInBody(NoStackPointerSubBeforeStore)
        else FoundFunctionStart(offset)
  }

  /** `unwind_rule_from_detected_prologue` */
  function PrologueRule(before: seq<bv8>, after: seq<bv8>): Option<Rule> {
    match AnalyzeSlices(before, after)
    case ProbablyAlreadyInBody(_) => None
    case FoundFunctionStart(offset) =>
      var spBy16 := TruncDiv16(offset);
      if !FitsU16(spBy16) then None
      else if spBy16 == 0 then Some(NoOp)
      else Some(OffsetSp(spBy16))
  }

  /** The detector as the object that the source steps backward over the instructions. */
  class PrologueDetector {
    var spOffset: I32

    constructor ()
      ensures spOffset == 0
    {
      spOffset := 0;
    }

    /** `reverse_step_instruction`: an instruction of a prologue is undone, that is, what it took from sp is
        added to the offset; nothing changes at an instruction that is not expected. */
    method StepBack(word: bv32) returns (unexpected: Option<UnexpectedInstructionType>)
      modifies this
      ensures match ReverseStep(old(spOffset), word)
        case Ok(offset) => unexpected == None && spOffset == offset
        case Err(e) => unexpected == Some(e) && spOffset == old(spOffset)
      ensures IsPrologueInstruction(word) ==> unexpected == None && spOffset == WrapI32(old(spOffset) + Lowers(word))
    {
      if IsPrologueInstruction(word) {
        ReverseStepOfPrologueInstruction(spOffset, word);
      }
      hide IsPrologueInstruction, Lowers, FirstReg, BaseReg, Imm7, Imm12, WrapI32;
      if word == 0xd503237f { return None; }
      if (word >> 22) & 0x2f9 == 0x2a0 {
        var writeback := (word >> 23) & 3;
        if writeback == 0 { return Some(StoreOfWrongSize); }
        if BaseReg(word) != 31 { return Some(StoreReferenceRegisterNotSp); }
        if writeback == 3 || writeback == 1 {
          spOffset := WrapI32(spOffset - Imm7(word));
        }
        return None;
      }
      if (word >> 23) & 0x1ff == 0x1a2 {
        if FirstReg(word) != 31 || BaseReg(word) != 31 { return Some(AddSubNotOperatingOnSp); }
        spOffset := WrapI32(spOffset + Imm12(word));
        return None;
      }
      return Some(Unknown);
    }

    method Analyze(before: seq<bv8>, after: seq<bv8>) returns (r: PrologueResult)
      requires spOffset == 0
      modifies this
      ensures r == AnalyzeSlices(before, after)
    {
      hide ReverseStep, AnalyzeInstructionType, WordAt;
      if |after| < 4 { return ProbablyAlreadyInBody(NoNextInstruction); }
      var next := AnalyzeInstructionType(WordAt(after, 0));
      if next.NotExpectedInPrologue? { return ProbablyAlreadyInBody(Unknown); }
      var words := WordsOf(before);
      var n := |words|;
      assert words[..n] == words;
      while n != 0
        invariant 0 <= n <= |words|
        invariant WalkBack(spOffset, words[..n]) == WalkBack(0, words)
      {
        assert words[..n][..n - 1] == words[..n - 1];
        var unexpected := StepBack(words[n - 1]);
        if unexpected.Some? { break; }
        n := n - 1;
      }
      if next.CouldBePartOfPrologueIfThereIsAlsoAStackPointerSub? && spOffset == 0 {
        return ProbablyAlreadyInBody(NoStackPointerSubBeforeStore);
      }
      return FoundFunctionStart(spOffset);
    }
  }

  // ----- the rule undoes what the CPU did since the function entry -----

  predicate IsPrologueInstruction(word: bv32) {
    Decode(word).StorePair? || Decode(word).SubSp? || Decode(word).PacIbSp?
  }

  /** One prologue instruction. `pacibsp` replaces lr by `signed(lr)`, the pointer with a hash. */
  function StepPrologue(word: bv32, m: Machine, signed: U64 -> U64): Option<Machine> {
    if !IsPrologueInstruction(word) then None
    else if Decode(word).PacIbSp? then Some(m.(lr := signed(m.lr)))
    else Step(word, m)
  }

  /** The machine after executing the given instructions. */
  function RunPrologue(words: seq<bv32>, entry: Machine, signed: U64 -> U64): Option<Machine> {
    if words == [] then Some(entry)
    else
      var m :- RunPrologue(words[..|words| - 1], entry, signed);
      StepPrologue(words[|words| - 1], m, signed)
  }

  /** How far one instruction lowers sp. */
  function Lowers(word: bv32): int {
    match Decode(word)
    case SubSp => Imm12(word)
    case StorePair(PostIndex) => -Imm7(word)
    case StorePair(PreIndex) => -Imm7(word)
    case _ => 0
  }

  function TotalLowered(words: seq<bv32>): int {
    if words == [] then 0 else TotalLowered(words[..|words| - 1]) + Lowers(words[|words| - 1])
  }

  /** The backward sums of the walk, starting with `sum`, overflow no i32. */
  predicate SumsFit(words: seq<bv32>, sum: int) {
    FitsI32(sum) && (words != [] ==> SumsFit(words[..|words| - 1], sum + Lowers(words[|words| - 1])))
  }

  /** What the walk adds for the code before the function, where it does not stop right away. */
  function Extra(earlier: seq<bv32>): I32 { WalkBack(0, earlier) }

  /** The offset that the walk comes to. */
  function FoundOffset(earlier: seq<bv32>, words: seq<bv32>): I32 {
    WrapI32(TotalLowered(words) + Extra(earlier))
  }

  lemma ReverseStepOfPrologueInstruction(offset: I32, word: bv32)
    requires IsPrologueInstruction(word)
    ensures ReverseStep(offset, word) == Ok(WrapI32(offset + Lowers(word)))
  {
    match Decode(word)
    case SubSp =>
      assert (word >> 22) & 0x2f9 != 0x2a0;
    case StorePair(i) =>
      assert (word >> 22) & 0x2f9 == 0x2a0 && BaseReg(word) == 31;
      assert i.PreIndex? <==> (word >> 23) & 3 == 3;
      assert i.PostIndex? <==> (word >> 23) & 3 == 1;
      assert (word >> 23) & 3 != 0;
    case PacIbSp =>
  }

  /** What undoing an instruction adds does not depend on the offset so far. */
  lemma ReverseStepShifts(offset: I32, word: bv32)
    ensures match ReverseStep(0, word)
      case Ok(d) => ReverseStep(offset, word) == Ok(WrapI32(offset + d))
      case Err(e) => ReverseStep(offset, word) == Err(e)
  {
    hide FirstReg, BaseReg, Imm7, Imm12;
    WrapsAdd(offset, -Imm7(word));
    WrapsAdd(offset, Imm12(word));
  }

  lemma WrapsAdd(x: int, y: int)
    ensures WrapI32(x + WrapI32(y)) == WrapI32(x + y)
  {
  }

  lemma {:induction false} WalkBackShifts(offset: I32, words: seq<bv32>)
    ensures WalkBack(offset, words) == WrapI32(offset + WalkBack(0, words))
    decreases |words|
  {
    hide ReverseStep, WrapI32;
    if words == [] {
      assert WrapI32(offset) == offset;
    } else {
      var rest, word := words[..|words| - 1], words[|words| - 1];
      ReverseStepShifts(offset, word);
      match ReverseStep(0, word)
      case Err(_) => assert WrapI32(offset) == offset;
      case Ok(d) =>
        var e := WalkBack(0, rest);
        WalkBackShifts(WrapI32(offset + d), rest);
        WalkBackShifts(d, rest);
        WrapsAdd(e, offset + d);
        WrapsAdd(offset, d + e);
    }
  }

  /** The backward walk adds up exactly what the executed instructions took from sp, and goes on with
      what comes before the function. */
  lemma {:induction false} WalkBackSums(earlier: seq<bv32>, words: seq<bv32>, sum: I32,
                                        entry: Machine, signed: U64 -> U64)
    requires SumsFit(words, sum) && RunPrologue(words, entry, signed).Some?
    ensures FitsI32(sum + TotalLowered(words))
    ensures WalkBack(sum, earlier + words) == WalkBack(sum + TotalLowered(words), earlier)
    decreases |words|
  {
    hide Step, Lowers, ReverseStep;
    if words == [] {
      assert earlier + words == earlier;
    } else {
      var rest, word := words[..|words| - 1], words[|words| - 1];
      assert (earlier + words)[..|earlier + words| - 1] == earlier + rest;
      ReverseStepOfPrologueInstruction(sum, word);
      WalkBackSums(earlier, rest, sum + Lowers(word), entry, signed);
    }
  }

  /** The walk comes to the sum of both. */
  lemma WalkBackFinds(earlier: seq<bv32>, words: seq<bv32>, entry: Machine, signed: U64 -> U64)
    requires SumsFit(words, 0) && RunPrologue(words, entry, signed).Some?
    ensures WalkBack(0, earlier + words) == FoundOffset(earlier, words)
  {
    hide WalkBack, TotalLowered, RunPrologue, SumsFit;
    WalkBackSums(earlier, words, 0, entry, signed);
    WalkBackShifts(TotalLowered(words), earlier);
  }

  /** Code before the function adds nothing if its last instruction is not expected in a prologue, nor if
      the instructions before that do not move sp. */
  lemma NothingExtra(earlier: seq<bv32>)
    ensures earlier == [] ==> Extra(earlier) == 0
    ensures earlier != [] && ReverseStep(0, earlier[|earlier| - 1]).Err? ==> Extra(earlier) == 0
    ensures earlier != [] && ReverseStep(0, earlier[|earlier| - 1]) == Ok(0) ==>
      Extra(earlier) == Extra(earlier[..|earlier| - 1])
  {
    hide ReverseStep;
  }

  lemma StepLowersSp(word: bv32, m: Machine, signed: U64 -> U64)
    requires StepPrologue(word, m, signed).Some?
    ensures var next := StepPrologue(word, m, signed).value;
      && next.sp == AddMod64(m.sp, -Lowers(word))
      && next.fp == m.fp
      && next.lr == if Decode(word).PacIbSp? then signed(m.lr) else m.lr
  {
  }

  /** A signed pointer is the pointer itself once the hash is stripped. */
  ghost predicate OnlyAddsHash(signed: U64 -> U64, mask: U64) {
    forall p: U64 :: StripPtrAuth(mask, signed(p)) == StripPtrAuth(mask, p)
  }

  lemma {:induction false} SumsFitIncludesTotal(words: seq<bv32>, sum: int)
    requires SumsFit(words, sum)
    ensures FitsI32(sum) && FitsI32(sum + TotalLowered(words))
    decreases |words|
  {
    if words != [] {
      SumsFitIncludesTotal(words[..|words| - 1], sum + Lowers(words[|words| - 1]));
    }
  }

  /** A prologue moves sp by the sum of its adjustments and keeps fp. */
  lemma {:induction false} RunLowersSp(words: seq<bv32>, sum: int, entry: Machine, signed: U64 -> U64)
    requires SumsFit(words, sum)
    requires RunPrologue(words, entry, signed).Some?
    ensures FitsI64(-TotalLowered(words))
    ensures RunPrologue(words, entry, signed).value.sp == AddMod64(entry.sp, -TotalLowered(words))
    ensures RunPrologue(words, entry, signed).value.fp == entry.fp
    decreases |words|
  {
    hide Step, Lowers;
    SumsFitIncludesTotal(words, sum);
    if words != [] {
      var rest, word := words[..|words| - 1], words[|words| - 1];
      RunLowersSp(rest, sum + Lowers(word), entry, signed);
      StepLowersSp(word, RunPrologue(rest, entry, signed).value, signed);
      AddMod64Associates(entry.sp, -TotalLowered(rest), -Lowers(word));
    }
  }

  /** A prologue keeps lr up to its hash. */
  lemma {:induction false} RunKeepsLr(words: seq<bv32>, entry: Machine, signed: U64 -> U64, mask: U64)
    requires OnlyAddsHash(signed, mask)
    requires RunPrologue(words, entry, signed).Some?
    ensures StripPtrAuth(mask, RunPrologue(words, entry, signed).value.lr) == StripPtrAuth(mask, entry.lr)
    decreases |words|
  {
    if words != [] {
      var rest, word := words[..|words| - 1], words[|words| - 1];
      RunKeepsLr(rest, entry, signed, mask);
      StepLowersSp(word, RunPrologue(rest, entry, signed).value, signed);
    }
  }

  /** What unwinding a function gives right at its entry: its caller's registers. */
  function CallerAtEntry(entry: Machine, regs: Regs): Outcome {
    var ra := StripPtrAuth(regs.mask, entry.lr);
    if ra == 0 then Outcome(Ok(None), regs)
    else Outcome(Ok(Some(ra)), Regs(regs.mask, ra, entry.sp, entry.fp))
  }

  /** The bytes before the pc are some code, and then the instructions that took the machine from the
      function entry to `m`. */
  ghost predicate Entered(before: seq<bv8>, earlier: seq<bv32>, words: seq<bv32>,
                          entry: Machine, signed: U64 -> U64, m: Machine) {
    && WordsOf(before) == earlier + words
    && SumsFit(words, 0)
    && RunPrologue(words, entry, signed) == Some(m)
  }

  /** The rule moves sp by what the executed instructions took from it. */
  predicate OffsetIsRight(earlier: seq<bv32>, words: seq<bv32>) {
    16 * TruncDiv16(FoundOffset(earlier, words)) == TotalLowered(words)
  }

  /** Where the walk adds nothing for earlier code, that is a question of alignment. */
  lemma RightIfAligned(earlier: seq<bv32>, words: seq<bv32>)
    requires Extra(earlier) == 0 && FitsI32(TotalLowered(words))
    ensures OffsetIsRight(earlier, words) <==> TotalLowered(words) % 16 == 0
  {
    hide TotalLowered, Extra;
  }

  /** After any sp-based pair stores, `sub sp` and `pacibsp` executed from the function entry, an inferred
      rule with the right offset restores the entry's sp, fp and stripped return address, unless sp had
      wrapped around the address space. */
  lemma PrologueRuleFindsCaller(before: seq<bv8>, after: seq<bv8>, earlier: seq<bv32>, words: seq<bv32>,
                                entry: Machine, signed: U64 -> U64, m: Machine, mask: U64)
    requires Entered(before, earlier, words, entry, signed, m) && OnlyAddsHash(signed, mask)
    requires PrologueRule(before, after).Some?
    ensures AnalyzeSlices(before, after).FoundFunctionStart?
    ensures AnalyzeSlices(before, after).spOffset == FoundOffset(earlier, words)
    ensures OffsetIsRight(earlier, words) ==>
      Exec(PrologueRule(before, after).value, true, RegsOf(m, mask), m.mem) ==
        if TotalLowered(words) <= entry.sp then CallerAtEntry(entry, RegsOf(m, mask))
        else Outcome(Err(IntegerOverflow), RegsOf(m, mask))
  {
    hide RunPrologue, AnalyzeInstructionType, WordAt, BitAnd, FoundOffset, SumsFit, TotalLowered;
    WalkBackFinds(earlier, words, entry, signed);
    RunLowersSp(words, 0, entry, signed);
    RunKeepsLr(words, entry, signed, mask);
    StripIsIdempotent(mask, m.lr);
  }

  lemma PrologueInstructionsAreExpected(word: bv32)
    requires IsPrologueInstruction(word)
    ensures AnalyzeInstructionType(word) ==
      if Decode(word) == StorePair(SignedOffset) then CouldBePartOfPrologueIfThereIsAlsoAStackPointerSub
      else VeryLikelyPartOfPrologue
  {
    match Decode(word)
    case SubSp =>
      assert (word >> 22) & 0x2f9 != 0x2a0 && (word >> 22) & 0x2fe == 0x244 && (word >> 30) & 1 == 1;
    case StorePair(i) =>
      assert (word >> 22) & 0x2f9 == 0x2a0 && (word >> 22) & 6 != 0;
      assert i.SignedOffset? <==> (word >> 22) & 6 == 4;
    case PacIbSp =>
  }

  /** `add x29, sp, #n`, of which `mov x29, sp` is a case: what a prologue does once fp and lr are stored. */
  predicate SetsFramePointer(word: bv32) {
    word >> 23 == 0x122 && FirstReg(word) == 29 && BaseReg(word) == 31
  }

  /** Instructions which show that the prologue is not over. */
  predicate Continues(word: bv32) { IsPrologueInstruction(word) || SetsFramePointer(word) }

  lemma SettingFramePointerIsExpected(word: bv32)
    requires SetsFramePointer(word)
    ensures AnalyzeInstructionType(word) == VeryLikelyPartOfPrologue
    ensures Decode(word).Unmodelled?
  {
  }

  /** Before an instruction that continues the prologue, there is a rule exactly if the offset found is in
      reach, and not zero if a store without writeback comes next. */
  lemma PrologueRuleExistsExactly(before: seq<bv8>, after: seq<bv8>, earlier: seq<bv32>, words: seq<bv32>,
                                  entry: Machine, signed: U64 -> U64, m: Machine)
    requires Entered(before, earlier, words, entry, signed, m)
    requires |after| >= 4 && Continues(WordAt(after, 0))
    ensures PrologueRule(before, after).Some? <==>
      && -16 < FoundOffset(earlier, words) < 0x10_0000
      && (Decode(WordAt(after, 0)) == StorePair(SignedOffset) ==> FoundOffset(earlier, words) != 0)
  {
    hide RunPrologue, AnalyzeInstructionType, WordAt, Decode, FoundOffset, SetsFramePointer;
    WalkBackFinds(earlier, words, entry, signed);
    if IsPrologueInstruction(WordAt(after, 0)) {
      PrologueInstructionsAreExpected(WordAt(after, 0));
    } else {
      SettingFramePointerIsExpected(WordAt(after, 0));
    }
  }

  /** Whenever the rule finds a caller, its sp is the one at the entry exactly if the offset is right. */
  lemma SpIsRightExactly(before: seq<bv8>, after: seq<bv8>, earlier: seq<bv32>, words: seq<bv32>,
                         entry: Machine, signed: U64 -> U64, m: Machine, mask: U64)
    requires Entered(before, earlier, words, entry, signed, m) && OnlyAddsHash(signed, mask)
    ensures PrologueRule(before, after).Some? ==>
      var o := Exec(PrologueRule(before, after).value, true, RegsOf(m, mask), m.mem);
      o.FoundCaller() ==> (o.regs.sp == entry.sp <==> OffsetIsRight(earlier, words))
  {
    hide RunPrologue, AnalyzeInstructionType, WordAt, BitAnd, FoundOffset, SumsFit, TotalLowered;
    WalkBackFinds(earlier, words, entry, signed);
    RunLowersSp(words, 0, entry, signed);
  }

  // ----- nothing else is taken for a prologue -----

  /** Words that the backward walk undoes: `pacibsp`, pair stores and `sub sp`. The test for stores does not look
      at bit 30, which is clear in all stores of two 64-bit registers. */
  predicate IsUndone(word: bv32) {
    word == 0xd503237f || Decode(word & 0xbfff_ffff).StorePair? || Decode(word).SubSp?
  }

  lemma StoreTestExactly(word: bv32)
    ensures Decode(word & 0xbfff_ffff).StorePair? <==>
      (word >> 22) & 0x2f9 == 0x2a0 && (word >> 23) & 3 != 0 && BaseReg(word) == 31
    ensures Decode(word & 0xbfff_ffff) == StorePair(SignedOffset) <==>
      (word >> 22) & 0x2f9 == 0x2a0 && (word >> 23) & 3 == 2 && BaseReg(word) == 31
  {
  }

  lemma SubTestExactly(word: bv32)
    ensures Decode(word).SubSp? <==> (word >> 23) & 0x1ff == 0x1a2 && FirstReg(word) == 31 && BaseReg(word) == 31
    ensures Decode(word).SubSp? <==>
      (word >> 22) & 0x2fe == 0x244 && (word >> 30) & 1 == 1 && FirstReg(word) == 31 && BaseReg(word) == 31
    ensures SetsFramePointer(word) <==>
      (word >> 22) & 0x2fe == 0x244 && (word >> 30) & 1 != 1 && FirstReg(word) == 29 && BaseReg(word) == 31
  {
  }

  lemma StoreAndSubAreExclusive(word: bv32)
    ensures (word >> 22) & 0x2f9 == 0x2a0 ==> (word >> 23) & 0x1ff != 0x1a2 && (word >> 22) & 0x2fe != 0x244
    ensures (word >> 22) & 6 == 0 <==> (word >> 23) & 3 == 0
    ensures (word >> 22) & 6 == 4 <==> (word >> 23) & 3 == 2
    ensures word == 0x910003fd ==> SetsFramePointer(word)
  {
  }

  /** The backward walk goes on exactly over those words. */
  lemma ReverseStepExactly(offset: I32, word: bv32)
    ensures ReverseStep(offset, word).Ok? <==> IsUndone(word)
  {
    StoreTestExactly(word);
    SubTestExactly(word);
    StoreAndSubAreExclusive(word);
    hide Decode, BaseReg, FirstReg, Imm7, Imm12, SetsFramePointer;
  }

  /** What the next instruction is taken for, for every word. */
  lemma ExpectedExactly(word: bv32)
    ensures AnalyzeInstructionType(word) ==
      if IsUndone(word) || SetsFramePointer(word) then
        if word != 0xd503237f && Decode(word & 0xbfff_ffff) == StorePair(SignedOffset)
        then CouldBePartOfPrologueIfThereIsAlsoAStackPointerSub
        else VeryLikelyPartOfPrologue
      else NotExpectedInPrologue
  {
    StoreTestExactly(word);
    SubTestExactly(word);
    StoreAndSubAreExclusive(word);
    hide Decode, BaseReg, FirstReg, SetsFramePointer;
  }
}
