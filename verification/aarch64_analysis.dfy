/** Instruction analysis on aarch64 as a whole: the prologue first, then the epilogue. */
module Aarch64Analysis {
  import opened Words
  import opened Aarch64Rule
  import opened Aarch64Code
  import Aarch64Prologue
  import Aarch64Epilogue
  import opened Aarch64EpilogueProof
  import Frames

  /** `rule_from_instruction_analysis` */
  function AnalysisRule(text: seq<bv8>, pc: nat): Option<Rule>
    requires pc <= |text|
  {
    var rule := Aarch64Prologue.PrologueRule(text[..pc], text[pc..]);
    if rule.Some? then rule else Aarch64Epilogue.EpilogueRule(text, pc)
  }

  lemma EpilogueInstructionIsNotExpectedInPrologue(word: bv32)
    requires IsLoadOrAdd(word) || IsReturn(word)
    ensures Aarch64Prologue.AnalyzeInstructionType(word).NotExpectedInPrologue?
  {
  }

  /** The prologue analysis gives way wherever an epilogue instruction comes next. */
  lemma EpilogueIsLeftToItsAnalysis(text: seq<bv8>, pc: nat)
    requires pc + 4 <= |text| && (IsLoadOrAdd(WordAt(text, pc)) || IsReturn(WordAt(text, pc)))
    ensures AnalysisRule(text, pc) == Aarch64Epilogue.EpilogueRule(text, pc)
  {
    hide Aarch64Prologue.AnalyzeInstructionType, Aarch64Epilogue.EpilogueRule, Decode;
    assert WordAt(text[pc..], 0) == WordAt(text, pc);
    EpilogueInstructionIsNotExpectedInPrologue(WordAt(text, pc));
  }

  /** The whole analysis, at every boundary of an epilogue, finds the caller that the CPU returns to. */
  lemma AnalysisFindsCallerInEpilogue(text: seq<bv8>, pc: nat, m: Machine, n: nat, final: Machine, mask: U64)
    requires ReturnsIn(text, pc, m, n, final) && OffsetsFit(text, pc, 0, n)
    ensures Aarch64Epilogue.AnalyzeSlice(text, pc).FoundReturnOrTailCall?
    ensures var d := Aarch64Epilogue.AnalyzeSlice(text, pc).found;
      Aligned(d) && AnalysisRule(text, pc).Some? ==>
        UnwindWith(AnalysisRule(text, pc).value, m, mask) == Expected(d, RegsOf(m, mask), final)
  {
    EpilogueIsLeftToItsAnalysis(text, pc);
    EpilogueRuleFindsCaller(text, pc, m, n, final, mask);
  }

  /** The whole analysis, anywhere in a prologue that goes on, has a rule and finds the caller that the function
      was entered from, if the offset found is right. */
  lemma AnalysisFindsCallerInPrologue(text: seq<bv8>, pc: nat, earlier: seq<bv32>, words: seq<bv32>,
                                      entry: Machine, signed: U64 -> U64, m: Machine, mask: U64)
    requires pc + 4 <= |text| && Aarch64Prologue.Continues(WordAt(text, pc))
    requires Aarch64Prologue.Entered(text[..pc], earlier, words, entry, signed, m)
    requires Aarch64Prologue.OnlyAddsHash(signed, mask) && Aarch64Prologue.OffsetIsRight(earlier, words)
    requires -16 < Aarch64Prologue.FoundOffset(earlier, words) < 0x10_0000
    requires Decode(WordAt(text, pc)) == StorePair(SignedOffset) ==> Aarch64Prologue.FoundOffset(earlier, words) != 0
    ensures AnalysisRule(text, pc).Some?
    ensures UnwindWith(AnalysisRule(text, pc).value, m, mask) ==
      if Aarch64Prologue.TotalLowered(words) <= entry.sp then Aarch64Prologue.CallerAtEntry(entry, RegsOf(m, mask))
      else Outcome(Err(Frames.IntegerOverflow), RegsOf(m, mask))
  {
    hide Aarch64Prologue.PrologueRule, Aarch64Prologue.AnalyzeSlices, Aarch64Prologue.Entered, Decode;
    hide Aarch64Prologue.Continues, Aarch64Prologue.FoundOffset, Aarch64Prologue.OffsetIsRight;
    assert WordAt(text[pc..], 0) == WordAt(text, pc);
    Aarch64Prologue.PrologueRuleExistsExactly(text[..pc], text[pc..], earlier, words, entry, signed, m);
    Aarch64Prologue.PrologueRuleFindsCaller(text[..pc], text[pc..], earlier, words, entry, signed, m, mask);
  }
}
