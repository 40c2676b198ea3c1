/** Instruction analysis on x86_64 as a whole: the prologue first, then the epilogue. */
module X86Analysis {
  import opened Words
  import opened X86Rule
  import opened X86Code
  import X86Prologue
  import opened X86Epilogue

  /** `rule_from_instruction_analysis` */
  function AnalysisRule(text: seq<bv8>, pc: nat): Option<Rule>
    requires pc <= |text|
  {
    var rule := X86Prologue.PrologueRule(text, pc);
    if rule.Some? then rule else X86Epilogue.EpilogueRule(text, pc)
  }

  lemma PopIsNotExpectedInPrologue(insn: Insn, rest: seq<bv8>)
    requires insn.IsPop()
    ensures !X86Prologue.IsNextInstructionExpectedInPrologue(insn.Bytes() + rest)
  {
    var bytes := insn.Bytes() + rest;
    if insn.Plain? {
      assert bytes[0] == insn.op;
    } else {
      assert bytes[0] == insn.rex && bytes[1] == insn.op;
    }
    if |bytes| >= 4 {
      assert bytes[..2][0] == bytes[0] && bytes[..3][0] == bytes[0];
    }
  }

  /** The prologue analysis gives way wherever a pop or the `ret` comes next. */
  lemma EpilogueIsLeftToItsAnalysis(text: seq<bv8>, pc: nat, insns: seq<Insn>, rest: seq<bv8>)
    requires pc <= |text| && text[pc..] == EncodeAll(insns) + [0xc3] + rest && AllPops(insns)
    ensures AnalysisRule(text, pc) == EpilogueRule(text, pc)
  {
    hide EpilogueRule;
    var bytes := text[pc..];
    if insns == [] {
      assert bytes[0] == 0xc3;
      if |bytes| >= 4 {
        assert bytes[..2][0] == bytes[0] && bytes[..3][0] == bytes[0];
      }
    } else {
      var tail := EncodeAll(insns[1..]) + [0xc3] + rest;
      assert bytes == insns[0].Bytes() + tail;
      PopIsNotExpectedInPrologue(insns[0], tail);
    }
  }

  /** The whole analysis, at every boundary of an epilogue of pops and a `ret`: its rule is right on every machine
      if and only if no instruction pops rsp and no prefixed `pop rbp` comes after the last plain one. */
  lemma AnalysisIsRightExactly(text: seq<bv8>, pc: nat, insns: seq<Insn>, rest: seq<bv8>)
    requires pc <= |text| && text[pc..] == EncodeAll(insns) + [0xc3] + rest
    requires AllPops(insns) && |insns| < 0x7fff
    ensures AnalysisRule(text, pc).Some?
    ensures AlwaysRight(insns, AnalysisRule(text, pc).value) <==> NoRsp(insns) && NoRbpHidden(insns)
  {
    hide *;
    EpilogueIsLeftToItsAnalysis(text, pc, insns, rest);
    RightExactly(text, pc, insns, rest);
  }

  /** The whole analysis, anywhere in a prologue that goes on: its rule is right on every machine if and only if
      the code before the function is clear. */
  lemma AnalysisIsRightExactlyInPrologue(text: seq<bv8>, pc: nat, earlier: seq<bv8>, p: X86Prologue.Prologue)
    requires X86Prologue.EndsInPrologue(text, pc, earlier, p)
    requires X86Prologue.IsNextInstructionExpectedInPrologue(text[pc..])
    ensures AnalysisRule(text, pc).Some?
    ensures X86Prologue.AlwaysRight(p, AnalysisRule(text, pc).value) <==> X86Prologue.Clear(earlier, p)
  {
    hide X86Prologue.WalkBack, X86Prologue.AlwaysRight, X86Prologue.Clear;
    X86Prologue.RightExactly(text, pc, earlier, p);
  }

  /** In particular before a further push, of which four bytes can be seen. */
  lemma PushGoesOn(text: seq<bv8>, pc: nat, push: Insn, rest: seq<bv8>)
    requires pc + 4 <= |text| && push.IsPush() && text[pc..] == push.Bytes() + rest
    ensures X86Prologue.IsNextInstructionExpectedInPrologue(text[pc..])
  {
    X86Prologue.PrologueRuleExistsBeforePush(text, pc, push, rest);
  }
}
