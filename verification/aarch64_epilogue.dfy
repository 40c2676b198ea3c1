/** Rules inferred from the instructions of an aarch64 epilogue, by walking forward to the return. */
module Aarch64Epilogue {
  import opened Words
  import opened Aarch64Rule
  import opened Aarch64Code

  datatype UnexpectedInstructionType =
    | LoadOfWrongSize
    | LoadReferenceRegisterNotSp
    | AddSubNotOperatingOnSp
    | AutibspNotFollowedByExpectedTailCall
    | BranchWithUnadjustedStackPointer
    | Unknown

  datatype InstructionType =
    | NotExpectedInEpilogue
    | CouldBeTailCall(offsetOfExpectedAutibsp: nat)
    | CouldBePartOfAuthTailCall(offsetOfExpectedAutibsp: nat)
    | VeryLikelyPartOfEpilogue

  datatype StepKind =
    | NeedMore
    | FoundBodyInstruction(unexpected: UnexpectedInstructionType)
    | FoundReturn
    | FoundTailCall
    | CouldBeAuthTailCall

  /** What the walk has found out so far, all relative to the initial stack pointer. */
  datatype Found = Found(spOffset: I32, fpOffset: Option<I32>, lrOffset: Option<I32>)

  datatype EpilogueResult =
    | ProbablyStillInBody(unexpected: UnexpectedInstructionType)
    | ReachedFunctionEndWithoutReturn
    | FoundReturnOrTailCall(found: Found)

  const NOTHING_YET := Found(0, None, None)

  predicate InstructionAdjustsStackPointer(word: bv32) {
    || ((word >> 22) & 0x2fb == 0x2a3 && BaseReg(word) == 31)
    || ((word >> 23) & 0x1ff == 0x122 && FirstReg(word) == 31 && BaseReg(word) == 31)
  }

  /** `eor x16, lr, lr, lsl #1; tbz x16, 0x3e, $+8; brk #0xc471` and a `b` or a `mov x16; braa`. */
  predicate IsAuthTailCall(bytes: seq<bv8>, i: nat)
    requires i <= |bytes|
  {
    && i + 16 <= |bytes|
    && WordAt(bytes, i) == 0xca1e07d0
    && WordAt(bytes, i + 4) == 0xb6f00050
    && WordAt(bytes, i + 8) == 0xd4388e20
    && var first := WordAt(bytes, i + 12);
       || first >> 26 == 5
       || (&& i + 20 <= |bytes|
           && (first >> 23) & 0x1c7 == 0x185 && FirstReg(first) == 16
           && var braa := WordAt(bytes, i + 16);
              braa & 0xfffffc00 == 0xd71f0800 && FirstReg(braa) == 16)
  }

  function AnalyzeInstruction(word: bv32): InstructionType {
    if word == 0xd65f03c0 || word == 0xd65f0fff then VeryLikelyPartOfEpilogue
    else if word == 0xd50323ff then CouldBePartOfAuthTailCall(0)
    else if word == 0xca1e07d0 then CouldBePartOfAuthTailCall(4)
    else if word == 0xb6f00050 then CouldBePartOfAuthTailCall(8)
    else if word == 0xd4388e20 then CouldBePartOfAuthTailCall(12)
    else if word >> 26 == 5 || word & 0xfffffc1f == 0xd61f0000 then CouldBeTailCall(16)
    else if (word >> 23) & 0x1c7 == 0x185 && FirstReg(word) == 16 then CouldBePartOfAuthTailCall(16)
    else if word & 0xfffffc00 == 0xd71f0800 && FirstReg(word) == 16 then CouldBePartOfAuthTailCall(20)
    else if (word >> 22) & 0x2f9 == 0x2a1 then
      if (word >> 23) & 3 == 0 || BaseReg(word) != 31 then NotExpectedInEpilogue else VeryLikelyPartOfEpilogue
    else if (word >> 23) & 0x1ff == 0x122 then
      if FirstReg(word) != 31 || BaseReg(word) != 31 then NotExpectedInEpilogue else VeryLikelyPartOfEpilogue
    else NotExpectedInEpilogue
  }

  /** A pair load: where fp and lr come from if they are among the loaded registers. */
  function StepLoadPair(d: Found, word: bv32): Found {
    var isPost := (word >> 23) & 3 == 1;
    var isPre := (word >> 23) & 3 == 3;
    var imm7 := Imm7(word);
    var loc: I32 := if isPost then d.spOffset else WrapI32(d.spOffset + imm7);
    var next: I32 := WrapI32(loc + 8);
    var r1, r2 := FirstReg(word), SecondReg(word);
    Found(
      if isPre || isPost then WrapI32(d.spOffset + imm7) else d.spOffset,
      if r2 == 29 then Some(next) else if r1 == 29 then Some(loc) else d.fpOffset,
      if r2 == 30 then Some(next) else if r1 == 30 then Some(loc) else d.lrOffset)
  }

  datatype Stepped = Stepped(kind: StepKind, found: Found)

  function StepInstruction(d: Found, word: bv32): Stepped {
    if word == 0xd65f03c0 || word == 0xd65f0fff then Stepped(FoundReturn, d)
    else if word == 0xd50323ff then Stepped(CouldBeAuthTailCall, d)
    else if word >> 26 == 5 then
      if d.spOffset != 0 then Stepped(FoundTailCall, d)
      else Stepped(FoundBodyInstruction(BranchWithUnadjustedStackPointer), d)
    else if (word >> 22) & 0x2f9 == 0x2a1 then
      if (word >> 23) & 3 == 0 then Stepped(FoundBodyInstruction(LoadOfWrongSize), d)
      else if BaseReg(word) != 31 then Stepped(FoundBodyInstruction(LoadReferenceRegisterNotSp), d)
      else Stepped(NeedMore, StepLoadPair(d, word))
    else if (word >> 23) & 0x1ff == 0x122 then
      if FirstReg(word) != 31 || BaseReg(word) != 31 then Stepped(FoundBodyInstruction(AddSubNotOperatingOnSp), d)
      else Stepped(NeedMore, d.(spOffset := WrapI32(d.spOffset + Imm12(word))))
    else Stepped(FoundBodyInstruction(Unknown), d)
  }

  /** The loop of `analyze_slice`, about to look at the instruction at `i`. */
  function Walk(d: Found, bytes: seq<bv8>, i: nat): EpilogueResult
    requires i + 4 <= |bytes|
    decreases |bytes| - i
  {
    var s := StepInstruction(d, WordAt(bytes, i));
    match s.kind
    case NeedMore =>
      if |bytes| - (i + 4) < 4 then ReachedFunctionEndWithoutReturn else Walk(s.found, bytes, i + 4)
    case FoundBodyInstruction(unexpected) => ProbablyStillInBody(unexpected)
    case FoundReturn => FoundReturnOrTailCall(s.found)
    case FoundTailCall => FoundReturnOrTailCall(s.found)
    case CouldBeAuthTailCall =>
      if !IsAuthTailCall(bytes, i + 4) then ProbablyStillInBody(AutibspNotFollowedByExpectedTailCall)
      else FoundReturnOrTailCall(s.found)
  }

  predicate IsInAuthTailCall(bytes: seq<bv8>, pc: nat, back: nat)
    requires pc + 4 <= |bytes|
  {
    back <= pc && WordAt(bytes, pc - back) == 0xd50323ff && IsAuthTailCall(bytes, pc - back + 4)
  }

  function AnalyzeSlice(bytes: seq<bv8>, pc: nat): EpilogueResult
    requires pc <= |bytes|
  {
    if |bytes| - pc < 4 then ReachedFunctionEndWithoutReturn
    else match AnalyzeInstruction(WordAt(bytes, pc))
    case NotExpectedInEpilogue => ProbablyStillInBody(Unknown)
    case CouldBeTailCall(back) =>
      if IsInAuthTailCall(bytes, pc, back) then FoundReturnOrTailCall(NOTHING_YET)
      else if pc >= 4 && InstructionAdjustsStackPointer(WordAt(bytes, pc - 4)) then FoundReturnOrTailCall(NOTHING_YET)
      else ProbablyStillInBody(Unknown)
    case CouldBePartOfAuthTailCall(back) =>
      if IsInAuthTailCall(bytes, pc, back) then FoundReturnOrTailCall(NOTHING_YET)
      else ProbablyStillInBody(Unknown)
    case VeryLikelyPartOfEpilogue => Walk(NOTHING_YET, bytes, pc)
  }

  /** The final rule choice. */
  function RuleForFound(d: Found): Option<Rule> {
    var spBy16 := TruncDiv16(d.spOffset);
    if !FitsU16(spBy16) then None
    else match (d.fpOffset, d.lrOffset)
    case (None, None) => if spBy16 == 0 then Some(NoOp) else Some(OffsetSp(spBy16))
    case (None, Some(lr)) =>
      if FitsI16(TruncDiv8(lr)) then Some(OffsetSpAndRestoreLr(spBy16, TruncDiv8(lr))) else None
    case (Some(_), None) => None
    case (Some(fp), Some(lr)) =>
      if FitsI16(TruncDiv8(fp)) && FitsI16(TruncDiv8(lr))
      then Some(OffsetSpAndRestoreFpAndLr(spBy16, TruncDiv8(fp), TruncDiv8(lr))) else None
  }

  /** `unwind_rule_from_detected_epilogue` */
  function EpilogueRule(bytes: seq<bv8>, pc: nat): Option<Rule>
    requires pc <= |bytes|
  {
    match AnalyzeSlice(bytes, pc)
    case FoundReturnOrTailCall(found) => RuleForFound(found)
    case _ => None
  }

  /** The detector as the object that the source steps over the instructions. */
  class EpilogueDetector {
    var spOffset: I32
    var fpOffset: Option<I32>
    var lrOffset: Option<I32>

    constructor ()
      ensures Value() == NOTHING_YET
    {
      spOffset, fpOffset, lrOffset := 0, None, None;
    }

    function Value(): Found
      reads this
    {
      Found(spOffset, fpOffset, lrOffset)
    }

    method StepOverLoadPair(word: bv32)
      modifies this
      ensures Value() == StepLoadPair(old(Value()), word)
    {
      var isPre, isPost := (word >> 23) & 3 == 3, (word >> 23) & 3 == 1;
      var imm7 := Imm7(word);
      var loc: I32 := if isPost then spOffset else WrapI32(spOffset + imm7);
      if FirstReg(word) == 29 { fpOffset := Some(loc); } else if FirstReg(word) == 30 { lrOffset := Some(loc); }
      var next: I32 := WrapI32(loc + 8);
      if SecondReg(word) == 29 { fpOffset := Some(next); } else if SecondReg(word) == 30 { lrOffset := Some(next); }
      if isPre || isPost { spOffset := WrapI32(spOffset + imm7); }
    }

    method StepOver(word: bv32) returns (kind: StepKind)
      modifies this
      ensures Stepped(kind, Value()) == StepInstruction(old(Value()), word)
    {
      hide StepLoadPair, Imm12, WrapI32, FirstReg, BaseReg;
      if word == 0xd65f03c0 || word == 0xd65f0fff { return FoundReturn; }
      if word == 0xd50323ff { return CouldBeAuthTailCall; }
      if word >> 26 == 5 {
        if spOffset != 0 { return FoundTailCall; }
        return FoundBodyInstruction(BranchWithUnadjustedStackPointer);
      }
      if (word >> 22) & 0x2f9 == 0x2a1 {
        if (word >> 23) & 3 == 0 { return FoundBodyInstruction(LoadOfWrongSize); }
        if BaseReg(word) != 31 { return FoundBodyInstruction(LoadReferenceRegisterNotSp); }
        StepOverLoadPair(word);
        return NeedMore;
      }
      if (word >> 23) & 0x1ff == 0x122 {
        if FirstReg(word) != 31 || BaseReg(word) != 31 { return FoundBodyInstruction(AddSubNotOperatingOnSp); }
        spOffset := WrapI32(spOffset + Imm12(word));
        return NeedMore;
      }
      return FoundBodyInstruction(Unknown);
    }

    method Analyze(bytes: seq<bv8>, pc: nat) returns (r: EpilogueResult)
      requires pc <= |bytes|
      requires Value() == NOTHING_YET
      modifies this
      ensures r == AnalyzeSlice(bytes, pc)
    {
      hide StepInstruction, AnalyzeInstruction, IsAuthTailCall, InstructionAdjustsStackPointer, WordAt;
      if |bytes| - pc < 4 { return ReachedFunctionEndWithoutReturn; }
      match AnalyzeInstruction(WordAt(bytes, pc)) {
        case NotExpectedInEpilogue => return ProbablyStillInBody(Unknown);
        case CouldBeTailCall(back) =>
          if IsInAuthTailCall(bytes, pc, back) { return FoundReturnOrTailCall(NOTHING_YET); }
          if pc >= 4 && InstructionAdjustsStackPointer(WordAt(bytes, pc - 4)) {
            return FoundReturnOrTailCall(NOTHING_YET);
          }
          return ProbablyStillInBody(Unknown);
        case CouldBePartOfAuthTailCall(back) =>
          if IsInAuthTailCall(bytes, pc, back) { return FoundReturnOrTailCall(NOTHING_YET); }
          return ProbablyStillInBody(Unknown);
        case VeryLikelyPartOfEpilogue =>
      }
      var i := pc;
      while true
        invariant pc <= i && i + 4 <= |bytes|
        invariant Walk(Value(), bytes, i) == Walk(NOTHING_YET, bytes, pc)
        decreases |bytes| - i
      {
        var kind := StepOver(WordAt(bytes, i));
        i := i + 4;
        match kind {
          case NeedMore =>
            if |bytes| - i < 4 { return ReachedFunctionEndWithoutReturn; }
          case FoundBodyInstruction(unexpected) => return ProbablyStillInBody(unexpected);
          case FoundReturn => return FoundReturnOrTailCall(Value());
          case FoundTailCall => return FoundReturnOrTailCall(Value());
          case CouldBeAuthTailCall =>
            if !IsAuthTailCall(bytes, i) { return ProbablyStillInBody(AutibspNotFollowedByExpectedTailCall); }
            return FoundReturnOrTailCall(Value());
        }
      }
    }
  }
}
