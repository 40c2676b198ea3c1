/** The seven cacheable x86_64 unwind rules. */
module X86Rule {
  import opened Words
  import opened Frames
  import opened X86Regs
  import opened CalleeSaved

  datatype Rule =
    | EndOfStack
    | JustReturn
    | JustReturnIfFirstFrameOtherwiseFp
    | OffsetSp(spBy8: U16)
    | OffsetSpAndRestoreBp(spBy8: U16, bpBy8: I16)
    | UseFramePointer
    | OffsetSpAndPopRegisters(spBy8: U16, count: U8, code: U16)

  const FALLBACK_RULE := UseFramePointer

  /** A register code which `encode` can yield; decoding any other divides by zero. */
  predicate ValidRule(rule: Rule) {
    rule.OffsetSpAndPopRegisters? ==> rule.code < CODES
  }

  datatype Outcome = Outcome(result: StepResult, regs: Regs)
  {
    predicate FoundCaller() { result.Ok? && result.value.Some? }
  }

  /** The caller's sp and bp. */
  datatype Target = Target(sp: U64, bp: U64)

  datatype Popped = Popped(sp: Result<U64, Error>, regs: Regs)

  /** The popping loop. Registers popped before an error stay changed. */
  function PopAll(list: seq<Reg>, sp: U64, regs: Regs, stack: Stack): Popped {
    if list == [] then Popped(Ok(sp), regs)
    else if sp !in stack then Popped(Err(CouldNotReadStack(sp)), regs)
    else if !FitsU64(sp + 8) then Popped(Err(IntegerOverflow), regs)
    else PopAll(list[1..], sp + 8, regs.Set(list[0], stack[sp]), stack)
  }

  /** `OffsetSpAndRestoreBp` ignores a failed read below sp in the first frame. */
  function RestoreBp(isFirstFrame: bool, regs: Regs, bpBy8: I16, stack: Stack): Result<U64, Error> {
    var location :- AddSignedOrOverflow(regs.Sp(), bpBy8 * 8);
    if location in stack then Ok(stack[location])
    else if isFirstFrame && location < regs.Sp() then Ok(regs.Bp())
    else Err(CouldNotReadStack(location))
  }

  function FramePointerTarget(regs: Regs, stack: Stack): Result<Target, Error> {
    var newSp :- AddOrOverflow(regs.Bp(), 16);
    if newSp <= regs.Sp() then Err(FramepointerUnwindingMovedBackwards)
    else
      var newBp :- ReadStack(stack, regs.Bp());
      Ok(Target(newSp, newBp))
  }

  function SpTarget(regs: Regs, offset: U64): Result<Target, Error> {
    var newSp :- AddOrOverflow(regs.Sp(), offset);
    Ok(Target(newSp, regs.Bp()))
  }

  /** The case analysis of `exec` for the rules that pop nothing; `Ok(None)` ends the stack. */
  function ComputeTarget(rule: Rule, isFirstFrame: bool, regs: Regs, stack: Stack): Result<Option<Target>, Error>
    requires !rule.OffsetSpAndPopRegisters?
  {
    match rule
    case EndOfStack => Ok(None)
    case JustReturn =>
      var t :- SpTarget(regs, 8);
      Ok(Some(t))
    case JustReturnIfFirstFrameOtherwiseFp =>
      var t :- if isFirstFrame then SpTarget(regs, 8) else FramePointerTarget(regs, stack);
      Ok(Some(t))
    case OffsetSp(spBy8) =>
      var t :- SpTarget(regs, spBy8 * 8);
      Ok(Some(t))
    case OffsetSpAndRestoreBp(spBy8, bpBy8) =>
      var t :- SpTarget(regs, spBy8 * 8);
      var newBp :- RestoreBp(isFirstFrame, regs, bpBy8, stack);
      Ok(Some(t.(bp := newBp)))
    case UseFramePointer =>
      if regs.Bp() == 0 then Ok(None)
      else
        var t :- FramePointerTarget(regs, stack);
        Ok(Some(t))
  }

  /** Read the return address below the new sp and update ip, sp and bp. The subtraction wraps
      around if the new sp is below 8. */
  function ReturnTo(t: Target, oldSp: U64, regs: Regs, stack: Stack): Outcome {
    var at := WrapU64(t.sp - 8);
    if at !in stack then Outcome(Err(CouldNotReadStack(at)), regs)
    else if stack[at] == 0 then Outcome(Ok(None), regs)
    else if t.sp == oldSp && stack[at] == regs.ip then Outcome(Err(DidNotAdvance), regs)
    else Outcome(Ok(Some(stack[at])), regs.(ip := stack[at]).Set(RSP, t.sp).Set(RBP, t.bp))
  }

  function ExecPops(spBy8: U16, list: seq<Reg>, regs: Regs, stack: Stack): Outcome {
    match AddOrOverflow(regs.Sp(), spBy8 * 8)
    case Err(e) => Outcome(Err(e), regs)
    case Ok(start) =>
      var popped := PopAll(list, start, regs, stack);
      match popped.sp
      case Err(e) => Outcome(Err(e), popped.regs)
      case Ok(sp) =>
        match AddOrOverflow(sp, 8)
        case Err(e) => Outcome(Err(e), popped.regs)
        case Ok(newSp) => ReturnTo(Target(newSp, popped.regs.Bp()), regs.Sp(), popped.regs, stack)
  }

  /** One rule execution, on register values. */
  function Exec(rule: Rule, isFirstFrame: bool, regs: Regs, stack: Stack): Outcome
    requires ValidRule(rule)
  {
    match rule
    case OffsetSpAndPopRegisters(spBy8, count, code) => ExecPops(spBy8, Decoded(count, code), regs, stack)
    case _ =>
      match ComputeTarget(rule, isFirstFrame, regs, stack)
      case Err(e) => Outcome(Err(e), regs)
      case Ok(None) => Outcome(Ok(None), regs)
      case Ok(Some(t)) => ReturnTo(t, regs.Sp(), regs, stack)
  }

  // ----- in place -----

  method Return(t: Target, oldSp: U64, regs: UnwindRegs, stack: Stack) returns (r: StepResult)
    requires regs.Valid()
    modifies regs, regs.file
    ensures Outcome(r, regs.Values()) == ReturnTo(t, oldSp, old(regs.Values()), stack)
  {
    var ra :- ReadStack(stack, WrapU64(t.sp - 8));
    if ra == 0 {
      return Ok(None);
    }
    if t.sp == oldSp && ra == regs.ip {
      return Err(DidNotAdvance);
    }
    regs.ip := ra;
    regs.Set(RSP, t.sp);
    regs.Set(RBP, t.bp);
    return Ok(Some(ra));
  }

  method PopInPlace(list: seq<Reg>, start: U64, regs: UnwindRegs, stack: Stack) returns (r: Result<U64, Error>)
    requires regs.Valid()
    modifies regs.file
    ensures Popped(r, regs.Values()) == PopAll(list, start, old(regs.Values()), stack)
  {
    var sp, i := start, 0;
    while i < |list|
      invariant 0 <= i <= |list|
      invariant PopAll(list[i..], sp, regs.Values(), stack) == PopAll(list, start, old(regs.Values()), stack)
    {
      assert list[i..][1..] == list[i + 1..];
      var value :- ReadStack(stack, sp);
      sp :- AddOrOverflow(sp, 8);
      regs.Set(list[i], value);
      i := i + 1;
    }
    return Ok(sp);
  }

  /** `exec` */
  method ExecRule(rule: Rule, isFirstFrame: bool, regs: UnwindRegs, stack: Stack) returns (r: StepResult)
    requires ValidRule(rule) && regs.Valid()
    modifies regs, regs.file
    ensures Outcome(r, regs.Values()) == Exec(rule, isFirstFrame, old(regs.Values()), stack)
  {
    var sp := regs.file[RSP];
    if rule.OffsetSpAndPopRegisters? {
      var list := Decode(rule.count, rule.code);
      var start :- AddOrOverflow(sp, rule.spBy8 * 8);
      var end :- PopInPlace(list, start, regs, stack);
      var newSp :- AddOrOverflow(end, 8);
      r := Return(Target(newSp, regs.file[RBP]), sp, regs, stack);
    } else {
      var target :- ComputeTarget(rule, isFirstFrame, regs.Values(), stack);
      if target.None? {
        return Ok(None);
      }
      r := Return(target.value, sp, regs, stack);
    }
  }
}
