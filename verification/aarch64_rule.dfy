/** The aarch64 unwind registers and the eight cacheable unwind rules. */
module Aarch64Rule {
  import opened Words
  import opened Frames
  import opened PtrAuth

  datatype Regs = Regs(mask: U64, lr: U64, sp: U64, fp: U64)
  {
    /** `set_lr` always stores the stripped value. */
    function WithLr(value: U64): Regs {
      this.(lr := StripPtrAuth(mask, value))
    }
  }

  datatype Rule =
    | NoOp
    | NoOpIfFirstFrameOtherwiseFp
    | OffsetSp(spBy16: U16)
    | OffsetSpIfFirstFrameOtherwiseStackEndsHere(spBy16: U16)
    | OffsetSpAndRestoreLr(spBy16: U16, lrBy8: I16)
    | OffsetSpAndRestoreFpAndLr(spBy16: U16, fpBy8: I16, lrBy8: I16)
    | UseFramePointer
    | UseFramepointerWithOffsets(spFromFpBy8: U16, fpBy8: I16, lrBy8: I16)

  const FALLBACK_RULE := UseFramePointer

  datatype NewValues = NewValues(lr: U64, sp: U64, fp: U64)

  function ReadAt(stack: Stack, base: U64, offset: I64): (r: Result<U64, Error>)
    ensures r ==
      if !FitsU64(base + offset) then Err(IntegerOverflow)
      else if base + offset in stack then Ok(stack[base + offset])
      else Err(CouldNotReadStack(base + offset))
  {
    var location :- AddSignedOrOverflow(base, offset);
    ReadStack(stack, location)
  }

  /** The case analysis at the heart of `exec`; `Ok(None)` is an early end of the stack. */
  function ComputeNewValues(rule: Rule, isFirstFrame: bool, regs: Regs, stack: Stack)
    : Result<Option<NewValues>, Error>
  {
    var Regs(_, lr, sp, fp) := regs;
    match rule
    case NoOp =>
      if !isFirstFrame then Err(DidNotAdvance) else Ok(Some(NewValues(lr, sp, fp)))
    case NoOpIfFirstFrameOtherwiseFp =>
      if isFirstFrame then Ok(Some(NewValues(lr, sp, fp)))
      else
        var newSp :- AddOrOverflow(fp, 16);
        var newLr :- ReadStack(stack, fp + 8);
        var newFp :- ReadStack(stack, fp);
        if newSp <= sp then Err(FramepointerUnwindingMovedBackwards)
        else Ok(Some(NewValues(newLr, newSp, newFp)))
    case OffsetSpIfFirstFrameOtherwiseStackEndsHere(spBy16) =>
      if !isFirstFrame then Ok(None)
      else
        var newSp :- AddOrOverflow(sp, spBy16 * 16);
        Ok(Some(NewValues(lr, newSp, fp)))
    case OffsetSp(spBy16) =>
      if !isFirstFrame then Err(DidNotAdvance)
      else
        var newSp :- AddOrOverflow(sp, spBy16 * 16);
        Ok(Some(NewValues(lr, newSp, fp)))
    case OffsetSpAndRestoreLr(spBy16, lrBy8) =>
      var newSp :- AddOrOverflow(sp, spBy16 * 16);
      var newLr :- ReadAt(stack, sp, lrBy8 * 8);
      Ok(Some(NewValues(newLr, newSp, fp)))
    case OffsetSpAndRestoreFpAndLr(spBy16, fpBy8, lrBy8) =>
      var newSp :- AddOrOverflow(sp, spBy16 * 16);
      var newLr :- ReadAt(stack, sp, lrBy8 * 8);
      var newFp :- ReadAt(stack, sp, fpBy8 * 8);
      Ok(Some(NewValues(newLr, newSp, newFp)))
    case UseFramePointer =>
      var newSp :- AddOrOverflow(fp, 16);
      var newLr :- ReadStack(stack, fp + 8);
      var newFp :- ReadStack(stack, fp);
      if newFp == 0 then Ok(None)
      else if newFp <= fp || newSp <= sp then Err(FramepointerUnwindingMovedBackwards)
      else Ok(Some(NewValues(newLr, newSp, newFp)))
    case UseFramepointerWithOffsets(spFromFpBy8, fpBy8, lrBy8) =>
      var newSp :- AddOrOverflow(fp, spFromFpBy8 * 8);
      var newLr :- ReadAt(stack, fp, lrBy8 * 8);
      var newFp :- ReadAt(stack, fp, fpBy8 * 8);
      if newFp == 0 then Ok(None)
      else if newFp <= fp || newSp <= sp then Err(FramepointerUnwindingMovedBackwards)
      else Ok(Some(NewValues(newLr, newSp, newFp)))
  }

  datatype Outcome = Outcome(result: StepResult, regs: Regs)
  {
    predicate FoundCaller() { result.Ok? && result.value.Some? }
  }

  /** One rule execution, on register values. */
  function Exec(rule: Rule, isFirstFrame: bool, regs: Regs, stack: Stack): Outcome {
    match ComputeNewValues(rule, isFirstFrame, regs, stack)
    case Err(e) => Outcome(Err(e), regs)
    case Ok(None) => Outcome(Ok(None), regs)
    case Ok(Some(v)) =>
      var ra := StripPtrAuth(regs.mask, v.lr);
      if ra == 0 then Outcome(Ok(None), regs)
      else if !isFirstFrame && v.sp == regs.sp then Outcome(Err(DidNotAdvance), regs)
      else Outcome(Ok(Some(ra)), regs.WithLr(v.lr).(sp := v.sp, fp := v.fp))
  }

  /** The registers as the object that `exec` updates in place. */
  class UnwindRegs {
    const mask: U64
    var lr: U64
    var sp: U64
    var fp: U64

    constructor (mask: U64, lr: U64, sp: U64, fp: U64)
      ensures Values() == Regs(mask, StripPtrAuth(mask, lr), sp, fp)
    {
      this.mask := mask;
      this.lr := StripPtrAuth(mask, lr);
      this.sp := sp;
      this.fp := fp;
    }

    function Values(): Regs
      reads this
    {
      Regs(mask, lr, sp, fp)
    }

    method SetLr(value: U64)
      modifies this`lr
      ensures Values() == old(Values()).WithLr(value)
    {
      lr := StripPtrAuth(mask, value);
    }

    /** `exec`: a caller is found exactly when all three registers are updated; otherwise none is. */
    method ExecRule(rule: Rule, isFirstFrame: bool, stack: Stack) returns (r: StepResult)
      modifies this
      ensures Outcome(r, Values()) == Exec(rule, isFirstFrame, old(Values()), stack)
    {
      var newValues :- ComputeNewValues(rule, isFirstFrame, Values(), stack);
      if newValues.None? {
        return Ok(None);
      }
      var v := newValues.value;
      var ra := StripPtrAuth(mask, v.lr);
      if ra == 0 {
        return Ok(None);
      }
      if !isFirstFrame && v.sp == sp {
        return Err(DidNotAdvance);
      }
      SetLr(v.lr);
      sp := v.sp;
      fp := v.fp;
      return Ok(Some(ra));
    }
  }

  // ----- the rules' meaning, in unbounded integers -----

  /** Where a rule takes a register from: a value it already has, or a stack address. */
  datatype Source = Kept(value: U64) | Stored(address: int)

  /** What a rule says about the caller, with no width: `(sp, fp, lr) = ...`. */
  datatype Meaning = Meaning(sp: int, fp: Source, lr: Source)

  ghost function Fetch(source: Source, stack: Stack): Option<U64> {
    match source
    case Kept(v) => Some(v)
    case Stored(a) => if FitsU64(a) && a in stack then Some(stack[a]) else None
  }

  ghost function MeaningOf(rule: Rule, isFirstFrame: bool, regs: Regs): Meaning {
    var Regs(_, lr, sp, fp) := regs;
    var frameRecord := Meaning(fp + 16, Stored(fp), Stored(fp + 8));
    match rule
    case NoOp => Meaning(sp, Kept(fp), Kept(lr))
    case NoOpIfFirstFrameOtherwiseFp => if isFirstFrame then Meaning(sp, Kept(fp), Kept(lr)) else frameRecord
    case OffsetSp(x) => Meaning(sp + 16 * x, Kept(fp), Kept(lr))
    case OffsetSpIfFirstFrameOtherwiseStackEndsHere(x) => Meaning(sp + 16 * x, Kept(fp), Kept(lr))
    case OffsetSpAndRestoreLr(x, y) => Meaning(sp + 16 * x, Kept(fp), Stored(sp + 8 * y))
    case OffsetSpAndRestoreFpAndLr(x, y, z) => Meaning(sp + 16 * x, Stored(sp + 8 * y), Stored(sp + 8 * z))
    case UseFramePointer => frameRecord
    case UseFramepointerWithOffsets(x, y, z) => Meaning(fp + 8 * x, Stored(fp + 8 * y), Stored(fp + 8 * z))
  }

  /** Rules which take the return address from the lr register are for the first frame only. */
  ghost predicate AllowedHere(rule: Rule, isFirstFrame: bool) {
    rule.NoOp? || rule.OffsetSp? || rule.OffsetSpIfFirstFrameOtherwiseStackEndsHere? ==> isFirstFrame
  }

  ghost predicate WalksFramePointers(rule: Rule) {
    rule.UseFramePointer? || rule.UseFramepointerWithOffsets?
  }

  /** The new values a rule means can be fetched without leaving the u64 range. */
  ghost predicate Fetchable(m: Meaning, stack: Stack) {
    FitsU64(m.sp) && Fetch(m.fp, stack).Some? && Fetch(m.lr, stack).Some?
  }

  /** The checks `exec` makes on the fetched values. */
  ghost predicate Accepted(rule: Rule, isFirstFrame: bool, regs: Regs, m: Meaning, fp: U64, lr: U64) {
    && StripPtrAuth(regs.mask, lr) != 0
    && (WalksFramePointers(rule) ==> fp > regs.fp && m.sp > regs.sp)
    && (!isFirstFrame ==> m.sp > regs.sp)
  }

  /** `ComputeNewValues` delivers the values of the rule's formulas, exactly when it may. */
  ghost predicate DeliversMeaning(rule: Rule, isFirstFrame: bool, regs: Regs, stack: Stack) {
    var m := MeaningOf(rule, isFirstFrame, regs);
    var c := ComputeNewValues(rule, isFirstFrame, regs, stack);
    && (c.Ok? && c.value.Some? <==>
          && AllowedHere(rule, isFirstFrame)
          && Fetchable(m, stack)
          && (WalksFramePointers(rule) ==> Fetch(m.fp, stack).value > regs.fp && m.sp > regs.sp)
          && (rule.NoOpIfFirstFrameOtherwiseFp? && !isFirstFrame ==> m.sp > regs.sp))
    && (c.Ok? && c.value.Some? ==>
          && c.value.value.sp == m.sp
          && Fetch(m.fp, stack) == Some(c.value.value.fp)
          && Fetch(m.lr, stack) == Some(c.value.value.lr))
  }

  lemma StackPointerRulesDeliver(rule: Rule, isFirstFrame: bool, regs: Regs, stack: Stack)
    requires !WalksFramePointers(rule)
    ensures DeliversMeaning(rule, isFirstFrame, regs, stack)
  {
    hide ReadAt;
    match rule
    case NoOp =>
    case NoOpIfFirstFrameOtherwiseFp =>
    case OffsetSp(x) =>
    case OffsetSpIfFirstFrameOtherwiseStackEndsHere(x) =>
    case OffsetSpAndRestoreLr(x, y) =>
    case OffsetSpAndRestoreFpAndLr(x, y, z) =>
  }

  lemma FramePointerRulesDeliver(rule: Rule, isFirstFrame: bool, regs: Regs, stack: Stack)
    requires WalksFramePointers(rule)
    ensures DeliversMeaning(rule, isFirstFrame, regs, stack)
  {
    hide ReadAt;
    match rule
    case UseFramePointer =>
    case UseFramepointerWithOffsets(x, y, z) =>
  }

  /** `exec` finds a caller exactly when the rule's unbounded formulas are in range, readable and
      pass the checks; then the registers are those formulas. No wrapped value is ever used. */
  lemma ExecFollowsMeaning(rule: Rule, isFirstFrame: bool, regs: Regs, stack: Stack)
    ensures var m := MeaningOf(rule, isFirstFrame, regs);
      var o := Exec(rule, isFirstFrame, regs, stack);
      && (o.FoundCaller() <==>
            && AllowedHere(rule, isFirstFrame)
            && Fetchable(m, stack)
            && Accepted(rule, isFirstFrame, regs, m, Fetch(m.fp, stack).value, Fetch(m.lr, stack).value))
      && (o.FoundCaller() ==>
            && o.regs.sp == m.sp
            && Some(o.regs.fp) == Fetch(m.fp, stack)
            && o.result.value.value == o.regs.lr == StripPtrAuth(regs.mask, Fetch(m.lr, stack).value)
            && o.regs.mask == regs.mask)
      && (!o.FoundCaller() ==> o.regs == regs)
  {
    if WalksFramePointers(rule) {
      FramePointerRulesDeliver(rule, isFirstFrame, regs, stack);
    } else {
      StackPointerRulesDeliver(rule, isFirstFrame, regs, stack);
    }
  }

  /** The caller's frame record is in the right direction, where the rule insists on that. */
  ghost predicate Forward(rule: Rule, isFirstFrame: bool, regs: Regs, m: Meaning, fp: U64) {
    && (WalksFramePointers(rule) ==> fp > regs.fp && m.sp > regs.sp)
    && (rule.NoOpIfFirstFrameOtherwiseFp? && !isFirstFrame ==> m.sp > regs.sp)
  }

  /** The stack ends exactly where the rule says so, at a null frame pointer in a chain of frame
      pointers, or at a null return address. */
  lemma ExecEndsExactly(rule: Rule, isFirstFrame: bool, regs: Regs, stack: Stack)
    ensures var m := MeaningOf(rule, isFirstFrame, regs);
      Exec(rule, isFirstFrame, regs, stack).result == Ok(None) <==>
        || (rule.OffsetSpIfFirstFrameOtherwiseStackEndsHere? && !isFirstFrame)
        || (&& AllowedHere(rule, isFirstFrame) && Fetchable(m, stack)
            && var fp, lr := Fetch(m.fp, stack).value, Fetch(m.lr, stack).value;
               || (WalksFramePointers(rule) && fp == 0)
               || (Forward(rule, isFirstFrame, regs, m, fp) && StripPtrAuth(regs.mask, lr) == 0))
  {
    hide ReadAt, BitAnd;
    if WalksFramePointers(rule) {
      FramePointerRulesDeliver(rule, isFirstFrame, regs, stack);
      FramePointerRulesEnd(rule, isFirstFrame, regs, stack);
    } else {
      StackPointerRulesDeliver(rule, isFirstFrame, regs, stack);
      StackPointerRulesEnd(rule, isFirstFrame, regs, stack);
    }
    hide ComputeNewValues, MeaningOf;
  }

  lemma StackPointerRulesEnd(rule: Rule, isFirstFrame: bool, regs: Regs, stack: Stack)
    requires !WalksFramePointers(rule)
    ensures ComputeNewValues(rule, isFirstFrame, regs, stack) == Ok(None) <==>
      rule.OffsetSpIfFirstFrameOtherwiseStackEndsHere? && !isFirstFrame
  {
    hide ReadAt;
  }

  lemma FramePointerRulesEnd(rule: Rule, isFirstFrame: bool, regs: Regs, stack: Stack)
    requires WalksFramePointers(rule)
    ensures var m := MeaningOf(rule, isFirstFrame, regs);
      ComputeNewValues(rule, isFirstFrame, regs, stack) == Ok(None) <==>
        Fetchable(m, stack) && Fetch(m.fp, stack) == Some(0)
  {
    hide ReadAt;
  }

  /** The error says what is the matter: the address is one that the rule needs and that cannot be read; a
      formula of the rule leaves the u64 range; or sp or fp would not move forward. */
  ghost predicate IsTrue(error: Error, rule: Rule, isFirstFrame: bool, regs: Regs, stack: Stack) {
    var m := MeaningOf(rule, isFirstFrame, regs);
    match error
    case CouldNotReadStack(a) => a !in stack && (m.lr == Stored(a) || m.fp == Stored(a))
    case IntegerOverflow =>
      || !FitsU64(m.sp)
      || (m.lr.Stored? && !FitsU64(m.lr.address))
      || (m.fp.Stored? && !FitsU64(m.fp.address))
    case DidNotAdvance => !isFirstFrame && (AllowedHere(rule, isFirstFrame) ==> m.sp == regs.sp)
    case FramepointerUnwindingMovedBackwards =>
      Fetchable(m, stack) && !Forward(rule, isFirstFrame, regs, m, Fetch(m.fp, stack).value)
    case ReturnAddressIsNull => false
  }

  lemma ErrorsOfStackPointerRules(rule: Rule, isFirstFrame: bool, regs: Regs, stack: Stack)
    requires !WalksFramePointers(rule) && ComputeNewValues(rule, isFirstFrame, regs, stack).Err?
    ensures IsTrue(ComputeNewValues(rule, isFirstFrame, regs, stack).error, rule, isFirstFrame, regs, stack)
  {
    hide ReadAt;
  }

  lemma ErrorsOfFramePointerRules(rule: Rule, isFirstFrame: bool, regs: Regs, stack: Stack)
    requires WalksFramePointers(rule) && ComputeNewValues(rule, isFirstFrame, regs, stack).Err?
    ensures IsTrue(ComputeNewValues(rule, isFirstFrame, regs, stack).error, rule, isFirstFrame, regs, stack)
  {
    hide ReadAt;
  }

  lemma ErrorsAreTrue(rule: Rule, isFirstFrame: bool, regs: Regs, stack: Stack)
    requires Exec(rule, isFirstFrame, regs, stack).result.Err?
    ensures IsTrue(Exec(rule, isFirstFrame, regs, stack).result.error, rule, isFirstFrame, regs, stack)
  {
    hide ComputeNewValues, MeaningOf, BitAnd;
    var c := ComputeNewValues(rule, isFirstFrame, regs, stack);
    if WalksFramePointers(rule) {
      FramePointerRulesDeliver(rule, isFirstFrame, regs, stack);
      if c.Err? {
        ErrorsOfFramePointerRules(rule, isFirstFrame, regs, stack);
      }
    } else {
      StackPointerRulesDeliver(rule, isFirstFrame, regs, stack);
      if c.Err? {
        ErrorsOfStackPointerRules(rule, isFirstFrame, regs, stack);
      }
    }
  }

  /** From the second frame on, every step which finds a caller strictly raises sp. The return
      address is never null, and stripping it again changes nothing. */
  lemma ExecMakesProgress(rule: Rule, isFirstFrame: bool, regs: Regs, stack: Stack)
    requires Exec(rule, isFirstFrame, regs, stack).FoundCaller()
    ensures var o := Exec(rule, isFirstFrame, regs, stack);
      && (!isFirstFrame ==> o.regs.sp > regs.sp)
      && o.result.value.value != 0
      && o.regs.lr == o.result.value.value
      && StripPtrAuth(regs.mask, o.regs.lr) == o.regs.lr
  {
    ExecFollowsMeaning(rule, isFirstFrame, regs, stack);
    var m := MeaningOf(rule, isFirstFrame, regs);
    StripIsIdempotent(regs.mask, Fetch(m.lr, stack).value);
  }
}
