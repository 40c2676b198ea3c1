/** What the x86_64 rules mean in unbounded integers, and why runs of them terminate. */
module X86Progress {
  import opened Words
  import opened Frames
  import opened X86Regs
  import opened RegisterOrdering
  import opened CalleeSaved
  import opened X86Rule

  /** The registers a rule pops, in order. */
  function PopList(rule: Rule): seq<Reg>
    requires ValidRule(rule)
  {
    if rule.OffsetSpAndPopRegisters? then Decoded(rule.count, rule.code) else []
  }

  /** The rule follows the frame pointer. */
  predicate FollowsBp(rule: Rule, isFirstFrame: bool) {
    rule.UseFramePointer? || (rule.JustReturnIfFirstFrameOtherwiseFp? && !isFirstFrame)
  }

  /** The caller's sp by the rule's formula, with no width. */
  function MeantSp(rule: Rule, isFirstFrame: bool, regs: Regs): int
    requires ValidRule(rule)
  {
    var sp, bp := regs.Sp(), regs.Bp();
    if FollowsBp(rule, isFirstFrame) then bp + 16
    else match rule
    case OffsetSp(x) => sp + 8 * x
    case OffsetSpAndRestoreBp(x, _) => sp + 8 * x
    case OffsetSpAndPopRegisters(x, _, _) => sp + 8 * (x + |PopList(rule)| + 1)
    case _ => sp + 8
  }

  /** Where the rule finds the caller's bp, if it restores it from a fixed slot. */
  function MeantBpSlot(rule: Rule, isFirstFrame: bool, regs: Regs): Option<int> {
    if FollowsBp(rule, isFirstFrame) then Some(regs.Bp() as int)
    else if rule.OffsetSpAndRestoreBp? then Some(regs.Sp() + 8 * rule.bpBy8)
    else None
  }

  predicate Readable(stack: Stack, address: int) { FitsU64(address) && address in stack }

  /** A slot the rule needs can be read, or the failure to read it is forgiven. */
  predicate BpSlotUsable(rule: Rule, isFirstFrame: bool, regs: Regs, stack: Stack) {
    match MeantBpSlot(rule, isFirstFrame, regs)
    case None => true
    case Some(slot) =>
      Readable(stack, slot) || (rule.OffsetSpAndRestoreBp? && isFirstFrame && 0 <= slot < regs.Sp())
  }

  /** The bp a rule that pops nothing gives the caller. */
  function MeantBp(rule: Rule, isFirstFrame: bool, regs: Regs, stack: Stack): U64 {
    var slot := MeantBpSlot(rule, isFirstFrame, regs);
    if slot.Some? && Readable(stack, slot.value) then stack[slot.value] else regs.Bp()
  }

  /** Slot number `i` of the stack above `base`. */
  function Slot(base: int, i: int): int { base + 8 * i }

  /** `n` slots above `base` can be read. */
  predicate SlotsReadable(stack: Stack, base: int, n: nat) {
    forall i :: 0 <= i < n ==> Readable(stack, Slot(base, i))
  }

  /** Where popping begins. */
  function PopBase(rule: Rule, regs: Regs): int {
    if rule.OffsetSpAndPopRegisters? then Slot(regs.Sp(), rule.spBy8) else regs.Sp() as int
  }

  /** The direction checks of frame pointer walking, and the rule that only ends the stack. */
  predicate Permitted(rule: Rule, isFirstFrame: bool, regs: Regs) {
    && !rule.EndOfStack?
    && (rule.UseFramePointer? ==> regs.Bp() != 0)
    && (FollowsBp(rule, isFirstFrame) ==> regs.Bp() + 16 > regs.Sp())
  }

  /** Where the return address is: right below the new sp. The subtraction wraps around below 8. */
  function ReturnSlot(sp: int): int {
    if sp < 8 then sp - 8 + TWO64 else sp - 8
  }

  /** A new sp which is in range and has a return address below it that is neither null nor the
      unchanged position. */
  predicate ReturnsAt(sp: int, regs: Regs, stack: Stack) {
    && FitsU64(sp) && Readable(stack, ReturnSlot(sp))
    && stack[ReturnSlot(sp)] != 0
    && (sp == regs.Sp() ==> stack[ReturnSlot(sp)] != regs.ip)
  }

  /** Everything `exec` checks, in unbounded integers. */
  predicate CallerExists(rule: Rule, isFirstFrame: bool, regs: Regs, stack: Stack)
    requires ValidRule(rule)
  {
    && Permitted(rule, isFirstFrame, regs)
    && BpSlotUsable(rule, isFirstFrame, regs, stack)
    && SlotsReadable(stack, PopBase(rule, regs), |PopList(rule)|)
    && ReturnsAt(MeantSp(rule, isFirstFrame, regs), regs, stack)
  }

  /** Each listed register holds the slot of its position. */
  predicate PoppedInto(list: seq<Reg>, base: int, stack: Stack, after: Regs)
    requires SlotsReadable(stack, base, |list|)
  {
    forall i :: 0 <= i < |list| ==> after.Get(list[i]) == stack[Slot(base, i)]
  }

  /** The registers after a step to a caller. */
  predicate MeantRegs(rule: Rule, isFirstFrame: bool, regs: Regs, stack: Stack, after: Regs)
    requires ValidRule(rule) && CallerExists(rule, isFirstFrame, regs, stack)
  {
    && after.Sp() == MeantSp(rule, isFirstFrame, regs)
    && after.ip == stack[ReturnSlot(after.Sp())]
    && PoppedInto(PopList(rule), PopBase(rule, regs), stack, after)
    && (forall r: Reg :: r != RSP && r != RBP && r !in PopList(rule) ==> after.Get(r) == regs.Get(r))
    && (RBP !in PopList(rule) ==> after.Bp() == MeantBp(rule, isFirstFrame, regs, stack))
  }

  /** The pop list is duplicate-free and never contains the stack pointer. */
  lemma PopListFacts(rule: Rule)
    requires ValidRule(rule)
    ensures Distinct(PopList(rule)) && RSP !in PopList(rule) && |PopList(rule)| <= 8
  {
    if rule.OffsetSpAndPopRegisters? {
      TableFacts();
      DecodableExactly(ENCODE_REGISTERS, rule.code);
      EncodeUndoesDecode(ENCODE_REGISTERS, rule.code);
      var whole := DecodeIn(ENCODE_REGISTERS, rule.code).value;
      EncodableExactly(ENCODE_REGISTERS, whole);
      hide EncodeIn, DecodeIn;
      assert forall x :: x in PopList(rule) ==> x in whole;
    }
  }

  /** The slots above the first one. */
  lemma SlotsAbove(stack: Stack, base: int, n: nat)
    requires 0 < n
    ensures SlotsReadable(stack, base, n) <==> Readable(stack, base) && SlotsReadable(stack, base + 8, n - 1)
  {
    assert Slot(base, 0) == base;
    assert forall i {:trigger Slot(base + 8, i)} :: Slot(base + 8, i) == Slot(base, i + 1);
    if Readable(stack, base) && SlotsReadable(stack, base + 8, n - 1) {
      forall i | 0 <= i < n ensures Readable(stack, Slot(base, i)) {
        if i != 0 {
          assert Readable(stack, Slot(base + 8, i - 1));
        }
      }
    }
  }

  /** The popping loop succeeds exactly if all slots can be read and the end is in range. It touches
      neither ip nor sp, nor any register outside the list. */
  lemma {:induction false} PopAllSucceeds(list: seq<Reg>, sp: U64, regs: Regs, stack: Stack)
    requires RSP !in list
    ensures var p := PopAll(list, sp, regs, stack);
      && (p.sp.Ok? <==> FitsU64(sp + 8 * |list|) && SlotsReadable(stack, sp, |list|))
      && (p.sp.Ok? ==> p.sp.value == sp + 8 * |list|)
      && p.regs.ip == regs.ip && p.regs.Sp() == regs.Sp()
      && forall r: Reg :: r !in list ==> p.regs.Get(r) == regs.Get(r)
    decreases |list|
  {
    if list != [] {
      SlotsAbove(stack, sp, |list|);
      if sp in stack && FitsU64(sp + 8) {
        hide SlotsReadable;
        PopAllSucceeds(list[1..], sp + 8, regs.Set(list[0], stack[sp]), stack);
      }
    }
  }

  /** Each popped register gets its own slot. */
  lemma {:induction false} PopAllFollowsSlots(list: seq<Reg>, sp: U64, regs: Regs, stack: Stack)
    requires Distinct(list) && RSP !in list && PopAll(list, sp, regs, stack).sp.Ok?
    ensures SlotsReadable(stack, sp, |list|)
    ensures PoppedInto(list, sp, stack, PopAll(list, sp, regs, stack).regs)
    decreases |list|
  {
    PopAllSucceeds(list, sp, regs, stack);
    if list != [] {
      var rest, next := list[1..], regs.Set(list[0], stack[sp]);
      PopAllFollowsSlots(rest, sp + 8, next, stack);
      PopAllSucceeds(rest, sp + 8, next, stack);
      var after := PopAll(rest, sp + 8, next, stack).regs;
      assert list[0] !in rest;
      forall i | 0 <= i < |list| ensures after.Get(list[i]) == stack[Slot(sp, i)] {
        if i == 0 {
          assert after.Get(list[0]) == next.Get(list[0]);
        } else {
          assert Slot(sp, i) == Slot(sp + 8, i - 1) && rest[i - 1] == list[i];
        }
      }
    }
  }

  lemma ReturnToFollowsMeaning(t: Target, oldSp: U64, regs: Regs, stack: Stack)
    ensures var o := ReturnTo(t, oldSp, regs, stack);
      && (o.FoundCaller() <==>
            && ReturnSlot(t.sp) in stack && stack[ReturnSlot(t.sp)] != 0
            && (t.sp == oldSp ==> stack[ReturnSlot(t.sp)] != regs.ip))
      && (o.FoundCaller() ==>
            && o.result.value.value == stack[ReturnSlot(t.sp)]
            && o.regs == regs.(ip := stack[ReturnSlot(t.sp)]).Set(RSP, t.sp).Set(RBP, t.bp))
  {
  }

  lemma PoppedIntoSame(list: seq<Reg>, base: int, stack: Stack, p: Regs, after: Regs)
    requires SlotsReadable(stack, base, |list|) && PoppedInto(list, base, stack, p)
    requires RSP !in list && forall r: Reg :: r != RSP ==> after.Get(r) == p.Get(r)
    ensures PoppedInto(list, base, stack, after)
  {
  }

  lemma ExecPopsFollowsMeaning(rule: Rule, isFirstFrame: bool, regs: Regs, stack: Stack)
    requires ValidRule(rule) && rule.OffsetSpAndPopRegisters?
    ensures ExecFollows(rule, isFirstFrame, regs, stack)
  {
    hide Decoded, PopAll, ReturnTo, SlotsReadable, PoppedInto, Distinct;
    PopListFacts(rule);
    var list, base := PopList(rule), PopBase(rule, regs);
    if FitsU64(base) {
      PopAllSucceeds(list, base, regs, stack);
      var p := PopAll(list, base, regs, stack);
      if p.sp.Ok? && FitsU64(p.sp.value + 8) {
        var t := Target(p.sp.value + 8, p.regs.Bp());
        PopAllFollowsSlots(list, base, regs, stack);
        ReturnToFollowsMeaning(t, regs.Sp(), p.regs, stack);
        var after := p.regs.(ip := ReturnTo(t, regs.Sp(), p.regs, stack).regs.ip).Set(RSP, t.sp).Set(RBP, t.bp);
        PoppedIntoSame(list, base, stack, p.regs, after);
      }
    }
  }

  /** `exec` finds a caller exactly when the unbounded formulas of the rule lead to one, and then the
      registers are those formulas. */
  ghost predicate ExecFollows(rule: Rule, isFirstFrame: bool, regs: Regs, stack: Stack)
    requires ValidRule(rule)
  {
    var o := Exec(rule, isFirstFrame, regs, stack);
    && (o.FoundCaller() <==> CallerExists(rule, isFirstFrame, regs, stack))
    && (o.FoundCaller() ==>
          && MeantRegs(rule, isFirstFrame, regs, stack, o.regs)
          && o.result.value.value == o.regs.ip)
  }

  lemma TargetFollowsMeaning(rule: Rule, isFirstFrame: bool, regs: Regs, stack: Stack)
    requires !rule.OffsetSpAndPopRegisters?
    ensures var c := ComputeTarget(rule, isFirstFrame, regs, stack);
      && (c.Ok? && c.value.Some? <==>
            && Permitted(rule, isFirstFrame, regs)
            && BpSlotUsable(rule, isFirstFrame, regs, stack)
            && FitsU64(MeantSp(rule, isFirstFrame, regs)))
      && (c.Ok? && c.value.Some? ==>
            c.value.value == Target(MeantSp(rule, isFirstFrame, regs), MeantBp(rule, isFirstFrame, regs, stack)))
  {
    hide WrappingAddSigned, Decoded;
  }

  lemma NothingPopped(base: int, stack: Stack, after: Regs)
    ensures SlotsReadable(stack, base, 0) && PoppedInto([], base, stack, after)
  {
  }

  lemma ExecTargetFollowsMeaning(rule: Rule, isFirstFrame: bool, regs: Regs, stack: Stack)
    requires !rule.OffsetSpAndPopRegisters?
    ensures ExecFollows(rule, isFirstFrame, regs, stack)
  {
    TargetFollowsMeaning(rule, isFirstFrame, regs, stack);
    hide ReturnTo, ComputeTarget, MeantSp, BpSlotUsable, Permitted, MeantBp, SlotsReadable, PoppedInto, Decoded;
    var o, c := Exec(rule, isFirstFrame, regs, stack), ComputeTarget(rule, isFirstFrame, regs, stack);
    NothingPopped(PopBase(rule, regs), stack, o.regs);
    if c.Ok? && c.value.Some? {
      assert o == ReturnTo(c.value.value, regs.Sp(), regs, stack);
      hide Exec;
      ReturnToFollowsMeaning(c.value.value, regs.Sp(), regs, stack);
    } else {
      assert !o.FoundCaller();
    }
  }

  /** Every slot read and the new sp are the unbounded formulas of the rule. */
  lemma ExecFollowsMeaning(rule: Rule, isFirstFrame: bool, regs: Regs, stack: Stack)
    requires ValidRule(rule)
    ensures ExecFollows(rule, isFirstFrame, regs, stack)
  {
    if rule.OffsetSpAndPopRegisters? {
      ExecPopsFollowsMeaning(rule, isFirstFrame, regs, stack);
    } else {
      ExecTargetFollowsMeaning(rule, isFirstFrame, regs, stack);
    }
  }

  /** The one wrapped value that `exec` ever uses: the slot of the return address, exactly if sp is below 8 and
      the rule does not move it. */
  lemma ReturnSlotWrapsExactly(rule: Rule, isFirstFrame: bool, regs: Regs)
    requires ValidRule(rule) && Permitted(rule, isFirstFrame, regs)
    ensures ReturnSlot(MeantSp(rule, isFirstFrame, regs)) != MeantSp(rule, isFirstFrame, regs) - 8 <==>
      regs.Sp() < 8 && (rule == OffsetSp(0) || (rule.OffsetSpAndRestoreBp? && rule.spBy8 == 0))
  {
    hide Decoded;
  }

  /** The stack ends exactly where the rule says so, at a null frame pointer, or at a null return
      address in a slot that all checks allow to be read. */
  ghost predicate EndsStack(rule: Rule, isFirstFrame: bool, regs: Regs, stack: Stack)
    requires ValidRule(rule)
  {
    var sp := MeantSp(rule, isFirstFrame, regs);
    || rule.EndOfStack?
    || (rule.UseFramePointer? && regs.Bp() == 0)
    || (&& Permitted(rule, isFirstFrame, regs)
        && BpSlotUsable(rule, isFirstFrame, regs, stack)
        && SlotsReadable(stack, PopBase(rule, regs), |PopList(rule)|)
        && FitsU64(sp) && Readable(stack, ReturnSlot(sp)) && stack[ReturnSlot(sp)] == 0)
  }

  lemma ReturnToEndsExactly(t: Target, oldSp: U64, regs: Regs, stack: Stack)
    ensures ReturnTo(t, oldSp, regs, stack).result == Ok(None) <==>
      ReturnSlot(t.sp) in stack && stack[ReturnSlot(t.sp)] == 0
  {
  }

  lemma ExecPopsEndsExactly(rule: Rule, isFirstFrame: bool, regs: Regs, stack: Stack)
    requires ValidRule(rule) && rule.OffsetSpAndPopRegisters?
    ensures Exec(rule, isFirstFrame, regs, stack).result == Ok(None) <==> EndsStack(rule, isFirstFrame, regs, stack)
  {
    hide Decoded, PopAll, ReturnTo, SlotsReadable, Distinct;
    PopListFacts(rule);
    var list, base := PopList(rule), PopBase(rule, regs);
    if FitsU64(base) {
      PopAllSucceeds(list, base, regs, stack);
      var p := PopAll(list, base, regs, stack);
      if p.sp.Ok? && FitsU64(p.sp.value + 8) {
        ReturnToEndsExactly(Target(p.sp.value + 8, p.regs.Bp()), regs.Sp(), p.regs, stack);
      }
    }
  }

  lemma ExecEndsExactly(rule: Rule, isFirstFrame: bool, regs: Regs, stack: Stack)
    requires ValidRule(rule)
    ensures Exec(rule, isFirstFrame, regs, stack).result == Ok(None) <==> EndsStack(rule, isFirstFrame, regs, stack)
  {
    if rule.OffsetSpAndPopRegisters? {
      ExecPopsEndsExactly(rule, isFirstFrame, regs, stack);
    } else {
      TargetFollowsMeaning(rule, isFirstFrame, regs, stack);
      var c := ComputeTarget(rule, isFirstFrame, regs, stack);
      assert c == Ok(None) <==> rule.EndOfStack? || (rule.UseFramePointer? && regs.Bp() == 0);
      hide ReturnTo, ComputeTarget, MeantSp, BpSlotUsable, WrapU64, MeantBp, SlotsReadable, Decoded;
      NothingPopped(PopBase(rule, regs), stack, regs);
      if c.Ok? && c.value.Some? {
        ReturnToEndsExactly(c.value.value, regs.Sp(), regs, stack);
      }
    }
  }

  /** A slot that the rule pops from cannot be read. */
  ghost predicate PopFails(rule: Rule, regs: Regs, address: int)
    requires ValidRule(rule)
  {
    exists i :: 0 <= i < |PopList(rule)| && Slot(PopBase(rule, regs), i) == address
  }

  /** The error says what is the matter: the address is the bp slot, a popped slot or the slot of the
      return address, and cannot be read; a formula of the rule leaves the u64 range; bp lies below
      sp; or neither sp nor ip would change. */
  ghost predicate IsTrue(error: Error, rule: Rule, isFirstFrame: bool, regs: Regs, stack: Stack)
    requires ValidRule(rule)
  {
    var sp, bpSlot := MeantSp(rule, isFirstFrame, regs), MeantBpSlot(rule, isFirstFrame, regs);
    match error
    case CouldNotReadStack(a) =>
      a !in stack && (bpSlot == Some(a as int) || PopFails(rule, regs, a) || a == ReturnSlot(sp))
    case IntegerOverflow => !FitsU64(sp) || (bpSlot.Some? && !FitsU64(bpSlot.value))
    case FramepointerUnwindingMovedBackwards => FollowsBp(rule, isFirstFrame) && sp <= regs.Sp()
    case DidNotAdvance => sp == regs.Sp() && Readable(stack, ReturnSlot(sp)) && stack[ReturnSlot(sp)] == regs.ip
    case ReturnAddressIsNull => false
  }

  predicate FailsAt(slot: int, error: Error, stack: Stack) {
    FitsU64(slot) && slot !in stack && error == CouldNotReadStack(slot)
  }

  lemma {:induction false} ErrorsOfPops(list: seq<Reg>, sp: U64, regs: Regs, stack: Stack)
    ensures var p := PopAll(list, sp, regs, stack);
      p.sp.Err? ==>
        || (p.sp.error == IntegerOverflow && !FitsU64(Slot(sp, |list|)))
        || exists i :: 0 <= i < |list| && FailsAt(Slot(sp, i), p.sp.error, stack)
    decreases |list|
  {
    if list != [] {
      if sp !in stack {
        assert Slot(sp, 0) == sp;
      } else if FitsU64(sp + 8) {
        var next := regs.Set(list[0], stack[sp]);
        ErrorsOfPops(list[1..], sp + 8, next, stack);
        var p := PopAll(list[1..], sp + 8, next, stack);
        assert Slot(sp + 8, |list[1..]|) == Slot(sp, |list|);
        if p.sp.Err? && p.sp.error != IntegerOverflow {
          var i :| 0 <= i < |list[1..]| && FailsAt(Slot(sp + 8, i), p.sp.error, stack);
          assert Slot(sp + 8, i) == Slot(sp, i + 1);
        }
      }
    }
  }

  lemma ErrorsOfReturn(t: Target, oldSp: U64, regs: Regs, stack: Stack)
    requires ReturnTo(t, oldSp, regs, stack).result.Err?
    ensures match ReturnTo(t, oldSp, regs, stack).result.error
      case CouldNotReadStack(a) => a == ReturnSlot(t.sp) && a !in stack
      case DidNotAdvance => t.sp == oldSp && ReturnSlot(t.sp) in stack && stack[ReturnSlot(t.sp)] == regs.ip
      case _ => false
  {
  }

  lemma ErrorsOfTargets(rule: Rule, isFirstFrame: bool, regs: Regs, stack: Stack)
    requires !rule.OffsetSpAndPopRegisters? && ComputeTarget(rule, isFirstFrame, regs, stack).Err?
    ensures IsTrue(ComputeTarget(rule, isFirstFrame, regs, stack).error, rule, isFirstFrame, regs, stack)
  {
    hide WrappingAddSigned, Decoded;
  }

  lemma ErrorsOfExecPops(rule: Rule, isFirstFrame: bool, regs: Regs, stack: Stack)
    requires ValidRule(rule) && rule.OffsetSpAndPopRegisters? && Exec(rule, isFirstFrame, regs, stack).result.Err?
    ensures IsTrue(Exec(rule, isFirstFrame, regs, stack).result.error, rule, isFirstFrame, regs, stack)
  {
    hide Decoded, PopAll, ReturnTo, SlotsReadable, Distinct;
    PopListFacts(rule);
    var list, base := PopList(rule), PopBase(rule, regs);
    if FitsU64(base) {
      PopAllSucceeds(list, base, regs, stack);
      ErrorsOfPops(list, base, regs, stack);
      var p := PopAll(list, base, regs, stack);
      if p.sp.Ok? && FitsU64(p.sp.value + 8) {
        ErrorsOfReturn(Target(p.sp.value + 8, p.regs.Bp()), regs.Sp(), p.regs, stack);
      }
    }
  }

  lemma ErrorsAreTrue(rule: Rule, isFirstFrame: bool, regs: Regs, stack: Stack)
    requires ValidRule(rule) && Exec(rule, isFirstFrame, regs, stack).result.Err?
    ensures IsTrue(Exec(rule, isFirstFrame, regs, stack).result.error, rule, isFirstFrame, regs, stack)
  {
    if rule.OffsetSpAndPopRegisters? {
      ErrorsOfExecPops(rule, isFirstFrame, regs, stack);
    } else {
      TargetFollowsMeaning(rule, isFirstFrame, regs, stack);
      hide ReturnTo, ComputeTarget, MeantSp, BpSlotUsable, WrapU64, MeantBp, Decoded;
      var c := ComputeTarget(rule, isFirstFrame, regs, stack);
      if c.Err? {
        ErrorsOfTargets(rule, isFirstFrame, regs, stack);
      } else if c.value.Some? {
        ErrorsOfReturn(c.value.value, regs.Sp(), regs, stack);
      }
    }
  }

  // ----- progress -----

  /** The return address that led here is still right below the stack pointer. (Below 8, that is at
      the top of the address space, as for the wrapping subtraction in `exec`.) */
  predicate JustReturned(regs: Regs, stack: Stack) {
    WrapU64(regs.Sp() - 8) in stack && stack[WrapU64(regs.Sp() - 8)] == regs.ip
  }

  lemma ReturnMakesProgress(t: Target, before: Regs, regs: Regs, stack: Stack)
    requires ReturnTo(t, before.Sp(), regs, stack).FoundCaller()
    requires before.Sp() <= t.sp && regs.ip == before.ip
    ensures var after := ReturnTo(t, before.Sp(), regs, stack).regs;
      && after.Sp() == t.sp
      && JustReturned(after, stack)
      && (JustReturned(before, stack) ==> before.Sp() < t.sp)
  {
    hide WrapU64;
  }

  lemma TargetIsNotBelow(rule: Rule, isFirstFrame: bool, regs: Regs, stack: Stack)
    requires !rule.OffsetSpAndPopRegisters?
    ensures var c := ComputeTarget(rule, isFirstFrame, regs, stack);
      c.Ok? && c.value.Some? ==> regs.Sp() <= c.value.value.sp
  {
    hide WrappingAddSigned;
  }

  /** A step never lowers sp, and leaves its return address right below the new sp. From such a
      state a further step strictly raises sp, whatever the rule and whatever the flag. */
  lemma ExecMakesProgress(rule: Rule, isFirstFrame: bool, regs: Regs, stack: Stack)
    requires ValidRule(rule) && Exec(rule, isFirstFrame, regs, stack).FoundCaller()
    ensures var after := Exec(rule, isFirstFrame, regs, stack).regs;
      && regs.Sp() <= after.Sp()
      && JustReturned(after, stack)
      && (JustReturned(regs, stack) ==> regs.Sp() < after.Sp())
  {
    if rule.OffsetSpAndPopRegisters? {
      PopListFacts(rule);
      var list, start := PopList(rule), regs.Sp() + rule.spBy8 * 8;
      PopAllSucceeds(list, start, regs, stack);
      var p := PopAll(list, start, regs, stack);
      hide PopAll, ReturnTo, Decoded, JustReturned, ComputeTarget, SlotsReadable;
      ReturnMakesProgress(Target(p.sp.value + 8, p.regs.Bp()), regs, p.regs, stack);
    } else {
      hide ReturnTo, JustReturned, ComputeTarget, Decoded;
      TargetIsNotBelow(rule, isFirstFrame, regs, stack);
      ReturnMakesProgress(ComputeTarget(rule, isFirstFrame, regs, stack).value.value, regs, regs, stack);
    }
  }

  datatype RuleStep = RuleStep(rule: Rule, isFirstFrame: bool)

  /** The registers after one successful step. */
  function After(step: RuleStep, regs: Regs, stack: Stack): Option<Regs> {
    if !ValidRule(step.rule) then None
    else
      var o := Exec(step.rule, step.isFirstFrame, regs, stack);
      if o.FoundCaller() then Some(o.regs) else None
  }

  /** The registers after a run in which every step succeeds. */
  function Run(steps: seq<RuleStep>, regs: Regs, stack: Stack): Option<Regs> {
    if steps == [] then Some(regs)
    else
      var next :- After(steps[0], regs, stack);
      Run(steps[1..], next, stack)
  }

  /** Every step of the run strictly raises sp, and ip == stack[sp - 8] holds all along. */
  predicate Climbs(steps: seq<RuleStep>, regs: Regs, stack: Stack) {
    && JustReturned(regs, stack)
    && (steps != [] ==>
          && After(steps[0], regs, stack).Some?
          && regs.Sp() < After(steps[0], regs, stack).value.Sp()
          && Climbs(steps[1..], After(steps[0], regs, stack).value, stack))
  }

  lemma AfterMakesProgress(step: RuleStep, regs: Regs, stack: Stack)
    requires After(step, regs, stack).Some?
    ensures var next := After(step, regs, stack).value;
      && regs.Sp() <= next.Sp()
      && JustReturned(next, stack)
      && (JustReturned(regs, stack) ==> regs.Sp() < next.Sp())
  {
    hide Exec, JustReturned;
    ExecMakesProgress(step.rule, step.isFirstFrame, regs, stack);
  }

  lemma {:induction false} RunsClimb(steps: seq<RuleStep>, regs: Regs, stack: Stack)
    requires Run(steps, regs, stack).Some? && JustReturned(regs, stack)
    ensures Climbs(steps, regs, stack)
    ensures Run(steps, regs, stack).value.Sp() >= regs.Sp() + |steps|
    decreases |steps|
  {
    hide After, JustReturned;
    if steps != [] {
      AfterMakesProgress(steps[0], regs, stack);
      RunsClimb(steps[1..], After(steps[0], regs, stack).value, stack);
    }
  }

  /** A run of any rules with any flags, from any registers: its first step does not lower sp, all later
      steps strictly raise it, and so it is no longer than the room above sp. */
  lemma RunsTerminate(steps: seq<RuleStep>, regs: Regs, stack: Stack)
    requires Run(steps, regs, stack).Some? && steps != []
    ensures var next := After(steps[0], regs, stack).value;
      regs.Sp() <= next.Sp() && Climbs(steps[1..], next, stack)
    ensures |steps| <= TWO64 - regs.Sp()
  {
    hide After, JustReturned, Climbs;
    AfterMakesProgress(steps[0], regs, stack);
    RunsClimb(steps[1..], After(steps[0], regs, stack).value, stack);
  }
}
