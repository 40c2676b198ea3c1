/** DWARF unwinding on x86_64: translating a row into a cacheable rule, and the generic path. */
module X86Dwarf {
  import opened Words
  import opened Frames
  import opened Dwarf
  import opened X86Regs
  import opened X86Rule
  import opened X86Progress

  const DWARF_RBP: Register := 6
  const DWARF_RSP: Register := 7
  const DWARF_RA: Register := 16

  datatype Row = Row(cfa: CfaRule, bp: RegisterRule, ra: RegisterRule)

  function DwarfView(regs: Regs): DwarfRegs {
    map[DWARF_RA := regs.ip, DWARF_RSP := regs.Sp(), DWARF_RBP := regs.Bp()]
  }

  function TranslateSpRow(bp: RegisterRule, offset: I64): Result<Rule, ConversionError> {
    var spBy8 :- TryU16(TruncDiv8(offset), SpOffsetDoesNotFit);
    var bpOffset :- RegisterRuleToCfaOffset(bp);
    match bpOffset
    case None => Ok(OffsetSp(spBy8))
    case Some(storage) =>
      var bpBy8 :- TryI16(TruncDiv8(WrapI64(offset + storage)), FpStorageOffsetDoesNotFit);
      Ok(OffsetSpAndRestoreBp(spBy8, bpBy8))
  }

  function TranslateBpRow(bp: RegisterRule, offset: I64): Result<Rule, ConversionError> {
    var bpOffset :- RegisterRuleToCfaOffset(bp);
    match bpOffset
    case None => Err(FramePointerRuleDoesNotRestoreBp)
    case Some(storage) =>
      if offset == 16 && storage == -16 then Ok(UseFramePointer) else Err(FramePointerRuleHasStrangeBpOffset)
  }

  function Translate(row: Row): Result<Rule, ConversionError> {
    match row.ra
    case Undefined => Ok(EndOfStack)
    case Offset(offset) =>
      if offset != -8 then Err(ReturnAddressRuleWithUnexpectedOffset)
      else (
        match row.cfa
        case RegisterAndOffset(register, cfaOffset) =>
          if register == DWARF_RSP then TranslateSpRow(row.bp, cfaOffset)
          else if register == DWARF_RBP then TranslateBpRow(row.bp, cfaOffset)
          else Err(CfaIsOffsetFromUnknownRegister)
        case CfaExpression(_) => Err(CfaIsExpression)
      )
    case _ => Err(ReturnAddressRuleWasWeird)
  }

  /** What the generic path recovers. */
  datatype Recovered = Recovered(ra: U64, regs: Regs)

  /** The return address by its rule, or from right below the CFA. */
  function RecoverReturnAddress(rule: RegisterRule, cfa: U64, regs: Regs, stack: Stack): Result<U64, DwarfError> {
    match EvalRegisterRule(rule, cfa, regs.ip, DwarfView(regs), stack)
    case Some(ra) => Ok(ra)
    case None =>
      var below := WrapU64(cfa - 8);
      if below in stack then Ok(stack[below]) else Err(CouldNotRecoverReturnAddress)
  }

  /** The slow, general evaluation of a row. The registers change only if it succeeds. */
  function EvalRow(row: Row, isFirstFrame: bool, regs: Regs, stack: Stack): Result<Recovered, DwarfError> {
    match EvalCfaRule(row.cfa, DwarfView(regs))
    case None => Err(CouldNotRecoverCfa)
    case Some(cfa) =>
      var newBp := EvalRegisterRule(row.bp, cfa, regs.Bp(), DwarfView(regs), stack).UnwrapOr(regs.Bp());
      var ra :- RecoverReturnAddress(row.ra, cfa, regs, stack);
      if cfa == regs.Sp() && ra == regs.ip then Err(DwarfDidNotAdvance)
      else if !isFirstFrame && cfa < regs.Sp() then Err(StackPointerMovedBackwards)
      else Ok(Recovered(ra, regs.(ip := ra).Set(RBP, newBp).Set(RSP, cfa)))
  }

  datatype UnwindResult = ExecRule(rule: Rule) | Uncacheable(recovered: Recovered)

  function UnwindRow(row: Row, isFirstFrame: bool, regs: Regs, stack: Stack): Result<UnwindResult, DwarfError> {
    match Translate(row)
    case Ok(rule) => Ok(UnwindResult.ExecRule(rule))
    case Err(_) =>
      var recovered :- EvalRow(row, isFirstFrame, regs, stack);
      Ok(Uncacheable(recovered))
  }

  /** `unwind_frame`, updating the registers in place on the generic path. */
  method UnwindRowInPlace(row: Row, isFirstFrame: bool, regs: UnwindRegs, stack: Stack)
    returns (r: Result<UnwindResult, DwarfError>)
    requires regs.Valid()
    modifies regs, regs.file
    ensures r == UnwindRow(row, isFirstFrame, old(regs.Values()), stack)
    ensures regs.Values() ==
      if r.Ok? && r.value.Uncacheable? then r.value.recovered.regs else old(regs.Values())
  {
    match Translate(row) {
      case Ok(rule) => return Ok(UnwindResult.ExecRule(rule));
      case Err(_) =>
    }
    var values := regs.Values();
    var cfa := EvalCfaRule(row.cfa, DwarfView(values));
    if cfa.None? {
      return Err(CouldNotRecoverCfa);
    }
    var newBp := EvalRegisterRule(row.bp, cfa.value, values.Bp(), DwarfView(values), stack).UnwrapOr(values.Bp());
    var ra :- RecoverReturnAddress(row.ra, cfa.value, values, stack);
    if cfa.value == values.Sp() && ra == regs.ip {
      return Err(DwarfDidNotAdvance);
    }
    if !isFirstFrame && cfa.value < values.Sp() {
      return Err(StackPointerMovedBackwards);
    }
    regs.ip := ra;
    regs.Set(RBP, newBp);
    regs.Set(RSP, cfa.value);
    return Ok(Uncacheable(Recovered(ra, regs.Values())));
  }

  // ----- the generic path does what rows say, whatever their rules -----

  /** The registers that rows may name: rbp, rsp and the return address by their DWARF numbers. */
  ghost function Named(regs: Regs): Register -> Option<U64> {
    (r: Register) =>
      if r == 6 then Some(regs.Get(RBP)) else if r == 7 then Some(regs.Get(RSP)) else if r == 16 then Some(regs.ip)
      else None
  }

  ghost function Evaluated(regs: Regs): Expr -> Option<U64> {
    (e: Expr) => e(DwarfView(regs))
  }

  /** What the row says about a register of the caller. */
  ghost function Says(rule: RegisterRule, cfa: int, val: U64, regs: Regs, stack: Stack): Option<U64> {
    Obtain(RuleMeaning(rule, cfa, val, Named(regs), Evaluated(regs)), stack)
  }

  lemma ViewHasNames(regs: Regs)
    ensures ViewOf(DwarfView(regs), Named(regs), Evaluated(regs))
  {
    var view := DwarfView(regs);
    assert view[6] == regs.Get(RBP) && view[7] == regs.Get(RSP) && view[16] == regs.ip;
    forall r | r in view ensures Named(regs)(r) == Some(view[r]) {
      assert r == 6 || r == 7 || r == 16;
    }
  }

  /** The return address: what the row says, or else what is right below the CFA. */
  ghost function SaysReturnAddress(row: Row, cfa: int, regs: Regs, stack: Stack): Option<U64> {
    var said := Says(row.ra, cfa, regs.ip, regs, stack);
    if said.Some? then said
    else if Readable(stack, ReturnSlot(cfa)) then Some(stack[ReturnSlot(cfa)])
    else None
  }

  lemma ReturnAddressFollowsRow(row: Row, cfa: U64, regs: Regs, stack: Stack)
    ensures RecoverReturnAddress(row.ra, cfa, regs, stack) ==
      var ra := SaysReturnAddress(row, cfa, regs, stack);
      if ra.Some? then Ok(ra.value) else Err(CouldNotRecoverReturnAddress)
  {
    hide EvalRegisterRule, RuleMeaning, Obtain, DwarfView, ViewOf;
    ViewHasNames(regs);
    EvaluationFollowsRules(row.ra, row.cfa, cfa, regs.ip, DwarfView(regs), stack, Named(regs), Evaluated(regs));
  }

  /** For every row, with or without expressions, on any register: the generic path gives the CFA as sp, the
      return address as ip, what the row says of bp, if anything, and keeps all other registers. It is an
      error if neither sp nor ip changes, and if sp goes down after the first frame. */
  lemma GenericPathFollowsRow(row: Row, isFirstFrame: bool, regs: Regs, stack: Stack)
    ensures EvalRow(row, isFirstFrame, regs, stack) ==
      match CfaMeaning(row.cfa, Named(regs), Evaluated(regs))
      case None => Err(CouldNotRecoverCfa)
      case Some(cfa) =>
        var bp, ra := Says(row.bp, cfa, regs.Bp(), regs, stack), SaysReturnAddress(row, cfa, regs, stack);
        if ra.None? then Err(CouldNotRecoverReturnAddress)
        else if cfa == regs.Sp() && ra.value == regs.ip then Err(DwarfDidNotAdvance)
        else if !isFirstFrame && cfa < regs.Sp() then Err(StackPointerMovedBackwards)
        else Ok(Recovered(ra.value, regs.(ip := ra.value).Set(RBP, bp.UnwrapOr(regs.Bp())).Set(RSP, cfa)))
  {
    hide EvalRegisterRule, EvalCfaRule, RuleMeaning, CfaMeaning, Obtain, DwarfView, ViewOf, RecoverReturnAddress;
    hide SaysReturnAddress;
    ViewHasNames(regs);
    var view := DwarfView(regs);
    EvaluationFollowsRules(row.bp, row.cfa, 0, regs.Bp(), view, stack, Named(regs), Evaluated(regs));
    var cfa := EvalCfaRule(row.cfa, view);
    if cfa.Some? {
      EvaluationFollowsRules(row.bp, row.cfa, cfa.value, regs.Bp(), view, stack, Named(regs), Evaluated(regs));
      ReturnAddressFollowsRow(row, cfa.value, regs, stack);
    }
  }

  // ----- agreement of the fast rule with the slow evaluation -----

  /** The divisions by 8 in the translation lose nothing. */
  predicate Aligned(row: Row) {
    && row.cfa.RegisterAndOffset?
    && row.cfa.offset % 8 == 0
    && StoredAligned(row.bp, row.cfa.offset)
  }

  ghost function Cfa(row: Row, regs: Regs): int
    requires row.cfa.RegisterAndOffset?
  {
    (if row.cfa.register == DWARF_RSP then regs.Sp() else regs.Bp()) + row.cfa.offset
  }

  /** A translated, aligned row means what its rule means. */
  lemma TranslationKeepsMeaning(row: Row, isFirstFrame: bool, regs: Regs)
    requires Translate(row).Ok? && row.ra == Offset(-8) && Aligned(row)
    ensures ValidRule(Translate(row).value)
    ensures MeantSp(Translate(row).value, isFirstFrame, regs) == Cfa(row, regs)
    ensures MeantBpSlot(Translate(row).value, isFirstFrame, regs)
         == if row.bp.Offset? then Some(Cfa(row, regs) + row.bp.offset) else None
    ensures -8 < row.cfa.offset < 0x20_0000
    ensures row.bp.Offset? ==> row.cfa.offset + row.bp.offset < 0x20_0000
    ensures row.bp.Offset? || row.bp.SameValue? || row.bp.Undefined?
    ensures row.cfa.register == DWARF_RSP || row.cfa.register == DWARF_RBP
    ensures row.cfa.register == DWARF_RBP ==> Translate(row).value.UseFramePointer?
    ensures row.cfa.register == DWARF_RSP ==>
      Translate(row).value.OffsetSp? || Translate(row).value.OffsetSpAndRestoreBp?
  {
    if row.cfa.register == DWARF_RSP && row.bp.Offset? {
      NearStorage(row.cfa.offset, row.bp.offset);
    }
    hide WrapI64, TruncDiv8;
  }

  ghost predicate BaseReachable(row: Row, regs: Regs)
    requires row.cfa.RegisterAndOffset?
  {
    Reachable(if row.cfa.register == DWARF_RSP then regs.Sp() else regs.Bp()) && Reachable(Cfa(row, regs))
  }

  /** The base register, the CFA and the slot of bp lie in the lower half of the address space. */
  ghost predicate RowReachable(row: Row, regs: Regs)
    requires row.cfa.RegisterAndOffset?
  {
    BaseReachable(row, regs) && SlotReachable(row.bp, Cfa(row, regs))
  }

  /** The rule has found a caller. */
  ghost predicate RuleFinds(row: Row, isFirstFrame: bool, regs: Regs, stack: Stack) {
    && Translate(row).Ok? && ValidRule(Translate(row).value)
    && Exec(Translate(row).value, isFirstFrame, regs, stack).FoundCaller()
  }

  /** The generic path has the same return address and the same sixteen registers as the rule. */
  ghost predicate Agrees(row: Row, isFirstFrame: bool, regs: Regs, stack: Stack)
    requires RuleFinds(row, isFirstFrame, regs, stack)
  {
    var o := Exec(Translate(row).value, isFirstFrame, regs, stack);
    EvalRow(row, isFirstFrame, regs, stack) == Ok(Recovered(o.result.value.value, o.regs))
  }

  /** The bp that the generic path gives the caller. */
  ghost function GenericBp(row: Row, cfa: int, regs: Regs, stack: Stack): U64 {
    if row.bp.Offset? && Reachable(cfa + row.bp.offset) && Readable(stack, cfa + row.bp.offset)
    then stack[cfa + row.bp.offset] else regs.Bp()
  }

  /** What the generic path does where it can reach the CFA. */
  lemma EvalReachableRow(row: Row, isFirstFrame: bool, regs: Regs, stack: Stack)
    requires row.ra == Offset(-8) && (row.bp.Offset? || row.bp.SameValue? || row.bp.Undefined?)
    requires row.cfa.RegisterAndOffset? && (row.cfa.register == DWARF_RSP || row.cfa.register == DWARF_RBP)
    requires BaseReachable(row, regs) && ReturnsAt(Cfa(row, regs), regs, stack)
    requires isFirstFrame || regs.Sp() <= Cfa(row, regs)
    ensures var cfa := Cfa(row, regs);
      var ra := stack[ReturnSlot(cfa)];
      EvalRow(row, isFirstFrame, regs, stack)
        == Ok(Recovered(ra, regs.(ip := ra).Set(RBP, GenericBp(row, cfa, regs, stack)).Set(RSP, cfa)))
  {
    var cfa := Cfa(row, regs);
    assert EvalCfaRule(row.cfa, DwarfView(regs)) == Some(cfa);
    assert RecoverReturnAddress(row.ra, cfa, regs, stack) == Ok(stack[ReturnSlot(cfa)]);
    hide RecoverReturnAddress;
  }

  /** The rule's side of the same. */
  lemma RuleFindsMeaning(row: Row, isFirstFrame: bool, regs: Regs, stack: Stack)
    requires row.ra == Offset(-8) && Aligned(row) && RuleFinds(row, isFirstFrame, regs, stack)
    ensures var cfa, o := Cfa(row, regs), Exec(Translate(row).value, isFirstFrame, regs, stack);
      && ReturnsAt(cfa, regs, stack)
      && (isFirstFrame || regs.Sp() <= cfa)
      && (row.bp.Offset? ==> 0 <= cfa + row.bp.offset)
      && o.result.value.value == o.regs.ip == stack[ReturnSlot(cfa)] && o.regs.Sp() == cfa
      && (forall r: Reg :: r != RSP && r != RBP ==> o.regs.Get(r) == regs.Get(r))
      && o.regs.Bp() ==
           if row.bp.Offset? && Readable(stack, cfa + row.bp.offset) then stack[cfa + row.bp.offset] else regs.Bp()
  {
    var rule := Translate(row).value;
    ExecFollowsMeaning(rule, isFirstFrame, regs, stack);
    TranslationKeepsMeaning(row, isFirstFrame, regs);
    assert regs.Sp() <= MeantSp(rule, isFirstFrame, regs);
    hide Exec, Translate, MeantSp, MeantBpSlot, SlotsReadable, PoppedInto;
  }

  /** The exact bound: for an aligned row with its return address at CFA-8, whose rule finds a caller, the
      generic path agrees if and only if the base register, the CFA and the slot of bp are below 2^63;
      a bp it cannot reach is kept. */
  lemma AgreesExactly(row: Row, isFirstFrame: bool, regs: Regs, stack: Stack)
    requires row.ra == Offset(-8) && Aligned(row) && RuleFinds(row, isFirstFrame, regs, stack)
    ensures Agrees(row, isFirstFrame, regs, stack) <==>
      && BaseReachable(row, regs)
      && (|| SlotReachable(row.bp, Cfa(row, regs))
          || regs.Bp() == Exec(Translate(row).value, isFirstFrame, regs, stack).regs.Bp())
  {
    hide Exec, Translate, EvalRow, ReturnsAt, Cacheable, RuleFinds;
    FoundRowIsCacheable(row, isFirstFrame, regs, stack);
    var o, cfa := Exec(Translate(row).value, isFirstFrame, regs, stack), Cfa(row, regs);
    RuleFindsMeaning(row, isFirstFrame, regs, stack);
    if BaseReachable(row, regs) {
      EvalReachableRow(row, isFirstFrame, regs, stack);
      SameUpToBp(regs, o.regs.ip, GenericBp(row, cfa, regs, stack), cfa, o.regs);
    } else {
      EvalUnreachableRow(row, isFirstFrame, regs, stack);
    }
  }

  lemma FoundRowIsCacheable(row: Row, isFirstFrame: bool, regs: Regs, stack: Stack)
    requires row.ra == Offset(-8) && RuleFinds(row, isFirstFrame, regs, stack)
    ensures Translate(row).Ok? && ValidRule(Translate(row).value)
    ensures row.cfa.RegisterAndOffset? && (row.cfa.register == DWARF_RSP || row.cfa.register == DWARF_RBP)
    ensures row.bp.Offset? || row.bp.SameValue? || row.bp.Undefined?
  {
    hide Exec, Translate;
    TranslatesExactly(row);
  }

  /** Registers which differ in ip, sp and bp at most are the same if these are. */
  lemma SameUpToBp(regs: Regs, ip: U64, bp: U64, sp: U64, other: Regs)
    requires other.ip == ip && other.Sp() == sp
    requires forall r: Reg :: r != RSP && r != RBP ==> other.Get(r) == regs.Get(r)
    ensures regs.(ip := ip).Set(RBP, bp).Set(RSP, sp) == other <==> bp == other.Bp()
  {
    var after := regs.(ip := ip).Set(RBP, bp).Set(RSP, sp);
    assert after.Bp() == bp;
    if bp == other.Bp() {
      SameRegisters(after, other);
    }
  }

  lemma EvalUnreachableRow(row: Row, isFirstFrame: bool, regs: Regs, stack: Stack)
    requires row.cfa.RegisterAndOffset? && (row.cfa.register == DWARF_RSP || row.cfa.register == DWARF_RBP)
    requires !BaseReachable(row, regs)
    ensures EvalRow(row, isFirstFrame, regs, stack).Err?
  {
    assert EvalCfaRule(row.cfa, DwarfView(regs)) == None;
  }

  /** If the rule of an aligned row, whose return address is at CFA-8, finds a caller, then so does the
      generic evaluation of the row wherever it can reach, with the same return address and the same
      sixteen registers. */
  lemma RuleAgreesWithGenericPath(row: Row, isFirstFrame: bool, regs: Regs, stack: Stack)
    requires row.ra == Offset(-8) && Aligned(row) && RowReachable(row, regs)
    requires RuleFinds(row, isFirstFrame, regs, stack)
    ensures Agrees(row, isFirstFrame, regs, stack)
  {
    hide Agrees, Aligned, RuleFinds, BaseReachable;
    AgreesExactly(row, isFirstFrame, regs, stack);
  }

  /** The rule of an sp-based row, aligned or not: all offsets are truncated. */
  lemma TranslationTruncates(row: Row, regs: Regs)
    requires row.ra == Offset(-8) && Translate(row).Ok?
    requires row.cfa.RegisterAndOffset? && row.cfa.register == DWARF_RSP
    ensures var rule := Translate(row).value;
      && (rule.OffsetSp? || rule.OffsetSpAndRestoreBp?)
      && MeantSp(rule, true, regs) == regs.Sp() + 8 * TruncDiv8(row.cfa.offset)
      && MeantBpSlot(rule, true, regs) ==
           if row.bp.Offset? then Some(regs.Sp() + 8 * TruncDiv8(row.cfa.offset + row.bp.offset)) else None
  {
    TranslatesExactly(row);
    if row.bp.Offset? {
      StorageFitsExactly(row.cfa.offset, row.bp.offset);
      NearStorage(row.cfa.offset, row.bp.offset);
    }
    hide WrapI64, TruncDiv8;
  }

  /** What the two kinds of sp-based rules give there. */
  lemma WitnessOfRule(rule: Rule)
    requires rule.OffsetSp? || rule.OffsetSpAndRestoreBp?
    ensures var o := Exec(rule, true, WitnessRegs(), FarAddresses());
      && o.FoundCaller()
      && o.regs.Sp() == WITNESS_BASE + 8 * rule.spBy8
      && (rule.OffsetSpAndRestoreBp? ==> o.regs.Bp() == Far(WITNESS_BASE + 8 * rule.bpBy8))
  {
    hide FarAddresses, WrappingAddSigned;
  }

  lemma WitnessIsFound(row: Row)
    requires row.ra == Offset(-8) && Translate(row).Ok?
    requires row.cfa.RegisterAndOffset? && row.cfa.register == DWARF_RSP
    ensures RuleFinds(row, true, WitnessRegs(), FarAddresses())
    ensures var after := Exec(Translate(row).value, true, WitnessRegs(), FarAddresses()).regs;
      && after.Sp() == WITNESS_BASE + 8 * TruncDiv8(row.cfa.offset)
      && (row.bp.Offset? ==> after.Bp() == Far(WITNESS_BASE + 8 * TruncDiv8(row.cfa.offset + row.bp.offset)))
  {
    TranslationTruncates(row, WitnessRegs());
    hide Exec, Translate, FarAddresses, TruncDiv8, Far;
    WitnessOfRule(Translate(row).value);
  }

  /** The generic path in the same place. */
  lemma WitnessIsEvaluated(row: Row)
    requires row.ra == Offset(-8) && Translate(row).Ok?
    requires row.cfa.RegisterAndOffset? && row.cfa.register == DWARF_RSP
    ensures RowReachable(row, WitnessRegs())
    ensures EvalRow(row, true, WitnessRegs(), FarAddresses()).Ok?
    ensures var after := EvalRow(row, true, WitnessRegs(), FarAddresses()).value.regs;
      && after.Sp() == WITNESS_BASE + row.cfa.offset
      && (row.bp.Offset? ==> after.Bp() == Far(WITNESS_BASE + row.cfa.offset + row.bp.offset))
  {
    var cfa := WITNESS_BASE + row.cfa.offset;
    TranslatesExactly(row);
    hide Translate, FarAddresses;
    assert RecoverReturnAddress(row.ra, cfa, WitnessRegs(), FarAddresses()) == Ok(Far(cfa - 8));
  }

  /** Every translated row that is not aligned misleads: its rule and the generic path both find a caller,
      and not the same. */
  lemma UnalignedRowDisagrees(row: Row)
    requires row.ra == Offset(-8) && Translate(row).Ok? && !Aligned(row)
    ensures row.cfa.RegisterAndOffset? && RowReachable(row, WitnessRegs())
    ensures RuleFinds(row, true, WitnessRegs(), FarAddresses())
    ensures EvalRow(row, true, WitnessRegs(), FarAddresses()).Ok?
    ensures !Agrees(row, true, WitnessRegs(), FarAddresses())
  {
    TranslatesExactly(row);
    hide Exec, Translate, EvalRow, FarAddresses;
    assert row.cfa.register == DWARF_RSP;
    WitnessIsFound(row);
    WitnessIsEvaluated(row);
  }

  /** Wherever the rule finds a caller, the generic path finds the same one. */
  ghost predicate AgreesWhereFound(row: Row)
    requires row.cfa.RegisterAndOffset?
  {
    forall isFirstFrame, regs, stack ::
      RuleFinds(row, isFirstFrame, regs, stack) && RowReachable(row, regs) ==> Agrees(row, isFirstFrame, regs, stack)
  }

  /** For every translated row with its return address at CFA-8: wherever the rule finds a caller, the generic
      path agrees, if and only if the row is aligned. Where the rule finds one at all is another matter,
      and said below. */
  lemma AgreesWhereFoundExactlyIfAligned(row: Row)
    requires row.ra == Offset(-8) && Translate(row).Ok?
    ensures row.cfa.RegisterAndOffset? && (AgreesWhereFound(row) <==> Aligned(row))
  {
    hide Agrees, Aligned, RowReachable, RuleFinds;
    TranslatesExactly(row);
    if Aligned(row) {
      forall isFirstFrame, regs, stack | RuleFinds(row, isFirstFrame, regs, stack) && RowReachable(row, regs)
        ensures Agrees(row, isFirstFrame, regs, stack)
      {
        RuleAgreesWithGenericPath(row, isFirstFrame, regs, stack);
      }
    } else {
      UnalignedRowDisagrees(row);
    }
  }

  // ----- where the rule finds the generic path's caller -----

  /** The generic path finds a caller. Unlike a rule it does not look at the return address itself. */
  ghost predicate GenericFinds(row: Row, isFirstFrame: bool, regs: Regs, stack: Stack) {
    var g := EvalRow(row, isFirstFrame, regs, stack);
    g.Ok? && g.value.ra != 0
  }

  /** What the rules insist on and the generic path does not: the slot of bp can be read, unless it lies below
      sp in the first frame of an sp-based row, and a chain of frame pointers does not end and goes up. */
  ghost predicate RuleInsists(row: Row, isFirstFrame: bool, regs: Regs, stack: Stack)
    requires row.cfa.RegisterAndOffset?
  {
    && (row.bp.Offset? ==>
          var slot := Cfa(row, regs) + row.bp.offset;
          Readable(stack, slot) || (row.cfa.register == DWARF_RSP && isFirstFrame && 0 <= slot < regs.Sp()))
    && (row.cfa.register == DWARF_RBP ==> regs.Bp() != 0 && Cfa(row, regs) > regs.Sp())
  }

  /** What executing the rule of an aligned row checks, in the terms of the row. */
  lemma RuleFindsIfAccepted(row: Row, isFirstFrame: bool, regs: Regs, stack: Stack)
    requires row.ra == Offset(-8) && Translate(row).Ok? && Aligned(row)
    ensures RuleFinds(row, isFirstFrame, regs, stack) <==>
      ReturnsAt(Cfa(row, regs), regs, stack) && RuleInsists(row, isFirstFrame, regs, stack)
  {
    var rule := Translate(row).value;
    TranslationKeepsMeaning(row, isFirstFrame, regs);
    ExecFollowsMeaning(rule, isFirstFrame, regs, stack);
    NothingPopped(PopBase(rule, regs), stack, regs);
    hide Exec, Translate, MeantSp, MeantBpSlot, SlotsReadable, PoppedInto, ReturnsAt, MeantRegs;
  }

  /** The generic path finds a caller where there is a return address. */
  lemma GenericFindsIfReturns(row: Row, isFirstFrame: bool, regs: Regs, stack: Stack)
    requires row.ra == Offset(-8) && (row.bp.Offset? || row.bp.SameValue? || row.bp.Undefined?)
    requires row.cfa.RegisterAndOffset? && (row.cfa.register == DWARF_RSP || row.cfa.register == DWARF_RBP)
    requires BaseReachable(row, regs)
    ensures GenericFinds(row, isFirstFrame, regs, stack) <==>
      ReturnsAt(Cfa(row, regs), regs, stack) && (isFirstFrame || regs.Sp() <= Cfa(row, regs))
  {
    var cfa := Cfa(row, regs);
    if ReturnsAt(cfa, regs, stack) && (isFirstFrame || regs.Sp() <= cfa) {
      EvalReachableRow(row, isFirstFrame, regs, stack);
    } else if FitsU64(cfa) {
      assert EvalCfaRule(row.cfa, DwarfView(regs)) == Some(cfa);
      assert RecoverReturnAddress(row.ra, cfa, regs, stack)
          == if ReturnSlot(cfa) in stack then Ok(stack[ReturnSlot(cfa)]) else Err(CouldNotRecoverReturnAddress);
      hide RecoverReturnAddress, EvalCfaRule;
    } else {
      assert EvalCfaRule(row.cfa, DwarfView(regs)) == None;
    }
  }

  /** For every aligned row with its return address at CFA-8, within reach of the generic path: the rule finds a
      caller, which then is the same, if and only if the generic path finds one and passes what rules
      insist on. */
  lemma RuleFindsExactly(row: Row, isFirstFrame: bool, regs: Regs, stack: Stack)
    requires row.ra == Offset(-8) && Translate(row).Ok? && Aligned(row) && RowReachable(row, regs)
    ensures RuleFinds(row, isFirstFrame, regs, stack) <==>
      GenericFinds(row, isFirstFrame, regs, stack) && RuleInsists(row, isFirstFrame, regs, stack)
    ensures RuleFinds(row, isFirstFrame, regs, stack) ==> Agrees(row, isFirstFrame, regs, stack)
  {
    TranslatesExactly(row);
    hide Exec, Translate, EvalRow, Agrees, RuleFinds, GenericFinds, ReturnsAt;
    RuleFindsIfAccepted(row, isFirstFrame, regs, stack);
    GenericFindsIfReturns(row, isFirstFrame, regs, stack);
    if RuleFinds(row, isFirstFrame, regs, stack) {
      RuleAgreesWithGenericPath(row, isFirstFrame, regs, stack);
    }
  }

  lemma SameRegisters(a: Regs, b: Regs)
    requires a.ip == b.ip && forall r: Reg :: a.Get(r) == b.Get(r)
    ensures a == b
  {
    assert forall r: Reg :: a.file[r] == a.Get(r) && b.file[r] == b.Get(r);
    assert a.file == b.file;
  }

  /** A translated row means the end of the stack exactly if it leaves the return address undefined. */
  lemma UndefinedReturnAddressEndsStack(row: Row)
    requires Translate(row).Ok?
    ensures ValidRule(Translate(row).value)
    ensures row.ra.Undefined? <==>
      forall isFirstFrame, regs, stack ::
        Exec(Translate(row).value, isFirstFrame, regs, stack) == Outcome(Ok(None), regs)
  {
    if !row.ra.Undefined? {
      var regs, stack: Stack := Regs(0, seq(16, i => 0x8000)), map[];
      hide WrapI64, TruncDiv8;
      var rule := Translate(row).value;
      assert Exec(rule, true, regs, stack).result.Err?;
    }
  }

  /** The rows for which there is a cacheable rule, in bytes. */
  ghost predicate Cacheable(row: Row) {
    || row.ra.Undefined?
    || (&& row.ra == Offset(-8) && row.cfa.RegisterAndOffset?
        && (|| (row.cfa.register == DWARF_RSP && -8 < row.cfa.offset < 0x8_0000 && Storable(row.bp, row.cfa.offset))
            || (row.cfa.register == DWARF_RBP && row.cfa.offset == 16 && row.bp == Offset(-16))))
  }

  /** No other row translates, and all of these do, aligned or not. */
  lemma TranslatesExactly(row: Row)
    ensures Translate(row).Ok? <==> Cacheable(row)
  {
    if row.cfa.RegisterAndOffset? && -8 < row.cfa.offset < 0x8_0000 && row.bp.Offset? {
      StorageFitsExactly(row.cfa.offset, row.bp.offset);
      hide WrapI64;
    }
  }

  // ----- which rows the generic path can evaluate -----

  /** Rows that the generic path does not evaluate for any registers. What it evaluates in a later frame, it
      evaluates in a first one. */
  ghost predicate NeverEvaluates(row: Row) {
    forall regs, stack :: EvalRow(row, true, regs, stack).Err?
  }

  /** Rows that the generic path evaluates for all registers and all kinds of frames in question. */
  ghost predicate NeverFails(row: Row, firstFrameOnly: bool) {
    forall isFirstFrame, regs, stack :: isFirstFrame || !firstFrameOnly ==> EvalRow(row, isFirstFrame, regs, stack).Ok?
  }

  lemma LaterFramesAreStricter(row: Row, isFirstFrame: bool, regs: Regs, stack: Stack)
    ensures EvalRow(row, isFirstFrame, regs, stack).Ok? ==> EvalRow(row, true, regs, stack).Ok?
  {
    hide EvalRegisterRule, EvalCfaRule, RecoverReturnAddress;
  }

  /** No more than one slot can be read. */
  ghost predicate OneSlot(stack: Stack) {
    forall a, b :: a in stack && b in stack ==> a == b
  }

  /** A stack with this slot only. */
  function OnlySlot(stack: Stack, address: U64): Stack {
    if address in stack then map[address := stack[address]] else map[]
  }

  /** The slot that a register rule reads. */
  ghost function SlotOf(rule: RegisterRule, cfa: U64, regs: DwarfRegs): Option<U64> {
    match rule
    case Offset(offset) => AddThroughI64(cfa, offset)
    case Expression(location) => location(regs)
    case _ => None
  }

  /** Recovering a return address takes no more than one slot. */
  lemma OneSlotIsEnough(row: Row, cfa: U64, regs: Regs, stack: Stack) returns (slot: U64)
    ensures RecoverReturnAddress(row.ra, cfa, regs, OnlySlot(stack, slot))
         == RecoverReturnAddress(row.ra, cfa, regs, stack)
  {
    hide WrapU64;
    var s := SlotOf(row.ra, cfa, DwarfView(regs));
    slot := if s.Some? && s.value in stack then s.value else WrapU64(cfa - 8);
  }

  /** A row that evaluates at all does so in some first frame, with a stack of one slot. */
  lemma EvaluatesWithOneSlot(row: Row) returns (regs: Regs, stack: Stack)
    requires !NeverEvaluates(row)
    ensures OneSlot(stack) && EvalRow(row, true, regs, stack).Ok?
  {
    var g, s :| EvalRow(row, true, g, s).Ok?;
    var cfa := EvalCfaRule(row.cfa, DwarfView(g)).value;
    var slot := OneSlotIsEnough(row, cfa, g, s);
    hide EvalRegisterRule, EvalCfaRule, RecoverReturnAddress;
    regs, stack := g, OnlySlot(s, slot);
  }

  // ----- and which of those without expressions -----

  /** The CFA and the return address are not given by expressions. */
  predicate PlainRow(row: Row) {
    row.cfa.RegisterAndOffset? && !row.ra.Expression? && !row.ra.ValExpression?
  }

  /** A known register and an offset which some value of it can make up for. */
  predicate CfaEvaluable(cfa: CfaRule)
    requires cfa.RegisterAndOffset?
  {
    && (cfa.register == DWARF_RSP || cfa.register == DWARF_RBP || cfa.register == DWARF_RA)
    && cfa.offset > -0x8000_0000_0000_0000
  }

  predicate KeepsReturnAddress(ra: RegisterRule) {
    ra.SameValue? || (ra.InRegister? && ra.register == DWARF_RA)
  }

  /** There is a CFA, and either sp or the return address may change. */
  predicate Evaluable(row: Row)
    requires PlainRow(row)
  {
    && CfaEvaluable(row.cfa)
    && !(row.cfa.register == DWARF_RSP && row.cfa.offset == 0 && KeepsReturnAddress(row.ra))
  }

  lemma UnevaluableNeverEvaluates(row: Row, regs: Regs, stack: Stack)
    requires PlainRow(row) && !Evaluable(row)
    ensures EvalRow(row, true, regs, stack).Err?
  {
    if KeepsReturnAddress(row.ra) {
      assert EvalRegisterRule(row.ra, regs.Sp(), regs.ip, DwarfView(regs), stack) == Some(regs.ip);
    }
  }

  /** A base register that the offset leads to an address from. */
  function BaseFor(offset: I64): U64 {
    if -0x8000_0000_0000_0000 < offset < 0 then -offset else 0
  }

  /** The CFA from there. */
  function CfaFrom(offset: I64): U64 { if offset < 0 then 0 else offset }

  function EvaluatedStack(row: Row): Stack
    requires PlainRow(row)
  {
    map[WrapU64(CfaFrom(row.cfa.offset) - 8) := 1]
  }

  /** sp is the base, or else anything but the CFA; ip is the base, or else anything but the given value. */
  function EvaluatedRegs(row: Row, notIp: U64): Regs
    requires PlainRow(row)
  {
    var base, cfa := BaseFor(row.cfa.offset), CfaFrom(row.cfa.offset);
    var sp := if row.cfa.register == DWARF_RSP then base else if cfa == 0 then 1 else 0;
    var ip := if row.cfa.register == DWARF_RA then base else if notIp == 0 then 1 else 0;
    Regs(ip, seq(16, i => base)).Set(RSP, sp)
  }

  lemma EvaluatedCfa(row: Row, notIp: U64)
    requires PlainRow(row) && CfaEvaluable(row.cfa)
    ensures EvalCfaRule(row.cfa, DwarfView(EvaluatedRegs(row, notIp))) == Some(CfaFrom(row.cfa.offset))
    ensures EvaluatedRegs(row, notIp).Sp() == CfaFrom(row.cfa.offset) ==>
      row.cfa.register == DWARF_RSP && row.cfa.offset == 0
  {
  }

  /** With that stack, there always is a return address; it depends on ip only if the rule says so. */
  lemma EvaluatedReturnAddress(row: Row, notIp: U64, notIp': U64)
    requires PlainRow(row)
    ensures var cfa := CfaFrom(row.cfa.offset);
      var r := RecoverReturnAddress(row.ra, cfa, EvaluatedRegs(row, notIp), EvaluatedStack(row));
      var r' := RecoverReturnAddress(row.ra, cfa, EvaluatedRegs(row, notIp'), EvaluatedStack(row));
      r.Ok? && (!KeepsReturnAddress(row.ra) ==> r == r')
  {
    hide WrapU64;
  }

  lemma EvaluatesSomewhere(row: Row) returns (regs: Regs)
    requires PlainRow(row) && Evaluable(row)
    ensures EvalRow(row, true, regs, EvaluatedStack(row)).Ok?
  {
    var cfa, stack := CfaFrom(row.cfa.offset), EvaluatedStack(row);
    EvaluatedReturnAddress(row, 0, 0);
    var ra := RecoverReturnAddress(row.ra, cfa, EvaluatedRegs(row, 0), stack).value;
    regs := EvaluatedRegs(row, ra);
    EvaluatedCfa(row, ra);
    EvaluatedReturnAddress(row, ra, 0);
    assert row.cfa.register == DWARF_RSP ==> regs.ip != ra;
    hide EvalCfaRule, RecoverReturnAddress, EvaluatedRegs, CfaFrom;
  }

  /** A row without expressions never evaluates if and only if it is not evaluable; and it does fail somewhere,
      already in a first frame. */
  lemma PlainRowEvaluatesExactly(row: Row)
    requires PlainRow(row)
    ensures NeverEvaluates(row) <==> !Evaluable(row)
    ensures !NeverFails(row, true)
  {
    if Evaluable(row) {
      var regs := EvaluatesSomewhere(row);
    } else {
      forall regs, stack ensures EvalRow(row, true, regs, stack).Err? {
        UnevaluableNeverEvaluates(row, regs, stack);
      }
    }
    var high := Regs(0x8000_0000_0000_0000, seq(16, i => 0x8000_0000_0000_0000));
    assert EvalCfaRule(row.cfa, DwarfView(high)) == None;
    assert EvalRow(row, true, high, map[]).Err?;
  }
}
