/** DWARF unwinding on aarch64: translating a row into a cacheable rule, and the generic path. */
module Aarch64Dwarf {
  import opened Words
  import opened Frames
  import opened PtrAuth
  import opened Dwarf
  import opened Aarch64Rule

  const SP: Register := 31
  const X29: Register := 29
  const X30: Register := 30

  datatype Row = Row(cfa: CfaRule, fp: RegisterRule, lr: RegisterRule)

  function DwarfView(regs: Regs): DwarfRegs {
    map[SP := regs.sp, X29 := regs.fp, X30 := regs.lr]
  }

  function TranslateSpRow(row: Row, offset: I64): Result<Rule, ConversionError> {
    var spBy16 :- TryU16(TruncDiv16(offset), SpOffsetDoesNotFit);
    var lrOffset :- RegisterRuleToCfaOffset(row.lr);
    var fpOffset :- RegisterRuleToCfaOffset(row.fp);
    match (lrOffset, fpOffset)
    case (None, Some(_)) => Err(RestoringFpButNotLr)
    case (None, None) =>
      if row.lr.Undefined? then Ok(OffsetSpIfFirstFrameOtherwiseStackEndsHere(spBy16))
      else Ok(OffsetSp(spBy16))
    case (Some(lr), None) =>
      var lrBy8 :- TryI16(TruncDiv8(WrapI64(offset + lr)), LrStorageOffsetDoesNotFit);
      Ok(OffsetSpAndRestoreLr(spBy16, lrBy8))
    case (Some(lr), Some(fp)) =>
      var lrBy8 :- TryI16(TruncDiv8(WrapI64(offset + lr)), LrStorageOffsetDoesNotFit);
      var fpBy8 :- TryI16(TruncDiv8(WrapI64(offset + fp)), FpStorageOffsetDoesNotFit);
      Ok(OffsetSpAndRestoreFpAndLr(spBy16, fpBy8, lrBy8))
  }

  function TranslateFpRow(row: Row, offset: I64): Result<Rule, ConversionError> {
    var lrOffset :- RegisterRuleToCfaOffset(row.lr);
    if lrOffset.None? then Err(FramePointerRuleDoesNotRestoreLr) else
    var fpOffset :- RegisterRuleToCfaOffset(row.fp);
    if fpOffset.None? then Err(FramePointerRuleDoesNotRestoreFp) else
    if offset == 16 && fpOffset.value == -16 && lrOffset.value == -8 then Ok(UseFramePointer)
    else
      var spBy8 :- TryU16(TruncDiv8(offset), SpOffsetFromFpDoesNotFit);
      var lrBy8 :- TryI16(TruncDiv8(WrapI64(offset + lrOffset.value)), LrStorageOffsetDoesNotFit);
      var fpBy8 :- TryI16(TruncDiv8(WrapI64(offset + fpOffset.value)), FpStorageOffsetDoesNotFit);
      Ok(UseFramepointerWithOffsets(spBy8, fpBy8, lrBy8))
  }

  function Translate(row: Row): Result<Rule, ConversionError> {
    match row.cfa
    case RegisterAndOffset(register, offset) =>
      if register == SP then TranslateSpRow(row, offset)
      else if register == X29 then TranslateFpRow(row, offset)
      else Err(CfaIsOffsetFromUnknownRegister)
    case CfaExpression(_) => Err(CfaIsExpression)
  }

  /** What the generic path recovers: the unstripped return address and the new registers. */
  datatype Recovered = Recovered(ra: U64, regs: Regs)

  /** The slow, general evaluation of a row. The registers change only if it succeeds. */
  function EvalRow(row: Row, isFirstFrame: bool, regs: Regs, stack: Stack): Result<Recovered, DwarfError> {
    var view := DwarfView(regs);
    match EvalCfaRule(row.cfa, view)
    case None => Err(CouldNotRecoverCfa)
    case Some(cfa) =>
      var fp := EvalRegisterRule(row.fp, cfa, regs.fp, view, stack);
      var lr := EvalRegisterRule(row.lr, cfa, regs.lr, view, stack);
      if !isFirstFrame then
        if cfa <= regs.sp then Err(StackPointerMovedBackwards)
        else if fp.None? then Err(CouldNotRecoverFramePointer)
        else if lr.None? then Err(CouldNotRecoverReturnAddress)
        else Ok(Recovered(lr.value, regs.(fp := fp.value, sp := cfa).WithLr(lr.value)))
      else
        var newFp, newLr := fp.UnwrapOr(regs.fp), lr.UnwrapOr(regs.lr);
        Ok(Recovered(newLr, regs.(fp := newFp, sp := cfa).WithLr(newLr)))
  }

  datatype UnwindResult = ExecRule(rule: Rule) | Uncacheable(recovered: Recovered)

  /** `unwind_frame`: translate the row if possible, evaluate it generically otherwise. */
  function UnwindRow(row: Row, isFirstFrame: bool, regs: Regs, stack: Stack): Result<UnwindResult, DwarfError> {
    match Translate(row)
    case Ok(rule) => Ok(ExecRule(rule))
    case Err(_) =>
      var recovered :- EvalRow(row, isFirstFrame, regs, stack);
      Ok(Uncacheable(recovered))
  }

  /** The generic path, updating the registers in place. */
  method UnwindRowInPlace(row: Row, isFirstFrame: bool, regs: UnwindRegs, stack: Stack)
    returns (r: Result<UnwindResult, DwarfError>)
    modifies regs
    ensures r == UnwindRow(row, isFirstFrame, old(regs.Values()), stack)
    ensures regs.Values() ==
      if r.Ok? && r.value.Uncacheable? then r.value.recovered.regs else old(regs.Values())
  {
    match Translate(row) {
      case Ok(rule) => return Ok(ExecRule(rule));
      case Err(_) =>
    }
    var view := DwarfView(regs.Values());
    var cfa := EvalCfaRule(row.cfa, view);
    if cfa.None? {
      return Err(CouldNotRecoverCfa);
    }
    var fp := EvalRegisterRule(row.fp, cfa.value, regs.fp, view, stack);
    var lr := EvalRegisterRule(row.lr, cfa.value, regs.lr, view, stack);
    if !isFirstFrame {
      if cfa.value <= regs.sp {
        return Err(StackPointerMovedBackwards);
      }
      if fp.None? {
        return Err(CouldNotRecoverFramePointer);
      }
      if lr.None? {
        return Err(CouldNotRecoverReturnAddress);
      }
    }
    var newFp, newLr := fp.UnwrapOr(regs.fp), lr.UnwrapOr(regs.lr);
    regs.fp := newFp;
    regs.sp := cfa.value;
    regs.SetLr(newLr);
    return Ok(Uncacheable(Recovered(newLr, regs.Values())));
  }

  // ----- the generic path does what rows say, whatever their rules -----

  /** The registers that rows may name: x29, x30 and sp by their DWARF numbers. */
  ghost function Named(regs: Regs): Register -> Option<U64> {
    (r: Register) =>
      if r == 29 then Some(regs.fp) else if r == 30 then Some(regs.lr) else if r == 31 then Some(regs.sp)
      else None
  }

  ghost function Evaluated(regs: Regs): Expr -> Option<U64> {
    (e: Expr) => e(DwarfView(regs))
  }

  /** What the row says about a register of the caller. */
  ghost function Says(rule: RegisterRule, cfa: int, val: U64, regs: Regs, stack: Stack): Option<U64> {
    Obtain(RuleMeaning(rule, cfa, val, Named(regs), Evaluated(regs)), stack)
  }

  lemma ViewHasNames(regs: Regs)
    ensures ViewOf(DwarfView(regs), Named(regs), Evaluated(regs))
  {
  }

  /** For every row, with or without expressions, on any register: the generic path gives the CFA as sp, and what
      the row says of fp and lr; in the first frame it keeps what the row says nothing of, after it that is
      an error, and so is an sp which does not rise. */
  lemma GenericPathFollowsRow(row: Row, isFirstFrame: bool, regs: Regs, stack: Stack)
    ensures EvalRow(row, isFirstFrame, regs, stack) ==
      match CfaMeaning(row.cfa, Named(regs), Evaluated(regs))
      case None => Err(CouldNotRecoverCfa)
      case Some(cfa) =>
        var fp, lr := Says(row.fp, cfa, regs.fp, regs, stack), Says(row.lr, cfa, regs.lr, regs, stack);
        if isFirstFrame || (cfa > regs.sp && fp.Some? && lr.Some?) then
          var ra := lr.UnwrapOr(regs.lr);
          Ok(Recovered(ra, Regs(regs.mask, StripPtrAuth(regs.mask, ra), cfa, fp.UnwrapOr(regs.fp))))
        else if cfa <= regs.sp then Err(StackPointerMovedBackwards)
        else if fp.None? then Err(CouldNotRecoverFramePointer)
        else Err(CouldNotRecoverReturnAddress)
  {
    hide EvalRegisterRule, EvalCfaRule, RuleMeaning, CfaMeaning, Obtain, BitAnd, DwarfView, ViewOf;
    ViewHasNames(regs);
    var view := DwarfView(regs);
    EvaluationFollowsRules(row.fp, row.cfa, 0, regs.fp, view, stack, Named(regs), Evaluated(regs));
    var cfa := EvalCfaRule(row.cfa, view);
    if cfa.Some? {
      EvaluationFollowsRules(row.fp, row.cfa, cfa.value, regs.fp, view, stack, Named(regs), Evaluated(regs));
      EvaluationFollowsRules(row.lr, row.cfa, cfa.value, regs.lr, view, stack, Named(regs), Evaluated(regs));
    }
  }

  // ----- agreement of the fast rule with the slow evaluation -----

  /** The divisions by 16 and by 8 in the translation lose nothing. */
  predicate Aligned(row: Row) {
    && row.cfa.RegisterAndOffset?
    && (row.cfa.register == SP ==> row.cfa.offset % 16 == 0)
    && (row.cfa.register == X29 ==> row.cfa.offset % 8 == 0)
    && StoredAligned(row.fp, row.cfa.offset)
    && StoredAligned(row.lr, row.cfa.offset)
  }

  /** The one thing the generic path insists on and the rules do not. */
  predicate FramePointerLost(row: Row, isFirstFrame: bool) {
    !isFirstFrame && row.fp.Undefined?
  }

  /** The register recovered by the generic path, in the terms of the rule's meaning. */
  ghost function RowSource(rule: RegisterRule, val: U64, cfa: int): Source {
    if rule.Offset? then Stored(cfa + rule.offset) else Kept(val)
  }

  /** A row translates only if its offsets are small. */
  lemma TranslationIsNear(row: Row)
    requires Translate(row).Ok?
    ensures row.cfa.RegisterAndOffset? && (row.cfa.register == SP || row.cfa.register == X29)
    ensures -16 < row.cfa.offset < 0x20_0000
    ensures row.lr.Offset? ==> FitsI16(TruncDiv8(WrapI64(row.cfa.offset + row.lr.offset)))
    ensures row.fp.Offset? ==> FitsI16(TruncDiv8(WrapI64(row.cfa.offset + row.fp.offset)))
    ensures row.lr.Offset? || row.lr.SameValue? || row.lr.Undefined?
    ensures row.fp.Offset? || row.fp.SameValue? || row.fp.Undefined?
    ensures row.lr.Undefined? ==> Translate(row).value.OffsetSpIfFirstFrameOtherwiseStackEndsHere?
    ensures WalksFramePointers(Translate(row).value) ==> row.cfa.register == X29 && row.fp.Offset?
  {
    hide WrapI64, TruncDiv8, TruncDiv16;
  }

  ghost function Cfa(row: Row, regs: Regs): int
    requires row.cfa.RegisterAndOffset?
  {
    (if row.cfa.register == SP then regs.sp else regs.fp) + row.cfa.offset
  }

  ghost function RowMeaning(row: Row, regs: Regs): Meaning
    requires row.cfa.RegisterAndOffset?
  {
    var cfa := Cfa(row, regs);
    Meaning(cfa, RowSource(row.fp, regs.fp, cfa), RowSource(row.lr, regs.lr, cfa))
  }

  /** The meaning that a translated row's rule has, aligned or not: all offsets are truncated. */
  ghost function TruncatedMeaning(row: Row, regs: Regs): Meaning
    requires row.cfa.RegisterAndOffset?
  {
    var base := if row.cfa.register == SP then regs.sp else regs.fp;
    Meaning(
      base + if row.cfa.register == SP then 16 * TruncDiv16(row.cfa.offset) else 8 * TruncDiv8(row.cfa.offset),
      if row.fp.Offset? then Stored(base + 8 * TruncDiv8(row.cfa.offset + row.fp.offset)) else Kept(regs.fp),
      if row.lr.Offset? then Stored(base + 8 * TruncDiv8(row.cfa.offset + row.lr.offset)) else Kept(regs.lr))
  }

  lemma SpTranslationTruncates(row: Row, isFirstFrame: bool, regs: Regs)
    requires Translate(row).Ok? && row.cfa.RegisterAndOffset? && row.cfa.register == SP
    ensures MeaningOf(Translate(row).value, isFirstFrame, regs) == TruncatedMeaning(row, regs)
  {
    TranslationIsNear(row);
    hide WrapI64, TruncDiv8, TruncDiv16;
    if row.lr.Offset? {
      NearStorage(row.cfa.offset, row.lr.offset);
      if row.fp.Offset? {
        NearStorage(row.cfa.offset, row.fp.offset);
      }
    }
  }

  lemma FpTranslationTruncates(row: Row, isFirstFrame: bool, regs: Regs)
    requires Translate(row).Ok? && row.cfa.RegisterAndOffset? && row.cfa.register == X29
    ensures MeaningOf(Translate(row).value, isFirstFrame, regs) == TruncatedMeaning(row, regs)
  {
    TranslationIsNear(row);
    NearStorage(row.cfa.offset, row.lr.offset);
    NearStorage(row.cfa.offset, row.fp.offset);
    assert TruncDiv8(0) == 0 && TruncDiv8(8) == 1 && TruncDiv8(16) == 2;
    hide WrapI64, TruncDiv8, TruncDiv16;
  }

  lemma TranslationTruncates(row: Row, isFirstFrame: bool, regs: Regs)
    requires Translate(row).Ok?
    ensures row.cfa.RegisterAndOffset?
    ensures MeaningOf(Translate(row).value, isFirstFrame, regs) == TruncatedMeaning(row, regs)
  {
    TranslationIsNear(row);
    hide Translate, MeaningOf, TruncatedMeaning;
    if row.cfa.register == SP {
      SpTranslationTruncates(row, isFirstFrame, regs);
    } else {
      FpTranslationTruncates(row, isFirstFrame, regs);
    }
  }

  /** Truncation takes nothing from aligned offsets. */
  lemma AlignedMeaning(row: Row, regs: Regs)
    requires Aligned(row) && (row.cfa.register == SP || row.cfa.register == X29)
    ensures TruncatedMeaning(row, regs) == RowMeaning(row, regs)
  {
    hide TruncDiv8, TruncDiv16;
  }

  /** A translated, aligned row means what its rule means. */
  lemma TranslationKeepsMeaning(row: Row, isFirstFrame: bool, regs: Regs)
    requires Translate(row).Ok? && Aligned(row)
    ensures MeaningOf(Translate(row).value, isFirstFrame, regs) == RowMeaning(row, regs)
  {
    hide *;
    TranslationIsNear(row);
    TranslationTruncates(row, isFirstFrame, regs);
    AlignedMeaning(row, regs);
  }

  ghost predicate BaseReachable(row: Row, regs: Regs)
    requires row.cfa.RegisterAndOffset?
  {
    Reachable(if row.cfa.register == SP then regs.sp else regs.fp) && Reachable(Cfa(row, regs))
  }

  /** The base register, the CFA and the slots of the row lie in the lower half of the address space. */
  ghost predicate RowReachable(row: Row, regs: Regs)
    requires row.cfa.RegisterAndOffset?
  {
    BaseReachable(row, regs) && SlotReachable(row.fp, Cfa(row, regs)) && SlotReachable(row.lr, Cfa(row, regs))
  }

  /** The generic path finds a register where the row has it, unless it cannot reach the slot. */
  lemma GenericReadsSource(rule: RegisterRule, cfa: U64, val: U64, view: DwarfRegs, stack: Stack)
    requires rule.Offset? || rule.SameValue? || rule.Undefined?
    requires Reachable(cfa) && Fetch(RowSource(rule, val, cfa), stack).Some?
    ensures var r := EvalRegisterRule(rule, cfa, val, view, stack);
      if rule.Undefined? || !SlotReachable(rule, cfa) then r == None else r == Fetch(RowSource(rule, val, cfa), stack)
  {
  }

  /** The generic path delivers a row's meaning, as long as that can be fetched and reached and sp moves
      forward. */
  lemma GenericPathDelivers(row: Row, isFirstFrame: bool, regs: Regs, stack: Stack)
    requires row.cfa.RegisterAndOffset? && (row.cfa.register == SP || row.cfa.register == X29)
    requires row.fp.Offset? || row.fp.SameValue? || row.fp.Undefined?
    requires row.lr.Offset? || row.lr.SameValue? || (row.lr.Undefined? && isFirstFrame)
    requires Fetchable(RowMeaning(row, regs), stack) && RowReachable(row, regs)
    requires !isFirstFrame ==> Cfa(row, regs) > regs.sp
    ensures var m := RowMeaning(row, regs);
      var lr := Fetch(m.lr, stack).value;
      EvalRow(row, isFirstFrame, regs, stack) ==
        if FramePointerLost(row, isFirstFrame) then Err(CouldNotRecoverFramePointer)
        else Ok(Recovered(lr, Regs(regs.mask, StripPtrAuth(regs.mask, lr), m.sp, Fetch(m.fp, stack).value)))
  {
    hide BitAnd;
    var cfa := Cfa(row, regs);
    assert EvalCfaRule(row.cfa, DwarfView(regs)) == Some(cfa);
    GenericReadsSource(row.fp, cfa, regs.fp, DwarfView(regs), stack);
    GenericReadsSource(row.lr, cfa, regs.lr, DwarfView(regs), stack);
  }

  /** The rule has found a caller. */
  ghost predicate RuleFinds(row: Row, isFirstFrame: bool, regs: Regs, stack: Stack) {
    Translate(row).Ok? && Exec(Translate(row).value, isFirstFrame, regs, stack).FoundCaller()
  }

  /** The generic path has the same registers as the rule and, once stripped, the same return address. */
  ghost predicate Agrees(row: Row, isFirstFrame: bool, regs: Regs, stack: Stack) {
    var g := EvalRow(row, isFirstFrame, regs, stack);
    && Translate(row).Ok? && g.Ok?
    && Exec(Translate(row).value, isFirstFrame, regs, stack)
         == Outcome(Ok(Some(StripPtrAuth(regs.mask, g.value.ra))), g.value.regs)
  }

  /** What the rule of an aligned row found is what the row means. */
  lemma RuleFindsMeaning(row: Row, isFirstFrame: bool, regs: Regs, stack: Stack)
    requires Aligned(row)
    ensures RuleFinds(row, isFirstFrame, regs, stack) ==>
      var m, o := RowMeaning(row, regs), Exec(Translate(row).value, isFirstFrame, regs, stack);
      && Fetchable(m, stack)
      && o.regs == Regs(regs.mask, StripPtrAuth(regs.mask, Fetch(m.lr, stack).value), m.sp, Fetch(m.fp, stack).value)
      && o.result.value.value == o.regs.lr
      && (!isFirstFrame ==> m.sp > regs.sp && !row.lr.Undefined?)
  {
    if RuleFinds(row, isFirstFrame, regs, stack) {
      TranslationIsNear(row);
      ExecFollowsMeaning(Translate(row).value, isFirstFrame, regs, stack);
      TranslationKeepsMeaning(row, isFirstFrame, regs);
    }
    hide Exec, Translate, MeaningOf, BitAnd, Fetch, WrapI64, TruncDiv8;
  }

  /** If the rule of an aligned row finds a caller, then so does the generic evaluation of the row, with the
      same registers and, once stripped, the same return address, wherever it can reach. The only
      exception is an undefined frame pointer after the first frame, which the generic path refuses. */
  lemma RuleAgreesWithGenericPath(row: Row, isFirstFrame: bool, regs: Regs, stack: Stack)
    requires Aligned(row) && RowReachable(row, regs) && RuleFinds(row, isFirstFrame, regs, stack)
    ensures if FramePointerLost(row, isFirstFrame)
      then EvalRow(row, isFirstFrame, regs, stack) == Err(CouldNotRecoverFramePointer)
      else Agrees(row, isFirstFrame, regs, stack)
  {
    TranslationIsNear(row);
    RuleFindsMeaning(row, isFirstFrame, regs, stack);
    hide Exec, Translate, BitAnd, EvalRow, Fetch, WrapI64, TruncDiv8;
    GenericPathDelivers(row, isFirstFrame, regs, stack);
  }

  // ----- exactly when they agree -----

  /** A register which the generic path reads as well, or keeps by chance. */
  ghost predicate SameAnyway(rule: RegisterRule, cfa: int, isFirstFrame: bool, kept: U64, found: U64) {
    SlotReachable(rule, cfa) || (isFirstFrame && kept == found)
  }

  /** The exact bound: for an aligned row whose rule finds a caller, the generic path agrees if and only if
      the base register and the CFA are below 2^63, and so is each slot, except that in the first frame
      a register it cannot reach is kept; and fp is not lost. */
  lemma AgreesExactly(row: Row, isFirstFrame: bool, regs: Regs, stack: Stack)
    requires Aligned(row)
    ensures RuleFinds(row, isFirstFrame, regs, stack) ==>
      var o, cfa := Exec(Translate(row).value, isFirstFrame, regs, stack), Cfa(row, regs);
      Agrees(row, isFirstFrame, regs, stack) <==>
        && !FramePointerLost(row, isFirstFrame)
        && BaseReachable(row, regs)
        && SameAnyway(row.fp, cfa, isFirstFrame, regs.fp, o.regs.fp)
        && SameAnyway(row.lr, cfa, isFirstFrame, StripPtrAuth(regs.mask, regs.lr), o.regs.lr)
  {
    RuleFindsMeaning(row, isFirstFrame, regs, stack);
    hide Exec, Translate, BitAnd, WrapI64, TruncDiv8, EvalRow;
    if RuleFinds(row, isFirstFrame, regs, stack) {
      TranslationIsNear(row);
      EvalRowExactly(row, isFirstFrame, regs, stack);
    }
    hide Fetch;
  }

  /** What the generic path makes of a row whose meaning can be fetched. */
  lemma EvalRowExactly(row: Row, isFirstFrame: bool, regs: Regs, stack: Stack)
    requires row.cfa.RegisterAndOffset? && (row.cfa.register == SP || row.cfa.register == X29)
    requires row.fp.Offset? || row.fp.SameValue? || row.fp.Undefined?
    requires row.lr.Offset? || row.lr.SameValue? || (row.lr.Undefined? && isFirstFrame)
    requires Fetchable(RowMeaning(row, regs), stack)
    requires !isFirstFrame ==> Cfa(row, regs) > regs.sp
    ensures var m, g := RowMeaning(row, regs), EvalRow(row, isFirstFrame, regs, stack);
      && (g.Ok? <==>
            && BaseReachable(row, regs)
            && (!isFirstFrame ==>
                  && !row.fp.Undefined?
                  && SlotReachable(row.fp, Cfa(row, regs)) && SlotReachable(row.lr, Cfa(row, regs))))
      && (g.Ok? ==>
            && g.value.regs.mask == regs.mask && g.value.regs.sp == m.sp
            && g.value.regs.lr == StripPtrAuth(regs.mask, g.value.ra)
            && g.value.regs.fp == (if SlotReachable(row.fp, Cfa(row, regs)) then Fetch(m.fp, stack).value else regs.fp)
            && g.value.ra == (if SlotReachable(row.lr, Cfa(row, regs)) then Fetch(m.lr, stack).value else regs.lr))
  {
    hide BitAnd;
    var cfa := Cfa(row, regs);
    if BaseReachable(row, regs) {
      assert EvalCfaRule(row.cfa, DwarfView(regs)) == Some(cfa);
      GenericReadsSource(row.fp, cfa, regs.fp, DwarfView(regs), stack);
      GenericReadsSource(row.lr, cfa, regs.lr, DwarfView(regs), stack);
    } else {
      assert EvalCfaRule(row.cfa, DwarfView(regs)) == None;
    }
    hide EvalRegisterRule, EvalCfaRule;
  }

  const WITNESS_BASE: U64 := 0x1000_0000

  function WitnessRegs(row: Row): Regs
    requires row.cfa.RegisterAndOffset?
  {
    Regs(0xffff_ffff_ffff_ffff, 1, if row.cfa.register == SP then WITNESS_BASE else 0, WITNESS_BASE)
  }

  lemma TruncatedIsNear(row: Row)
    requires Translate(row).Ok?
    ensures row.cfa.RegisterAndOffset?
    ensures var m := TruncatedMeaning(row, WitnessRegs(row));
      && WitnessRegs(row).sp <= m.sp < 0x2000_0000 && 0 < m.sp
      && (row.fp.Offset? ==> 0 <= m.fp.address < 0x2000_0000)
      && (row.lr.Offset? ==> 0 <= m.lr.address < 0x2000_0000)
  {
    TranslationIsNear(row);
    hide Translate, WrapI64;
    if row.lr.Offset? {
      NearStorage(row.cfa.offset, row.lr.offset);
    }
    if row.fp.Offset? {
      NearStorage(row.cfa.offset, row.fp.offset);
    }
  }

  lemma WitnessIsFound(row: Row)
    requires Translate(row).Ok?
    ensures row.cfa.RegisterAndOffset?
    ensures RuleFinds(row, true, WitnessRegs(row), FarAddresses())
    ensures var regs := WitnessRegs(row);
      var m, after := TruncatedMeaning(row, regs), Exec(Translate(row).value, true, regs, FarAddresses()).regs;
      && after.sp == m.sp
      && (row.fp.Offset? ==> 0 <= m.fp.address < 0x2000_0000 && after.fp == Far(m.fp.address))
      && (row.lr.Offset? ==> 0 <= m.lr.address < 0x2000_0000 && after.lr == Far(m.lr.address))
  {
    hide Exec, Translate, BitAnd, MeaningOf, FarAddresses, TruncDiv8, TruncDiv16;
    TranslationIsNear(row);
    TruncatedIsNear(row);
    var regs, rule := WitnessRegs(row), Translate(row).value;
    TranslationTruncates(row, true, regs);
    ExecFollowsMeaning(rule, true, regs, FarAddresses());
    FarIsFetchable(TruncatedMeaning(row, regs));
  }

  lemma FarIsFetchable(m: Meaning)
    requires FitsU64(m.sp)
    requires m.fp.Stored? ==> 0 <= m.fp.address < 0x2000_0000
    requires m.lr.Stored? ==> 0 <= m.lr.address < 0x2000_0000
    ensures Fetchable(m, FarAddresses())
    ensures m.fp.Stored? ==> Fetch(m.fp, FarAddresses()) == Some(Far(m.fp.address))
    ensures m.lr.Stored? ==> Fetch(m.lr, FarAddresses()) == Some(Far(m.lr.address))
    ensures var lr := Fetch(m.lr, FarAddresses()).value;
      StripPtrAuth(0xffff_ffff_ffff_ffff, lr) == lr
  {
    hide FarAddresses, BitAnd;
    AllOnesStripNothing(Fetch(m.lr, FarAddresses()).value);
  }

  /** The slots of the witness are all near its base. */
  lemma WitnessIsNear(row: Row)
    requires Translate(row).Ok?
    ensures row.cfa.RegisterAndOffset? && RowReachable(row, WitnessRegs(row))
    ensures var cfa := Cfa(row, WitnessRegs(row));
      && 0 <= cfa < 0x2000_0000
      && (row.fp.Offset? ==> 0 <= cfa + row.fp.offset < 0x2000_0000)
      && (row.lr.Offset? ==> 0 <= cfa + row.lr.offset < 0x2000_0000)
  {
    TranslationIsNear(row);
    hide Translate, WrapI64, TruncDiv8;
    if row.lr.Offset? {
      NearStorage(row.cfa.offset, row.lr.offset);
    }
    if row.fp.Offset? {
      NearStorage(row.cfa.offset, row.fp.offset);
    }
  }

  /** The generic path in the same place. */
  lemma WitnessIsEvaluated(row: Row)
    requires Translate(row).Ok?
    ensures row.cfa.RegisterAndOffset? && RowReachable(row, WitnessRegs(row))
    ensures var g, cfa := EvalRow(row, true, WitnessRegs(row), FarAddresses()), Cfa(row, WitnessRegs(row));
      && g.Ok? && g.value.regs.sp == cfa
      && (row.fp.Offset? ==> 0 <= cfa + row.fp.offset < 0x2000_0000 && g.value.regs.fp == Far(cfa + row.fp.offset))
      && (row.lr.Offset? ==> 0 <= cfa + row.lr.offset < 0x2000_0000 && g.value.regs.lr == Far(cfa + row.lr.offset))
  {
    hide Translate, EvalRow, BitAnd, WrapI64, TruncDiv8, FarAddresses;
    TranslationIsNear(row);
    WitnessIsNear(row);
    EvalRowExactly(row, true, WitnessRegs(row), FarAddresses());
    if row.lr.Offset? {
      AllOnesStripNothing(Far(Cfa(row, WitnessRegs(row)) + row.lr.offset));
    }
  }

  /** Every translated row that is not aligned misleads: its rule and the generic path both find a caller,
      and not the same. */
  lemma UnalignedRowDisagrees(row: Row)
    requires Translate(row).Ok? && !Aligned(row)
    ensures row.cfa.RegisterAndOffset? && RowReachable(row, WitnessRegs(row))
    ensures RuleFinds(row, true, WitnessRegs(row), FarAddresses())
    ensures EvalRow(row, true, WitnessRegs(row), FarAddresses()).Ok?
    ensures !Agrees(row, true, WitnessRegs(row), FarAddresses())
  {
    hide Exec, Translate, BitAnd, WrapI64, EvalRow, TruncDiv8, TruncDiv16, FarAddresses, MeaningOf, Fetchable;
    TranslationIsNear(row);
    WitnessIsFound(row);
    WitnessIsEvaluated(row);
  }

  /** Wherever the rule finds a caller, the generic path finds the same one. */
  ghost predicate AgreesWhereFound(row: Row)
    requires row.cfa.RegisterAndOffset?
  {
    forall isFirstFrame, regs, stack ::
      RuleFinds(row, isFirstFrame, regs, stack) && RowReachable(row, regs) && !FramePointerLost(row, isFirstFrame) ==>
        Agrees(row, isFirstFrame, regs, stack)
  }

  /** For every translated row: wherever the rule finds a caller, the generic path agrees, if and only if the
      row is aligned. Where the rule finds one at all is another matter, and said below. */
  lemma AgreesWhereFoundExactlyIfAligned(row: Row)
    requires Translate(row).Ok?
    ensures row.cfa.RegisterAndOffset? && (AgreesWhereFound(row) <==> Aligned(row))
  {
    hide Agrees, Aligned, RowReachable;
    TranslationIsNear(row);
    if Aligned(row) {
      forall isFirstFrame, regs, stack |
        RuleFinds(row, isFirstFrame, regs, stack) && RowReachable(row, regs) && !FramePointerLost(row, isFirstFrame)
        ensures Agrees(row, isFirstFrame, regs, stack)
      {
        RuleAgreesWithGenericPath(row, isFirstFrame, regs, stack);
      }
    } else {
      UnalignedRowDisagrees(row);
    }
  }

  // ----- where the rule finds the generic path's caller -----

  /** The generic path finds a caller. Unlike a rule it does not look at the return address itself. */
  ghost predicate GenericFinds(row: Row, isFirstFrame: bool, regs: Regs, stack: Stack) {
    var g := EvalRow(row, isFirstFrame, regs, stack);
    g.Ok? && StripPtrAuth(regs.mask, g.value.ra) != 0
  }

  /** The slot of a stored register can be read. The generic path keeps the register otherwise, if the frame is
      the first one. */
  ghost predicate SlotReadable(rule: RegisterRule, cfa: int, stack: Stack) {
    rule.Offset? ==> FitsU64(cfa + rule.offset) && cfa + rule.offset in stack
  }

  /** What the rules insist on and the generic path does not: after the first frame the return address comes from
      the stack, no slot is missing, and a chain of frame pointers goes up. */
  ghost predicate RuleInsists(row: Row, isFirstFrame: bool, regs: Regs, stack: Stack)
    requires row.cfa.RegisterAndOffset? && EvalRow(row, isFirstFrame, regs, stack).Ok?
  {
    && (!isFirstFrame ==> row.lr.Offset?)
    && SlotReadable(row.fp, Cfa(row, regs), stack) && SlotReadable(row.lr, Cfa(row, regs), stack)
    && (row.cfa.register == X29 ==>
          EvalRow(row, isFirstFrame, regs, stack).value.regs.fp > regs.fp && Cfa(row, regs) > regs.sp)
  }

  /** What the generic path can fetch, so can a rule. */
  lemma ReadableIsFetchable(row: Row, isFirstFrame: bool, regs: Regs, stack: Stack)
    requires row.cfa.RegisterAndOffset? && (row.cfa.register == SP || row.cfa.register == X29)
    ensures Fetchable(RowMeaning(row, regs), stack) ==>
      SlotReadable(row.fp, Cfa(row, regs), stack) && SlotReadable(row.lr, Cfa(row, regs), stack)
    ensures EvalRow(row, isFirstFrame, regs, stack).Ok? ==>
      && (!isFirstFrame ==> Cfa(row, regs) > regs.sp)
      && (SlotReadable(row.fp, Cfa(row, regs), stack) && SlotReadable(row.lr, Cfa(row, regs), stack) ==>
            Fetchable(RowMeaning(row, regs), stack))
  {
    hide BitAnd, EvalRegisterRule;
  }

  /** What executing the rule of an aligned row checks, in the terms of the row. */
  lemma RuleFindsIfAccepted(row: Row, isFirstFrame: bool, regs: Regs, stack: Stack)
    requires Translate(row).Ok? && Aligned(row)
    ensures RuleFinds(row, isFirstFrame, regs, stack) <==>
      var m := RowMeaning(row, regs);
      && (isFirstFrame || row.lr.Offset?) && Fetchable(m, stack)
      && StripPtrAuth(regs.mask, Fetch(m.lr, stack).value) != 0
      && (row.cfa.register == X29 ==> Fetch(m.fp, stack).value > regs.fp && m.sp > regs.sp)
      && (!isFirstFrame ==> m.sp > regs.sp)
  {
    ExecFollowsMeaning(Translate(row).value, isFirstFrame, regs, stack);
    TranslationKeepsMeaning(row, isFirstFrame, regs);
    KindOfRule(row, isFirstFrame);
    hide Exec, Translate, MeaningOf, BitAnd, Fetchable, RowMeaning, Fetch;
  }

  lemma KindOfRule(row: Row, isFirstFrame: bool)
    requires Translate(row).Ok?
    ensures row.cfa.RegisterAndOffset?
    ensures WalksFramePointers(Translate(row).value) <==> row.cfa.register == X29
    ensures AllowedHere(Translate(row).value, isFirstFrame) <==> isFirstFrame || row.lr.Offset?
  {
    hide WrapI64, TruncDiv8, TruncDiv16;
  }

  /** For every aligned row within reach of the generic path, with fp not lost: the rule finds a caller, which
      then is the same, if and only if the generic path finds one and passes what rules insist on. */
  lemma RuleFindsExactly(row: Row, isFirstFrame: bool, regs: Regs, stack: Stack)
    requires Translate(row).Ok? && Aligned(row) && RowReachable(row, regs) && !FramePointerLost(row, isFirstFrame)
    ensures RuleFinds(row, isFirstFrame, regs, stack) <==>
      GenericFinds(row, isFirstFrame, regs, stack) && RuleInsists(row, isFirstFrame, regs, stack)
    ensures RuleFinds(row, isFirstFrame, regs, stack) ==> Agrees(row, isFirstFrame, regs, stack)
  {
    hide Exec, Translate, BitAnd, EvalRow, Agrees, Aligned, WrapI64, TruncDiv8;
    TranslationIsNear(row);
    RuleFindsIfAccepted(row, isFirstFrame, regs, stack);
    ReadableIsFetchable(row, isFirstFrame, regs, stack);
    hide Fetch;
    var m := RowMeaning(row, regs);
    if Fetchable(m, stack) && (isFirstFrame || (row.lr.Offset? && m.sp > regs.sp)) {
      EvalRowExactly(row, isFirstFrame, regs, stack);
    }
    if RuleFinds(row, isFirstFrame, regs, stack) {
      RuleAgreesWithGenericPath(row, isFirstFrame, regs, stack);
    }
  }

  /** After the first frame the stack ends, without an error, at exactly those translated rows that leave lr
      undefined, unless a null pointer was fetched. */
  lemma UndefinedReturnAddressEndsStack(row: Row, regs: Regs, stack: Stack)
    requires Translate(row).Ok?
    ensures var o := Exec(Translate(row).value, false, regs, stack);
      && (row.lr.Undefined? ==> o == Outcome(Ok(None), regs))
      && (o.result == Ok(None) && !row.lr.Undefined? ==>
            var m := MeaningOf(Translate(row).value, false, regs);
            && Fetchable(m, stack)
            && (Fetch(m.fp, stack) == Some(0) || StripPtrAuth(regs.mask, Fetch(m.lr, stack).value) == 0))
  {
    TranslationIsNear(row);
    ExecEndsExactly(Translate(row).value, false, regs, stack);
    assert !row.lr.Undefined? ==> !Translate(row).value.OffsetSpIfFirstFrameOtherwiseStackEndsHere?;
    hide Exec, Translate, BitAnd;
    if row.lr.Undefined? {
      ExecFollowsMeaning(Translate(row).value, false, regs, stack);
    }
  }

  /** The rows for which there is a cacheable rule, in bytes. */
  predicate Cacheable(row: Row) {
    && row.cfa.RegisterAndOffset?
    && Storable(row.lr, row.cfa.offset) && Storable(row.fp, row.cfa.offset)
    && (|| (row.cfa.register == SP && -16 < row.cfa.offset < 0x10_0000 && (row.fp.Offset? ==> row.lr.Offset?))
        || (row.cfa.register == X29 && -8 < row.cfa.offset < 0x8_0000 && row.fp.Offset? && row.lr.Offset?))
  }

  /** No other row translates, and all of these do, aligned or not. */
  lemma TranslatesExactly(row: Row)
    ensures Translate(row).Ok? <==> Cacheable(row)
  {
    if row.cfa.RegisterAndOffset? && -16 < row.cfa.offset < 0x10_0000 {
      if row.lr.Offset? {
        StorageFitsExactly(row.cfa.offset, row.lr.offset);
      }
      if row.fp.Offset? {
        StorageFitsExactly(row.cfa.offset, row.fp.offset);
      }
      hide WrapI64;
    }
  }

  // ----- which rows the generic path can evaluate -----

  /** Rows that the generic path does not evaluate for any registers. What it evaluates in a later frame, it
      evaluates in a first one. */
  ghost predicate NeverEvaluates(row: Row) {
    forall regs, stack :: EvalRow(row, true, regs, stack).Err?
  }

  /** Rows that the generic path evaluates for all registers and all kinds of frames in question. */
  ghost predicate NeverFails(row: Row, firstFrameOnly: bool) {
    forall isFirstFrame, regs, stack :: isFirstFrame || !firstFrameOnly ==> EvalRow(row, isFirstFrame, regs, stack).Ok?
  }

  lemma LaterFramesAreStricter(row: Row, isFirstFrame: bool, regs: Regs, stack: Stack)
    ensures EvalRow(row, isFirstFrame, regs, stack).Ok? ==> EvalRow(row, true, regs, stack).Ok?
  {
    hide BitAnd, EvalRegisterRule, EvalCfaRule;
  }

  /** In a first frame, the stack does not matter. */
  lemma EvaluatesWithoutStack(row: Row, regs: Regs, stack: Stack)
    ensures EvalRow(row, true, regs, stack).Ok? <==> EvalCfaRule(row.cfa, DwarfView(regs)).Some?
    ensures EvalRow(row, true, regs, stack).Ok? ==> EvalRow(row, true, regs, map[]).Ok?
  {
    hide BitAnd, EvalRegisterRule, EvalCfaRule;
  }

  /** A known register and an offset which some value of it can make up for. */
  predicate Evaluable(cfa: CfaRule) {
    && cfa.RegisterAndOffset? && (cfa.register == SP || cfa.register == X29 || cfa.register == X30)
    && cfa.offset > -0x8000_0000_0000_0000
  }

  /** A row without a CFA expression never evaluates if and only if its CFA is not evaluable; and it does fail
      somewhere, already in a first frame. */
  lemma PlainRowEvaluatesExactly(row: Row)
    requires row.cfa.RegisterAndOffset?
    ensures NeverEvaluates(row) <==> !Evaluable(row.cfa)
    ensures !NeverFails(row, true)
  {
    hide BitAnd, EvalRegisterRule;
    var low: U64 := if -0x8000_0000_0000_0000 < row.cfa.offset < 0 then -row.cfa.offset else 0;
    var high: U64 := 0x8000_0000_0000_0000;
    var regs := Regs(0, low, low, low);
    assert Evaluable(row.cfa) ==> EvalRow(row, true, regs, map[]).Ok?;
    assert EvalRow(row, true, Regs(0, high, high, high), map[]).Err?;
  }

  /** A row with a CFA expression never evaluates if and only if the expression never does. It never fails only
      if the expression never does, and only in first frames. */
  lemma ExpressionRowEvaluatesExactly(row: Row)
    requires row.cfa.CfaExpression?
    ensures NeverEvaluates(row) <==> forall regs :: row.cfa.value(DwarfView(regs)).None?
    ensures NeverFails(row, true) <==> forall regs :: row.cfa.value(DwarfView(regs)).Some?
    ensures !NeverFails(row, false)
  {
    hide BitAnd, EvalRegisterRule, DwarfView;
    forall regs, stack ensures EvalRow(row, true, regs, stack).Ok? <==> row.cfa.value(DwarfView(regs)).Some? {
      EvaluatesWithoutStack(row, regs, stack);
    }
    if forall regs, stack :: EvalRow(row, true, regs, stack).Err? {
      forall regs ensures row.cfa.value(DwarfView(regs)).None? {
        assert EvalRow(row, true, regs, map[]).Err?;
      }
    }
    if NeverFails(row, true) {
      forall regs ensures row.cfa.value(DwarfView(regs)).Some? {
        assert EvalRow(row, true, regs, map[]).Ok?;
      }
    }
    assert EvalRow(row, false, Regs(0, 0, 0xffff_ffff_ffff_ffff, 0), map[]).Err?;
  }
}
