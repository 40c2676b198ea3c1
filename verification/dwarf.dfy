/** DWARF call frame information: rows of register rules (section 6.4.1 of DWARF Version 5) and their generic
    evaluation. Evaluating an expression asks for nothing but registers, so that an expression is some
    function of them. */
module Dwarf {
  import opened Words
  import opened Frames

  /** A DWARF register number. */
  type Register = nat

  /** The registers an architecture answers for, by DWARF number. */
  type DwarfRegs = map<Register, U64>

  /** What an expression evaluates to, or `None` for the many ways in which evaluation may fail. */
  type Expr = DwarfRegs -> Option<U64>

  datatype CfaRule =
    | RegisterAndOffset(register: Register, offset: I64)
    | CfaExpression(value: Expr)

  datatype RegisterRule =
    | Undefined
    | SameValue
    | Offset(offset: I64)
    | ValOffset(offset: I64)
    | InRegister(register: Register)
    | Expression(address: Expr)
    | ValExpression(value: Expr)
    | Architectural

  datatype DwarfError =
    | StackPointerMovedBackwards
    | DwarfDidNotAdvance
    | CouldNotRecoverCfa
    | CouldNotRecoverReturnAddress
    | CouldNotRecoverFramePointer

  datatype ConversionError =
    | CfaIsExpression
    | CfaIsOffsetFromUnknownRegister
    | ReturnAddressRuleWithUnexpectedOffset
    | ReturnAddressRuleWasWeird
    | SpOffsetDoesNotFit
    | RegisterNotStoredRelativeToCfa
    | RestoringFpButNotLr
    | LrStorageOffsetDoesNotFit
    | FpStorageOffsetDoesNotFit
    | SpOffsetFromFpDoesNotFit
    | FramePointerRuleDoesNotRestoreLr
    | FramePointerRuleDoesNotRestoreFp
    | FramePointerRuleDoesNotRestoreBp
    | FramePointerRuleHasStrangeBpOffset

  /** `u64::try_from(i64::try_from(val)?.checked_add(offset)?)` */
  function AddThroughI64(val: U64, offset: I64): Option<U64> {
    if !FitsI64(val) || !FitsI64(val + offset) || val + offset < 0 then None else Some(val + offset)
  }

  function EvalCfaRule(rule: CfaRule, regs: DwarfRegs): Option<U64> {
    match rule
    case RegisterAndOffset(register, offset) =>
      if register in regs then AddThroughI64(regs[register], offset) else None
    case CfaExpression(value) => value(regs)
  }

  function TryRead(stack: Stack, address: U64): Option<U64> {
    if address in stack then Some(stack[address]) else None
  }

  function EvalRegisterRule(rule: RegisterRule, cfa: U64, val: U64, regs: DwarfRegs, stack: Stack): Option<U64> {
    match rule
    case Undefined => None
    case SameValue => Some(val)
    case Offset(offset) =>
      var address :- AddThroughI64(cfa, offset);
      TryRead(stack, address)
    case ValOffset(offset) => AddThroughI64(cfa, offset)
    case InRegister(register) => if register in regs then Some(regs[register]) else None
    case Expression(location) =>
      var address :- location(regs);
      TryRead(stack, address)
    case ValExpression(value) => value(regs)
    case Architectural => None
  }

  function RegisterRuleToCfaOffset(rule: RegisterRule): Result<Option<I64>, ConversionError> {
    match rule
    case Undefined => Ok(None)
    case SameValue => Ok(None)
    case Offset(offset) => Ok(Some(offset))
    case _ => Err(RegisterNotStoredRelativeToCfa)
  }

  /** `u16::try_from` and `i16::try_from` with the caller's error. */
  function TryU16(x: int, e: ConversionError): Result<U16, ConversionError> {
    if FitsU16(x) then Ok(x) else Err(e)
  }

  function TryI16(x: int, e: ConversionError): Result<I16, ConversionError> {
    if FitsI16(x) then Ok(x) else Err(e)
  }

  /** What the i64 arithmetic of the generic path can reach. */
  predicate Reachable(address: int) { address < 0x8000_0000_0000_0000 }

  predicate SlotReachable(rule: RegisterRule, cfa: int) {
    rule.Offset? ==> Reachable(cfa + rule.offset)
  }

  /** A register rule stores its register at a multiple of eight bytes from `base`, if anywhere. */
  predicate StoredAligned(rule: RegisterRule, cfaOffset: int) {
    rule.Offset? ==> (cfaOffset + rule.offset) % 8 == 0
  }

  /** A storage offset that passes the i16 test did not wrap around, and is small. */
  lemma NearStorage(cfaOffset: I64, storage: I64)
    requires -16 < cfaOffset < 0x20_0000
    requires FitsI16(TruncDiv8(WrapI64(cfaOffset + storage)))
    ensures WrapI64(cfaOffset + storage) == cfaOffset + storage
    ensures -0x8_0000 <= cfaOffset + storage < 0x8_0000
    ensures (cfaOffset + storage) % 8 == 0 ==> 8 * TruncDiv8(WrapI64(cfaOffset + storage)) == cfaOffset + storage
  {
  }

  /** A register kept, lost, or stored where an i16 count of eight-byte words reaches it from the base. */
  predicate Storable(rule: RegisterRule, cfaOffset: int) {
    || rule.Undefined? || rule.SameValue?
    || (rule.Offset? && -0x4_0008 < cfaOffset + rule.offset < 0x4_0000)
  }

  /** The i16 test accepts a storage offset exactly if it is in reach, in spite of the wrap-around. */
  lemma StorageFitsExactly(cfaOffset: I64, storage: I64)
    requires -16 < cfaOffset < 0x20_0000
    ensures FitsI16(TruncDiv8(WrapI64(cfaOffset + storage))) <==> -0x4_0008 < cfaOffset + storage < 0x4_0000
  {
  }

  // ----- what rules say -----

  /** What a register rule says about the caller's register: nothing, its value, or where it is stored. */
  datatype RowValue = Nothing | Holds(value: U64) | Slot(address: int)

  /** The CFA and the sum lie in the lower half of the address space, where signed numbers are unsigned ones. */
  predicate SumReachable(cfa: int, offset: int) {
    Reachable(cfa) && 0 <= cfa + offset && Reachable(cfa + offset)
  }

  /** The register rules of section 6.4.1 of DWARF Version 5, where `named` gives the values of registers and
      `evaluated` those of expressions. */
  ghost function RuleMeaning(rule: RegisterRule, cfa: int, val: U64, named: Register -> Option<U64>,
                             evaluated: Expr -> Option<U64>): RowValue {
    match rule
    case Undefined => Nothing
    case SameValue => Holds(val)
    case Offset(offset) => if SumReachable(cfa, offset) then Slot(cfa + offset) else Nothing
    case ValOffset(offset) => if SumReachable(cfa, offset) then Holds(cfa + offset) else Nothing
    case InRegister(register) => if named(register).Some? then Holds(named(register).value) else Nothing
    case Expression(e) => if evaluated(e).Some? then Slot(evaluated(e).value) else Nothing
    case ValExpression(e) => if evaluated(e).Some? then Holds(evaluated(e).value) else Nothing
    case Architectural => Nothing
  }

  ghost function Obtain(v: RowValue, stack: Stack): Option<U64> {
    match v
    case Nothing => None
    case Holds(value) => Some(value)
    case Slot(address) => if FitsU64(address) && address in stack then Some(stack[address]) else None
  }

  /** The CFA, likewise. */
  ghost function CfaMeaning(rule: CfaRule, named: Register -> Option<U64>,
                            evaluated: Expr -> Option<U64>): Option<int> {
    match rule
    case RegisterAndOffset(register, offset) =>
      if named(register).Some? && SumReachable(named(register).value, offset) then Some(named(register).value + offset)
      else None
    case CfaExpression(e) => if evaluated(e).Some? then Some(evaluated(e).value as int) else None
  }

  /** The view answers for exactly the registers that have names. */
  ghost predicate ViewOf(view: DwarfRegs, named: Register -> Option<U64>, evaluated: Expr -> Option<U64>) {
    && (forall r :: r in view <==> named(r).Some?)
    && (forall r :: r in view ==> named(r) == Some(view[r]))
    && forall e: Expr :: evaluated(e) == e(view)
  }

  /** Evaluation does what the rules say. */
  lemma EvaluationFollowsRules(rule: RegisterRule, cfaRule: CfaRule, cfa: U64, val: U64, view: DwarfRegs, stack: Stack,
                               named: Register -> Option<U64>, evaluated: Expr -> Option<U64>)
    requires ViewOf(view, named, evaluated)
    ensures EvalRegisterRule(rule, cfa, val, view, stack)
         == Obtain(RuleMeaning(rule, cfa, val, named, evaluated), stack)
    ensures EvalCfaRule(cfaRule, view).Some? <==> CfaMeaning(cfaRule, named, evaluated).Some?
    ensures EvalCfaRule(cfaRule, view).Some? ==>
      EvalCfaRule(cfaRule, view).value == CfaMeaning(cfaRule, named, evaluated).value
  {
  }
}
