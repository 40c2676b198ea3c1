/** Windows x64 epilogs: compiling a sequence of operations into one rule, and simulating the
    operations one by one. */
module X86Pe {
  import opened Words
  import opened Frames
  import opened X86Regs
  import opened RegisterOrdering
  import opened CalleeSaved
  import opened X86Rule
  import X86Progress
  import X86Code

  /** The instructions left in an epilog. */
  datatype EpilogInstruction = AddSP(offset: U32) | AddSPFromFP(offset: U32) | Pop(reg: Reg)

  datatype OffsetOrPop = Neither | OffsetBy8(by8: U16) | PopRegister(reg: Reg)

  function ToOffsetOrPop(i: EpilogInstruction): OffsetOrPop {
    match i
    case AddSP(offset) => if FitsU16(offset / 8) then OffsetBy8(offset / 8) else Neither
    case Pop(reg) => PopRegister(reg)
    case AddSPFromFP(_) => Neither
  }

  /** The leading offset, if there is one, and the operations after it. */
  function SplitOffset(ops: seq<OffsetOrPop>): (U16, seq<OffsetOrPop>) {
    if ops != [] && ops[0].OffsetBy8? then (ops[0].by8, ops[1..]) else (0, ops)
  }

  /** The popped registers, if there is nothing but pops. */
  function PoppedRegisters(ops: seq<OffsetOrPop>): (r: Option<seq<Reg>>)
    ensures r.Some? ==> |r.value| == |ops|
  {
    if ops == [] then Some([])
    else if !ops[0].PopRegister? then None
    else
      var rest :- PoppedRegisters(ops[1..]);
      Some([ops[0].reg] + rest)
  }

  /** `for_sequence_of_offset_or_pop`: the rule for an optional offset followed by pops. */
  function RuleForSequence(ops: seq<OffsetOrPop>): Option<Rule> {
    var (by8, pops) := SplitOffset(ops);
    match PoppedRegisters(pops)
    case None => None
    case Some(list) =>
      if list == [] && by8 == 0 then Some(JustReturn)
      else if |list| > 8 then None
      else match EncodeIn(ENCODE_REGISTERS, list)
      case None => None
      case Some(code) =>
        CodeBelowFactorial(ENCODE_REGISTERS, list); TableFacts();
        Some(OffsetSpAndPopRegisters(by8, |list|, code))
  }

  lemma {:induction false} PoppedRegistersOfPrefix(ops: seq<OffsetOrPop>, i: nat)
    requires i < |ops|
    ensures PoppedRegisters(ops[..i + 1]) ==
      if PoppedRegisters(ops[..i]).Some? && ops[i].PopRegister?
      then Some(PoppedRegisters(ops[..i]).value + [ops[i].reg]) else None
    decreases i
  {
    if i == 0 {
      var one, none := ops[..1], ops[..0];
      assert one[0] == ops[0] && one[1..] == [] && none == [];
      if ops[0].PopRegister? {
        assert PoppedRegisters(one).value == [ops[0].reg];
        assert PoppedRegisters(none).value + [ops[0].reg] == [ops[0].reg];
      }
    } else {
      PoppedRegistersOfPrefix(ops[1..], i - 1);
      assert ops[..i + 1][1..] == ops[1..][..i] && ops[..i][1..] == ops[1..][..i - 1];
      if PoppedRegisters(ops[..i]).Some? && ops[i].PopRegister? {
        var rest := PoppedRegisters(ops[1..][..i - 1]).value;
        assert [ops[0].reg] + (rest + [ops[i].reg]) == [ops[0].reg] + rest + [ops[i].reg];
      }
    }
  }

  lemma {:induction false} PrefixOfPops(ops: seq<OffsetOrPop>, i: nat)
    requires i <= |ops| && PoppedRegisters(ops).Some?
    ensures PoppedRegisters(ops[..i]) == Some(PoppedRegisters(ops).value[..i])
    decreases |ops|
  {
    if ops != [] {
      PrefixOfPops(ops[1..], if i == 0 then 0 else i - 1);
      if i != 0 {
        assert ops[..i][1..] == ops[1..][..i - 1];
        assert PoppedRegisters(ops).value[..i] == [ops[0].reg] + PoppedRegisters(ops[1..]).value[..i - 1];
      }
    }
  }

  /** The loop that collects the registers; it gives up at the ninth. */
  method CompileRule(ops: seq<OffsetOrPop>) returns (rule: Option<Rule>)
    ensures rule == RuleForSequence(ops)
  {
    hide EncodeIn;
    var (by8, pops) := SplitOffset(ops);
    var list: seq<Reg> := [];
    var i := 0;
    while i < |pops|
      invariant 0 <= i <= |pops| && |list| == i <= 8
      invariant PoppedRegisters(pops[..i]) == Some(list)
    {
      PoppedRegistersOfPrefix(pops, i);
      if PoppedRegisters(pops).Some? {
        PrefixOfPops(pops, i + 1);
      }
      if !pops[i].PopRegister? || |list| == 8 {
        return None;
      }
      list := list + [pops[i].reg];
      i := i + 1;
    }
    assert pops[..i] == pops;
    if list == [] && by8 == 0 {
      return Some(JustReturn);
    }
    var encoded := Encode(list);
    rule := if encoded.None? then None else Some(OffsetSpAndPopRegisters(by8, encoded.value.0, encoded.value.1));
  }

  // ----- simulation -----

  /** The outcome of simulating an epilog: the return address, or the address that could not be read;
      and the registers. The simulation does not set ip. */
  datatype Simulated = Returned(ra: U64, regs: Regs) | MissingStackData(address: U64, regs: Regs)

  /** One operation after the other; then pop the return address. */
  function Simulate(ops: seq<EpilogInstruction>, frameRegister: Reg, regs: Regs, stack: Stack): Simulated {
    var rsp := regs.Sp();
    if ops == [] then
      if rsp !in stack then MissingStackData(rsp, regs) else Returned(stack[rsp], regs.Set(RSP, AddMod64(rsp, 8)))
    else match ops[0]
    case AddSP(offset) => Simulate(ops[1..], frameRegister, regs.Set(RSP, AddMod64(rsp, offset)), stack)
    case AddSPFromFP(offset) =>
      Simulate(ops[1..], frameRegister, regs.Set(RSP, AddMod64(regs.Get(frameRegister), offset)), stack)
    case Pop(reg) =>
      if rsp !in stack then MissingStackData(rsp, regs)
      else Simulate(ops[1..], frameRegister, regs.Set(reg, stack[rsp]).Set(RSP, AddMod64(rsp, 8)), stack)
  }

  /** The simulation in place. */
  method SimulateInPlace(ops: seq<EpilogInstruction>, frameRegister: Reg, regs: UnwindRegs, stack: Stack)
    returns (r: Result<U64, U64>)
    requires regs.Valid()
    modifies regs.file
    ensures match Simulate(ops, frameRegister, old(regs.Values()), stack)
      case Returned(ra, after) => r == Ok(ra) && regs.Values() == after
      case MissingStackData(address, after) => r == Err(address) && regs.Values() == after
  {
    var i := 0;
    while i < |ops|
      invariant 0 <= i <= |ops|
      invariant Simulate(ops[i..], frameRegister, regs.Values(), stack)
             == Simulate(ops, frameRegister, old(regs.Values()), stack)
    {
      assert ops[i..][1..] == ops[i + 1..];
      var rsp := regs.file[RSP];
      match ops[i] {
        case AddSP(offset) =>
          regs.Set(RSP, AddMod64(rsp, offset));
        case AddSPFromFP(offset) =>
          var fp := regs.file[frameRegister];
          regs.Set(RSP, AddMod64(fp, offset));
        case Pop(reg) =>
          if rsp !in stack {
            return Err(rsp);
          }
          regs.Set(reg, stack[rsp]);
          regs.Set(RSP, AddMod64(rsp, 8));
      }
      i := i + 1;
    }
    var rsp := regs.file[RSP];
    if rsp !in stack {
      return Err(rsp);
    }
    regs.Set(RSP, AddMod64(rsp, 8));
    return Ok(stack[rsp]);
  }

  // ----- the rule does what the operations do -----

  function Compiled(ops: seq<EpilogInstruction>): seq<OffsetOrPop> {
    seq(|ops|, i requires 0 <= i < |ops| => ToOffsetOrPop(ops[i]))
  }

  /** Where the return address is found, with no width. */
  function FinalSp(ops: seq<EpilogInstruction>, sp: int): int {
    if ops == [] then sp
    else match ops[0]
    case AddSP(offset) => FinalSp(ops[1..], sp + offset)
    case _ => FinalSp(ops[1..], sp + 8)
  }

  predicate AlignedOffsets(ops: seq<EpilogInstruction>) {
    forall i :: 0 <= i < |ops| && ops[i].AddSP? ==> ops[i].offset % 8 == 0
  }

  /** Popping commutes with moving the stack pointer. */
  lemma PopThenMove(regs: Regs, sp: U64, reg: Reg, v: U64, next: U64)
    requires reg != RSP
    ensures regs.Set(RSP, sp).Set(reg, v).Set(RSP, next) == regs.Set(reg, v).Set(RSP, next)
  {
    assert regs.Set(RSP, sp).Set(reg, v).Set(RSP, next).file == regs.Set(reg, v).Set(RSP, next).file;
  }

  lemma FirstPop(ops: seq<EpilogInstruction>, list: seq<Reg>)
    requires ops != [] && PoppedRegisters(Compiled(ops)) == Some(list)
    ensures list != [] && ops[0] == Pop(list[0])
    ensures PoppedRegisters(Compiled(ops[1..])) == Some(list[1..])
  {
    assert Compiled(ops)[1..] == Compiled(ops[1..]);
    assert Compiled(ops)[0] == ToOffsetOrPop(ops[0]);
  }

  /** Simulating pops is the popping loop with the stack pointer kept in the register file. */
  lemma {:induction false} PopsSimulate(ops: seq<EpilogInstruction>, list: seq<Reg>, f: Reg, sp: U64,
                                        regs: Regs, stack: Stack)
    requires PoppedRegisters(Compiled(ops)) == Some(list) && RSP !in list
    requires FitsU64(sp + 8 * |list| + 8)
    ensures var p := PopAll(list, sp, regs, stack);
      var s := Simulate(ops, f, regs.Set(RSP, sp), stack);
      && (p.sp.Err? ==> s.MissingStackData? && p.sp.error == CouldNotReadStack(s.address))
      && (p.sp.Ok? ==>
            && p.sp.value == sp + 8 * |list|
            && s == if p.sp.value in stack then Returned(stack[p.sp.value], p.regs.Set(RSP, p.sp.value + 8))
                    else MissingStackData(p.sp.value, p.regs.Set(RSP, p.sp.value)))
    decreases |ops|
  {
    if ops == [] {
      assert regs.Set(RSP, sp).Set(RSP, sp + 8).file == regs.Set(RSP, sp + 8).file;
    } else {
      FirstPop(ops, list);
      hide Compiled, PoppedRegisters;
      if sp in stack {
        PopThenMove(regs, sp, list[0], stack[sp], sp + 8);
        PopsSimulate(ops[1..], list[1..], f, sp + 8, regs.Set(list[0], stack[sp]), stack);
      }
    }
  }

  /** The registers a compiled sequence pops. */
  function PopsOf(ops: seq<EpilogInstruction>): seq<EpilogInstruction> {
    if ops != [] && ToOffsetOrPop(ops[0]).OffsetBy8? then ops[1..] else ops
  }

  function OffsetOf(ops: seq<EpilogInstruction>): int {
    if ops != [] && ToOffsetOrPop(ops[0]).OffsetBy8? then ops[0].offset else 0
  }

  lemma {:induction false} FinalSpOfPops(ops: seq<EpilogInstruction>, list: seq<Reg>, sp: int)
    requires PoppedRegisters(Compiled(ops)) == Some(list)
    ensures FinalSp(ops, sp) == sp + 8 * |list|
    decreases |ops|
  {
    if ops != [] {
      FirstPop(ops, list);
      FinalSpOfPops(ops[1..], list[1..], sp + 8);
    }
  }

  /** The rule of an epilog, and the registers it pops. */
  ghost predicate RuleIs(rule: Rule, by8: int, list: seq<Reg>) {
    && ValidRule(rule)
    && if rule.JustReturn? then by8 == 0 && list == []
       else rule.OffsetSpAndPopRegisters? && rule.spBy8 == by8 && Decoded(rule.count, rule.code) == list
  }

  /** What a compiled sequence consists of. */
  lemma CompiledShape(ops: seq<EpilogInstruction>, sp: U64)
    requires RuleForSequence(Compiled(ops)).Some?
    ensures PoppedRegisters(Compiled(PopsOf(ops))).Some?
    ensures var list := PoppedRegisters(Compiled(PopsOf(ops))).value;
      && FinalSp(ops, sp) == sp + OffsetOf(ops) + 8 * |list|
      && RSP !in list && |list| <= 8
      && 0 <= OffsetOf(ops) && FitsU16(OffsetOf(ops) / 8)
      && RuleIs(RuleForSequence(Compiled(ops)).value, OffsetOf(ops) / 8, list)
  {
    hide EncodeIn, Decoded;
    var c := Compiled(ops);
    if ops != [] {
      assert c[0] == ToOffsetOrPop(ops[0]);
      assert c[1..] == Compiled(ops[1..]);
    }
    var (by8, pops) := SplitOffset(c);
    assert pops == Compiled(PopsOf(ops));
    var list := PoppedRegisters(pops).value;
    FinalSpOfPops(PopsOf(ops), list, sp + OffsetOf(ops));
    if !(list == [] && by8 == 0) {
      RoundTrip(list);
    }
  }

  /** Only the offset at the front can be out of line. */
  lemma AlignedShape(ops: seq<EpilogInstruction>)
    requires RuleForSequence(Compiled(ops)).Some?
    ensures AlignedOffsets(ops) <==> OffsetOf(ops) % 8 == 0
  {
    CompiledShape(ops, 0);
    PopsAreListed(PopsOf(ops));
    hide RuleForSequence, Compiled, PoppedRegisters;
    if PopsOf(ops) != ops {
      assert ops == [ops[0]] + PopsOf(ops);
    }
  }

  lemma {:induction false} PopAllKeeps(list: seq<Reg>, sp: U64, regs: Regs, stack: Stack)
    requires RSP !in list
    ensures PopAll(list, sp, regs, stack).regs.Sp() == regs.Sp()
    ensures PopAll(list, sp, regs, stack).regs.ip == regs.ip
    decreases |list|
  {
    if list != [] && sp in stack && FitsU64(sp + 8) {
      PopAllKeeps(list[1..], sp + 8, regs.Set(list[0], stack[sp]), stack);
    }
  }

  /** How the outcome of a rule answers to a simulation. */
  ghost predicate Answers(o: Outcome, s: Simulated) {
    match s
    case MissingStackData(address, _) => o.result == Err(CouldNotReadStack(address))
    case Returned(ra, after) =>
      if ra == 0 then o.result == Ok(None)
      else o.result == Ok(Some(ra)) && o.regs.file == after.file && o.regs.ip == ra
  }

  lemma ReturnAnswers(t: Target, oldSp: U64, regs: Regs, stack: Stack)
    requires t.sp > oldSp && t.sp >= 8 && t.bp == regs.Bp()
    ensures Answers(ReturnTo(t, oldSp, regs, stack),
                    if t.sp - 8 in stack then Returned(stack[t.sp - 8], regs.Set(RSP, t.sp))
                    else MissingStackData(t.sp - 8, regs.Set(RSP, t.sp - 8)))
  {
    assert regs.Set(RSP, t.sp).Set(RBP, t.bp).file == regs.Set(RSP, t.sp).file;
  }

  lemma PopsAnswer(ops: seq<EpilogInstruction>, by8: U16, list: seq<Reg>, f: Reg, regs: Regs, stack: Stack)
    requires PoppedRegisters(Compiled(ops)) == Some(list) && RSP !in list
    requires FitsU64(regs.Sp() + by8 * 8 + 8 * |list| + 8)
    ensures Answers(ExecPops(by8, list, regs, stack), Simulate(ops, f, regs.Set(RSP, regs.Sp() + by8 * 8), stack))
  {
    var sp := regs.Sp() + by8 * 8;
    PopsSimulate(ops, list, f, sp, regs, stack);
    PopAllKeeps(list, sp, regs, stack);
    var p := PopAll(list, sp, regs, stack);
    hide PopAll, Simulate, ReturnTo;
    if p.sp.Ok? {
      ReturnAnswers(Target(p.sp.value + 8, p.regs.Bp()), regs.Sp(), p.regs, stack);
    }
  }

  /** Skipping the offset is moving the stack pointer. */
  lemma SimulateOffset(ops: seq<EpilogInstruction>, f: Reg, regs: Regs, stack: Stack)
    requires FitsU64(regs.Sp() + OffsetOf(ops))
    ensures Simulate(ops, f, regs, stack) == Simulate(PopsOf(ops), f, regs.Set(RSP, regs.Sp() + OffsetOf(ops)), stack)
  {
    assert regs.Set(RSP, regs.Sp()).file == regs.file;
  }

  /** The rule pops what the epilog pops. */
  lemma RuleExecutesPops(rule: Rule, by8: U16, list: seq<Reg>, isFirstFrame: bool, regs: Regs, stack: Stack)
    requires RuleIs(rule, by8, list)
    ensures Exec(rule, isFirstFrame, regs, stack) == ExecPops(by8, list, regs, stack)
  {
    hide ReturnTo, Decoded, PopAll;
    if rule.JustReturn? {
      JustReturnPopsNothing(isFirstFrame, regs, stack);
    }
  }

  /** Whenever an epilog compiles to a rule, executing the rule ends as running the instructions one by
      one does: the same unreadable address, the same return address, the same sixteen registers. */
  lemma RuleAgreesWithSimulation(ops: seq<EpilogInstruction>, f: Reg, isFirstFrame: bool, regs: Regs, stack: Stack)
    requires RuleForSequence(Compiled(ops)).Some? && ValidRule(RuleForSequence(Compiled(ops)).value)
    requires AlignedOffsets(ops) && FitsU64(FinalSp(ops, regs.Sp()) + 8)
    ensures Answers(Exec(RuleForSequence(Compiled(ops)).value, isFirstFrame, regs, stack),
                    Simulate(ops, f, regs, stack))
  {
    hide RuleForSequence, PoppedRegisters, Compiled, Simulate, Answers, ExecPops, Exec, AlignedOffsets, FinalSp, RuleIs;
    hide PopsOf, OffsetOf;
    CompiledShape(ops, regs.Sp());
    AlignedShape(ops);
    var list, rule := PoppedRegisters(Compiled(PopsOf(ops))).value, RuleForSequence(Compiled(ops)).value;
    PopsAnswer(PopsOf(ops), OffsetOf(ops) / 8, list, f, regs, stack);
    SimulateOffset(ops, f, regs, stack);
    RuleExecutesPops(rule, OffsetOf(ops) / 8, list, isFirstFrame, regs, stack);
  }

  // ----- exactly when the rule does what the operations do -----

  /** Simulating pops where every slot can be read. */
  lemma FarPops(ops: seq<EpilogInstruction>, list: seq<Reg>, f: Reg, sp: U64, regs: Regs)
    requires PoppedRegisters(Compiled(ops)) == Some(list) && RSP !in list && |list| <= 8
    requires sp < 0x1_0000_0000
    ensures var s := Simulate(ops, f, regs.Set(RSP, sp), FarAddresses());
      s.Returned? && s.ra != 0 && s.regs.Sp() == sp + 8 * |list| + 8
  {
    hide FarAddresses, Simulate, PoppedRegisters, Compiled, PopAll;
    PopsSimulate(ops, list, f, sp, regs, FarAddresses());
    X86Progress.PopAllSucceeds(list, sp, regs, FarAddresses());
  }

  /** An epilog whose offset is not a multiple of 8 leaves sp elsewhere than its rule does. */
  lemma UnalignedEpilogDisagrees(ops: seq<EpilogInstruction>, f: Reg)
    requires RuleForSequence(Compiled(ops)).Some? && ValidRule(RuleForSequence(Compiled(ops)).value)
    requires !AlignedOffsets(ops)
    ensures FitsU64(FinalSp(ops, WITNESS_BASE) + 8)
    ensures !Answers(Exec(RuleForSequence(Compiled(ops)).value, true, WitnessRegs(), FarAddresses()),
                     Simulate(ops, f, WitnessRegs(), FarAddresses()))
  {
    var regs := WitnessRegs();
    CompiledShape(ops, WITNESS_BASE);
    AlignedShape(ops);
    var list, rule := PoppedRegisters(Compiled(PopsOf(ops))).value, RuleForSequence(Compiled(ops)).value;
    var offset := OffsetOf(ops);
    hide RuleForSequence, PoppedRegisters, Compiled, Simulate, ExecPops, Exec, FarAddresses;
    RuleExecutesPops(rule, offset / 8, list, true, regs, FarAddresses());
    PopsAnswer(PopsOf(ops), offset / 8, list, f, regs, FarAddresses());
    FarPops(PopsOf(ops), list, f, WITNESS_BASE + offset / 8 * 8, regs);
    SimulateOffset(ops, f, regs, FarAddresses());
    FarPops(PopsOf(ops), list, f, WITNESS_BASE + offset, regs);
  }

  ghost predicate AnswersAlways(ops: seq<EpilogInstruction>, f: Reg, rule: Rule) {
    && ValidRule(rule)
    && forall isFirstFrame, regs: Regs, stack :: FitsU64(FinalSp(ops, regs.Sp()) + 8) ==>
         Answers(Exec(rule, isFirstFrame, regs, stack), Simulate(ops, f, regs, stack))
  }

  /** For every epilog that compiles: rule and simulation end alike for all registers and stacks, short of
      wrapping around, if and only if the epilog's offset is a multiple of 8. */
  lemma AgreesExactlyIfAligned(ops: seq<EpilogInstruction>, f: Reg)
    requires RuleForSequence(Compiled(ops)).Some?
    ensures AnswersAlways(ops, f, RuleForSequence(Compiled(ops)).value) <==> AlignedOffsets(ops)
  {
    hide Compiled, RuleForSequence, Simulate, Answers, Exec, AlignedOffsets, FarAddresses, PoppedRegisters, FinalSp;
    CompiledShape(ops, 0);
    var rule := RuleForSequence(Compiled(ops)).value;
    if AlignedOffsets(ops) {
      forall isFirstFrame, regs: Regs, stack | FitsU64(FinalSp(ops, regs.Sp()) + 8)
        ensures Answers(Exec(rule, isFirstFrame, regs, stack), Simulate(ops, f, regs, stack))
      {
        RuleAgreesWithSimulation(ops, f, isFirstFrame, regs, stack);
      }
    } else {
      UnalignedEpilogDisagrees(ops, f);
      assert WitnessRegs().Sp() == WITNESS_BASE;
    }
  }

  /** Where the simulation would wrap around, the rule ends in an error. */
  lemma WrappingIsRefused(ops: seq<EpilogInstruction>, isFirstFrame: bool, regs: Regs, stack: Stack)
    requires RuleForSequence(Compiled(ops)).Some? && ValidRule(RuleForSequence(Compiled(ops)).value)
    requires AlignedOffsets(ops) && !FitsU64(FinalSp(ops, regs.Sp()) + 8)
    ensures Exec(RuleForSequence(Compiled(ops)).value, isFirstFrame, regs, stack).result.Err?
  {
    var rule := RuleForSequence(Compiled(ops)).value;
    CompiledShape(ops, regs.Sp());
    AlignedShape(ops);
    hide RuleForSequence, PoppedRegisters, Compiled, Exec, Decoded;
    X86Progress.ExecFollowsMeaning(rule, isFirstFrame, regs, stack);
    X86Progress.ExecEndsExactly(rule, isFirstFrame, regs, stack);
    assert X86Progress.MeantSp(rule, isFirstFrame, regs) == FinalSp(ops, regs.Sp()) + 8;
  }

  /** `JustReturn` is popping nothing. */
  lemma JustReturnPopsNothing(isFirstFrame: bool, regs: Regs, stack: Stack)
    ensures Exec(JustReturn, isFirstFrame, regs, stack) == ExecPops(0, [], regs, stack)
  {
  }

  // ----- different rules do different things -----

  /** What the rule of a sequence pops. */
  lemma RuleShape(ops: seq<OffsetOrPop>)
    requires RuleForSequence(ops).Some?
    ensures PoppedRegisters(SplitOffset(ops).1).Some?
    ensures var list := PoppedRegisters(SplitOffset(ops).1).value;
      && RuleIs(RuleForSequence(ops).value, SplitOffset(ops).0, list)
      && Distinct(list) && RSP !in list && |list| <= 8
  {
    hide EncodeIn, Decoded;
    var (by8, pops) := SplitOffset(ops);
    var list := PoppedRegisters(pops).value;
    TableFacts();
    if !(list == [] && by8 == 0) {
      RoundTrip(list);
      EncodableExactly(ENCODE_REGISTERS, list);
    }
  }

  /** Popping where every slot can be read and holds another value. */
  lemma FarExecPops(by8: U16, list: seq<Reg>)
    requires Distinct(list) && RSP !in list && |list| <= 8
    ensures var o := ExecPops(by8, list, WitnessRegs(), FarAddresses());
      && o.FoundCaller()
      && o.regs.Sp() == WITNESS_BASE + 8 * (by8 + |list| + 1)
      && (forall i :: 0 <= i < |list| ==> o.regs.Get(list[i]) == Far(WITNESS_BASE + 8 * (by8 + i)))
      && forall r: Reg :: r != RSP && r !in list ==> o.regs.Get(r) == WITNESS_BASE
  {
    hide FarAddresses, PopAll, Distinct, X86Progress.SlotsReadable, X86Progress.PoppedInto, ReturnTo;
    var start := WITNESS_BASE + by8 * 8;
    FarSlots(start, |list|);
    X86Progress.PopAllSucceeds(list, start, WitnessRegs(), FarAddresses());
    X86Progress.PopAllFollowsSlots(list, start, WitnessRegs(), FarAddresses());
    var p := PopAll(list, start, WitnessRegs(), FarAddresses());
    var t := Target(start + 8 * |list| + 8, p.regs.Bp());
    X86Progress.ReturnToFollowsMeaning(t, WITNESS_BASE, p.regs, FarAddresses());
    var after := ReturnTo(t, WITNESS_BASE, p.regs, FarAddresses()).regs;
    FarRegisters(list, start, p.regs);
    assert forall r: Reg :: r != RSP ==> after.Get(r) == p.regs.Get(r);
  }

  lemma FarSlots(start: U64, n: nat)
    requires start < 0x1_0000_0000 && n <= 8
    ensures X86Progress.SlotsReadable(FarAddresses(), start, n)
  {
    hide FarAddresses;
  }

  lemma FarRegisters(list: seq<Reg>, start: U64, after: Regs)
    requires start < 0x1_0000_0000 && |list| <= 8
    requires X86Progress.SlotsReadable(FarAddresses(), start, |list|)
    requires X86Progress.PoppedInto(list, start, FarAddresses(), after)
    ensures forall i :: 0 <= i < |list| ==> after.Get(list[i]) == Far(start + 8 * i)
  {
    hide FarAddresses;
    forall i | 0 <= i < |list| ensures after.Get(list[i]) == Far(start + 8 * i) {
      assert X86Progress.Slot(start, i) == start + 8 * i;
    }
  }

  /** Where the first of two pop sequences is found in the second one. */
  lemma SameSlot(by8: U16, list: seq<Reg>, by8': U16, list': seq<Reg>, i: nat)
    requires Distinct(list) && RSP !in list && |list| <= 8
    requires Distinct(list') && RSP !in list' && |list'| <= 8
    requires ExecPops(by8, list, WitnessRegs(), FarAddresses()) == ExecPops(by8', list', WitnessRegs(), FarAddresses())
    requires i < |list|
    ensures exists j :: 0 <= j < |list'| && list'[j] == list[i] && by8 + i == by8' + j
  {
    hide FarAddresses, ExecPops, Distinct;
    FarExecPops(by8, list);
    FarExecPops(by8', list');
    assert list[i] in list;
    assert list[i] in list';
  }

  /** Pops that do the same there are the same pops. */
  lemma PopsAreVisible(by8: U16, list: seq<Reg>, by8': U16, list': seq<Reg>)
    requires Distinct(list) && RSP !in list && |list| <= 8
    requires Distinct(list') && RSP !in list' && |list'| <= 8
    requires ExecPops(by8, list, WitnessRegs(), FarAddresses()) == ExecPops(by8', list', WitnessRegs(), FarAddresses())
    ensures by8 == by8' && list == list'
  {
    hide FarAddresses, ExecPops, Distinct;
    FarExecPops(by8, list);
    FarExecPops(by8', list');
    assert by8 + |list| == by8' + |list'|;
    if list != [] {
      SameSlot(by8, list, by8', list', 0);
    }
    if list' != [] {
      SameSlot(by8', list', by8, list, 0);
    }
    forall i | 0 <= i < |list| ensures i < |list'| && list[i] == list'[i] {
      SameSlot(by8, list, by8', list', i);
    }
  }

  /** Two sequences have the same rule if and only if their rules do the same everywhere; it takes but one machine
      to tell. */
  lemma RulesAreVisible(ops: seq<OffsetOrPop>, ops': seq<OffsetOrPop>, isFirstFrame: bool)
    requires RuleForSequence(ops).Some? && ValidRule(RuleForSequence(ops).value)
    requires RuleForSequence(ops').Some? && ValidRule(RuleForSequence(ops').value)
    requires Exec(RuleForSequence(ops).value, isFirstFrame, WitnessRegs(), FarAddresses())
          == Exec(RuleForSequence(ops').value, isFirstFrame, WitnessRegs(), FarAddresses())
    ensures RuleForSequence(ops) == RuleForSequence(ops')
  {
    hide FarAddresses, ExecPops, Exec, Distinct, EncodeIn, Decoded;
    RuleShape(ops);
    RuleShape(ops');
    var (by8, pops) := SplitOffset(ops);
    var (by8', pops') := SplitOffset(ops');
    var list, list' := PoppedRegisters(pops).value, PoppedRegisters(pops').value;
    RuleExecutesPops(RuleForSequence(ops).value, by8, list, isFirstFrame, WitnessRegs(), FarAddresses());
    RuleExecutesPops(RuleForSequence(ops').value, by8', list', isFirstFrame, WitnessRegs(), FarAddresses());
    PopsAreVisible(by8, list, by8', list');
  }

  // ----- where simulations fail and where they do not -----

  /** Without a stack, no epilog can be simulated. */
  lemma {:induction false} NothingToPop(ops: seq<EpilogInstruction>, f: Reg, regs: Regs)
    ensures Simulate(ops, f, regs, map[]).MissingStackData?
    decreases |ops|
  {
    if ops != [] && !ops[0].Pop? {
      NothingToPop(ops[1..], f, Simulated1(ops[0], f, regs));
    }
  }

  /** The registers after an instruction that reads nothing. */
  function Simulated1(op: EpilogInstruction, f: Reg, regs: Regs): Regs
    requires !op.Pop?
  {
    regs.Set(RSP, AddMod64(if op.AddSP? then regs.Sp() else regs.Get(f), op.offset))
  }

  /** Where everything can be read, every epilog can. */
  lemma {:induction false} EverythingPops(ops: seq<EpilogInstruction>, f: Reg, regs: Regs)
    ensures Simulate(ops, f, regs, FarAddresses()).Returned?
    decreases |ops|
  {
    hide FarAddresses;
    if ops != [] {
      var sp := regs.Sp();
      EverythingPops(ops[1..], f, if ops[0].Pop? then regs.Set(ops[0].reg, FarAddresses()[sp]).Set(RSP, AddMod64(sp, 8))
                                  else Simulated1(ops[0], f, regs));
    }
  }

  // ----- which epilogs compile -----

  /** What may follow the one offset at the front, which must be below 512 KiB. */
  function AfterOffset(ops: seq<EpilogInstruction>): seq<EpilogInstruction> {
    if ops != [] && ops[0].AddSP? && ops[0].offset < 0x8_0000 then ops[1..] else ops
  }

  /** The registers that a Windows function has to preserve, other than rsp. */
  predicate IsCalleeSaved(r: Reg) {
    r == RBX || r == RBP || r == RDI || r == RSI || r == R12 || r == R13 || r == R14 || r == R15
  }

  lemma TableIsCalleeSaved(r: Reg)
    ensures r in ENCODE_REGISTERS <==> IsCalleeSaved(r)
  {
  }

  /** Nothing but pops of callee-saved registers, each of them once. */
  predicate PopsEachOnce(ops: seq<EpilogInstruction>) {
    && (forall i :: 0 <= i < |ops| ==> ops[i].Pop? && IsCalleeSaved(ops[i].reg))
    && (forall i, j :: 0 <= i < j < |ops| ==> ops[i] != ops[j])
  }

  lemma {:induction false} PopsAreListed(ops: seq<EpilogInstruction>)
    ensures PoppedRegisters(Compiled(ops)).Some? <==> forall i :: 0 <= i < |ops| ==> ops[i].Pop?
    ensures PoppedRegisters(Compiled(ops)).Some? ==>
      |PoppedRegisters(Compiled(ops)).value| == |ops|
    ensures PoppedRegisters(Compiled(ops)).Some? ==>
      forall i :: 0 <= i < |ops| ==> ops[i] == Pop(PoppedRegisters(Compiled(ops)).value[i])
    decreases |ops|
  {
    if ops != [] {
      PopsAreListed(ops[1..]);
      assert Compiled(ops)[1..] == Compiled(ops[1..]) && Compiled(ops)[0] == ToOffsetOrPop(ops[0]);
      assert forall i :: 0 < i < |ops| ==> ops[i] == ops[1..][i - 1];
    }
  }

  /** An epilog compiles to a rule exactly if it is an optional small offset followed by pops of
      distinct callee-saved registers, in any order. */
  lemma CompilesExactly(ops: seq<EpilogInstruction>)
    ensures RuleForSequence(Compiled(ops)).Some? <==> PopsEachOnce(AfterOffset(ops))
  {
    hide EncodeIn;
    var c, pops := Compiled(ops), AfterOffset(ops);
    if ops != [] {
      assert c[0] == ToOffsetOrPop(ops[0]) && c[1..] == Compiled(ops[1..]);
    }
    assert SplitOffset(c).1 == Compiled(pops);
    PopsAreListed(pops);
    if PoppedRegisters(Compiled(pops)).Some? {
      var list := PoppedRegisters(Compiled(pops)).value;
      hide PoppedRegisters, Compiled;
      TableFacts();
      forall r: Reg ensures r in ENCODE_REGISTERS <==> IsCalleeSaved(r) {
        TableIsCalleeSaved(r);
      }
      EncodableExactly(ENCODE_REGISTERS, list);
      if EncodeIn(ENCODE_REGISTERS, list).Some? {
        RoundTrip(list);
      }
    }
  }

  // ----- simulating is executing -----

  type Cpu = X86Code.Cpu

  datatype Fault = Fault(address: U64, regs: Regs)

  /** One instruction on the CPU: `add rsp, offset`, `lea rsp, [f + offset]` or `pop`; or the address that cannot
      be read, and the registers then. */
  function StepEpilog(op: EpilogInstruction, f: Reg, cpu: Cpu): Result<Cpu, Fault> {
    match op
    case AddSP(offset) => Ok(cpu.(regs := cpu.regs.Set(RSP, AddMod64(cpu.regs.Get(RSP), offset))))
    case AddSPFromFP(offset) => Ok(cpu.(regs := cpu.regs.Set(RSP, AddMod64(cpu.regs.Get(f), offset))))
    case Pop(reg) =>
      var next := X86Code.Pop(cpu, reg);
      if next.Some? then Ok(next.value) else Err(Fault(cpu.regs.Get(RSP), cpu.regs))
  }

  function RunEpilog(ops: seq<EpilogInstruction>, f: Reg, cpu: Cpu): Result<Cpu, Fault> {
    if ops == [] then Ok(cpu)
    else
      var next :- StepEpilog(ops[0], f, cpu);
      RunEpilog(ops[1..], f, next)
  }

  /** What simulating should give for a CPU that runs to the `ret`, and returns. */
  ghost predicate SimulatesRun(s: Simulated, run: Result<Cpu, Fault>) {
    match run
    case Err(fault) => s == MissingStackData(fault.address, fault.regs)
    case Ok(final) =>
      var sp := final.regs.Get(RSP);
      if sp in final.mem then s == Returned(final.mem[sp], final.regs.Set(RSP, AddMod64(sp, 8)))
      else s == MissingStackData(sp, final.regs)
  }

  /** Nothing is read between a `pop rsp`, after which the simulation has another rsp than the CPU, and the next
      `lea` from another register. */
  predicate Tame(ops: seq<EpilogInstruction>, f: Reg, astray: bool) {
    if ops == [] then !astray
    else match ops[0]
    case AddSP(_) => Tame(ops[1..], f, astray)
    case AddSPFromFP(_) => Tame(ops[1..], f, astray && f == RSP)
    case Pop(reg) => !astray && Tame(ops[1..], f, reg == RSP)
  }

  lemma PopAlike(cpu: Cpu, reg: Reg)
    requires cpu.regs.Get(RSP) in cpu.mem
    ensures var sp, regs := cpu.regs.Get(RSP), X86Code.Pop(cpu, reg).value.regs;
      var simulated := cpu.regs.Set(reg, cpu.mem[sp]).Set(RSP, AddMod64(sp, 8));
      && X86Code.Pop(cpu, reg).value.mem == cpu.mem
      && simulated == regs.Set(RSP, AddMod64(sp, 8))
      && (reg != RSP ==> simulated == regs)
  {
    var sp, regs := cpu.regs.Get(RSP), X86Code.Pop(cpu, reg).value.regs;
    var simulated := cpu.regs.Set(reg, cpu.mem[sp]).Set(RSP, AddMod64(sp, 8));
    assert simulated.file == regs.Set(RSP, AddMod64(sp, 8)).file;
    assert reg != RSP ==> simulated.file == regs.file;
  }

  lemma MoveAlike(regs: Regs, other: U64, sp: U64)
    ensures regs.Set(RSP, other).Set(RSP, sp) == regs.Set(RSP, sp)
  {
    assert regs.Set(RSP, other).Set(RSP, sp).file == regs.Set(RSP, sp).file;
  }

  /** While rsp is astray, everything else is as on the CPU. */
  lemma {:induction false} SimulationFollows(ops: seq<EpilogInstruction>, f: Reg, cpu: Cpu, astray: bool, rsp: U64)
    requires Tame(ops, f, astray) && (!astray ==> rsp == cpu.regs.Get(RSP))
    ensures SimulatesRun(Simulate(ops, f, cpu.regs.Set(RSP, rsp), cpu.mem), RunEpilog(ops, f, cpu))
    decreases |ops|
  {
    if ops == [] {
      assert cpu.regs.Set(RSP, rsp).file == cpu.regs.file;
    } else {
      hide SimulatesRun;
      match ops[0]
      case AddSP(offset) =>
        var next, moved := StepEpilog(ops[0], f, cpu).value, AddMod64(rsp, offset);
        MoveAlike(cpu.regs, rsp, moved);
        MoveAlike(cpu.regs, next.regs.Get(RSP), moved);
        SimulationFollows(ops[1..], f, next, astray, moved);
      case AddSPFromFP(offset) =>
        var next := StepEpilog(ops[0], f, cpu).value;
        var moved := AddMod64(cpu.regs.Set(RSP, rsp).Get(f), offset);
        MoveAlike(cpu.regs, rsp, moved);
        MoveAlike(cpu.regs, next.regs.Get(RSP), moved);
        SimulationFollows(ops[1..], f, next, astray && f == RSP, moved);
      case Pop(reg) =>
        assert cpu.regs.Set(RSP, rsp).file == cpu.regs.file;
        if rsp in cpu.mem {
          PopAlike(cpu, reg);
          SimulationFollows(ops[1..], f, X86Code.Pop(cpu, reg).value, reg == RSP, AddMod64(rsp, 8));
        } else {
          NothingRead(ops, f, cpu);
        }
    }
  }

  lemma NothingRead(ops: seq<EpilogInstruction>, f: Reg, cpu: Cpu)
    requires ops != [] && ops[0].Pop? && cpu.regs.Get(RSP) !in cpu.mem
    ensures SimulatesRun(Simulate(ops, f, cpu.regs, cpu.mem), RunEpilog(ops, f, cpu))
  {
  }

  /** For every sequence of instructions that is tame, on every machine, the simulation ends as the CPU does that
      runs them and then returns: the same return address and sixteen registers, or the same address
      which cannot be read and the same registers up to there. */
  lemma SimulationIsExecution(ops: seq<EpilogInstruction>, f: Reg, cpu: Cpu)
    requires Tame(ops, f, false)
    ensures SimulatesRun(Simulate(ops, f, cpu.regs, cpu.mem), RunEpilog(ops, f, cpu))
  {
    hide Simulate, RunEpilog, SimulatesRun, Tame;
    assert cpu.regs.Set(RSP, cpu.regs.Get(RSP)).file == cpu.regs.file;
    SimulationFollows(ops, f, cpu, false, cpu.regs.Get(RSP));
  }

  // ----- which sequences without `lea` are right -----

  predicate NoLea(ops: seq<EpilogInstruction>) {
    forall i :: 0 <= i < |ops| ==> !ops[i].AddSPFromFP?
  }

  predicate NoPopRsp(ops: seq<EpilogInstruction>) {
    forall i :: 0 <= i < |ops| ==> ops[i] != Pop(RSP)
  }

  lemma {:induction false} NoPopRspIsTame(ops: seq<EpilogInstruction>, f: Reg)
    requires NoPopRsp(ops)
    ensures Tame(ops, f, false)
    decreases |ops|
  {
    if ops != [] {
      assert ops[0] != Pop(RSP);
      NoPopRspIsTame(ops[1..], f);
    }
  }

  lemma {:induction false} FinalSpIsFurther(ops: seq<EpilogInstruction>, sp: int, d: int)
    ensures FinalSp(ops, sp + d) == FinalSp(ops, sp) + d && sp <= FinalSp(ops, sp)
    decreases |ops|
  {
    if ops != [] {
      var step := if ops[0].AddSP? then ops[0].offset else 8;
      FinalSpIsFurther(ops[1..], sp + step, d);
      assert sp + d + step == sp + step + d;
    }
  }

  /** The simulation adds up. */
  lemma {:induction false} FarSimulation(ops: seq<EpilogInstruction>, f: Reg, regs: Regs)
    requires NoLea(ops) && FinalSp(ops, regs.Sp()) < 0x4000_0000_0000_0000
    ensures var s := Simulate(ops, f, regs, FarAddresses());
      s.Returned? && s.regs.Sp() == FinalSp(ops, regs.Sp()) + 8
    decreases |ops|
  {
    hide FarAddresses;
    FinalSpIsFurther(ops, regs.Sp(), 0);
    if ops != [] {
      var sp := regs.Sp();
      assert !ops[0].AddSPFromFP?;
      FinalSpIsFurther(ops[1..], if ops[0].AddSP? then sp + ops[0].offset else sp + 8, 0);
      FarSimulation(ops[1..], f, if ops[0].AddSP? then regs.Set(RSP, sp + ops[0].offset)
                                 else regs.Set(ops[0].reg, FarAddresses()[sp]).Set(RSP, sp + 8));
    }
  }

  /** On the CPU, `pop rsp` leads far away for good. */
  lemma {:induction false} FarExecution(ops: seq<EpilogInstruction>, f: Reg, cpu: Cpu)
    requires NoLea(ops) && cpu.mem == FarAddresses()
    requires var end := FinalSp(ops, cpu.regs.Sp());
      end < 0x4000_0000_0000_0000 || (0x4000_0000_0000_0000 <= cpu.regs.Sp() && end < 0x8000_0000_0000_0000)
    ensures RunEpilog(ops, f, cpu).Ok?
    ensures var final := RunEpilog(ops, f, cpu).value;
      && final.mem == FarAddresses() && final.regs.Sp() < 0x8000_0000_0000_0000
      && (!NoPopRsp(ops) || 0x4000_0000_0000_0000 <= cpu.regs.Sp() ==> 0x4000_0000_0000_0000 <= final.regs.Sp())
    decreases |ops|
  {
    hide FarAddresses;
    FinalSpIsFurther(ops, cpu.regs.Sp(), 0);
    if ops != [] {
      var sp := cpu.regs.Sp();
      assert !ops[0].AddSPFromFP? && ops == [ops[0]] + ops[1..];
      FinalSpIsFurther(ops[1..], if ops[0].AddSP? then sp + ops[0].offset else sp + 8, 0);
      FinalSpIsFurther(ops[1..], sp + 8, Far(sp) - (sp + 8));
      FarExecution(ops[1..], f, StepEpilog(ops[0], f, cpu).value);
    }
  }

  /** Right on every machine. */
  ghost predicate AlwaysSimulated(ops: seq<EpilogInstruction>, f: Reg) {
    forall cpu: Cpu :: SimulatesRun(Simulate(ops, f, cpu.regs, cpu.mem), RunEpilog(ops, f, cpu))
  }

  /** For every sequence of `add rsp` and pops that moves rsp by less than 2^61 bytes: the simulation is right on
      every machine if and only if there is no `pop rsp`. */
  lemma SimulationIsRightExactly(ops: seq<EpilogInstruction>, f: Reg)
    requires NoLea(ops) && FinalSp(ops, 0) < 0x2000_0000_0000_0000
    ensures AlwaysSimulated(ops, f) <==> NoPopRsp(ops)
  {
    hide Simulate, RunEpilog, FarAddresses, NoPopRsp, NoLea, Tame;
    if NoPopRsp(ops) {
      NoPopRspIsTame(ops, f);
      forall cpu: Cpu ensures SimulatesRun(Simulate(ops, f, cpu.regs, cpu.mem), RunEpilog(ops, f, cpu)) {
        SimulationIsExecution(ops, f, cpu);
      }
    } else {
      var cpu := X86Code.Cpu(WitnessRegs(), FarAddresses());
      FinalSpIsFurther(ops, 0, WITNESS_BASE);
      FarSimulation(ops, f, WitnessRegs());
      FarExecution(ops, f, cpu);
      assert !SimulatesRun(Simulate(ops, f, cpu.regs, cpu.mem), RunEpilog(ops, f, cpu));
    }
  }
}
