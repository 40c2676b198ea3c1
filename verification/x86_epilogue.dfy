/** Rules inferred from the bytes of an x86_64 epilogue, by walking forward over pops to the return. */
module X86Epilogue {
  import opened Words
  import opened Frames
  import opened X86Regs
  import opened X86Rule
  import opened X86Code

  /** The rule for `count` pops, with the position of the last `pop rbp` among them. */
  function Finish(count: U16, bp: Option<I16>): Rule {
    if count == 0 then JustReturn
    else if bp.Some? then OffsetSpAndRestoreBp(WrapU16(count + 1), bp.value)
    else OffsetSp(WrapU16(count + 1))
  }

  predicate IsJump(b: bv8) { b == 0xeb || b == 0xe9 || b == 0xff }

  /** The forward loop; `previous` is the byte right before the pc. */
  function Walk(bytes: seq<bv8>, previous: Option<bv8>, count: U16, bp: Option<I16>): Option<Rule>
    decreases |bytes|
  {
    if bytes == [] then None
    else if bytes[0] == 0xc3 then Some(Finish(count, bp))
    else if IsJump(bytes[0]) then
      if count != 0 || (previous.Some? && previous.value & 0xf8 == 0x58) then Some(Finish(count, bp)) else None
    else if bytes[0] == 0x5d then Walk(bytes[1..], previous, WrapU16(count + 1), Some(WrapI16(count)))
    else if 0x58 <= bytes[0] <= 0x5f then Walk(bytes[1..], previous, WrapU16(count + 1), bp)
    else if |bytes| >= 2 && bytes[0] & 0xfe == 0x40 && bytes[1] & 0xf8 == 0x58 then
      Walk(bytes[2..], previous, WrapU16(count + 1), bp)
    else None
  }

  function ByteBefore(text: seq<bv8>, pc: nat): Option<bv8>
    requires pc <= |text|
  {
    if pc == 0 then None else Some(text[pc - 1])
  }

  /** `unwind_rule_from_detected_epilogue` */
  function EpilogueRule(text: seq<bv8>, pc: nat): Option<Rule>
    requires pc <= |text|
  {
    Walk(text[pc..], ByteBefore(text, pc), 0, None)
  }

  method FindEpilogueRule(text: seq<bv8>, pc: nat) returns (rule: Option<Rule>)
    requires pc <= |text|
    ensures rule == EpilogueRule(text, pc)
  {
    var previous := ByteBefore(text, pc);
    var bytes, count: U16, bp: Option<I16> := text[pc..], 0, None;
    while true
      invariant Walk(bytes, previous, count, bp) == EpilogueRule(text, pc)
      decreases |bytes|
    {
      if bytes == [] { return None; }
      if bytes[0] == 0xc3 { break; }
      if IsJump(bytes[0]) {
        if count != 0 { break; }
        if previous.Some? && previous.value & 0xf8 == 0x58 { break; }
        return None;
      }
      if bytes[0] == 0x5d {
        bp := Some(WrapI16(count));
        count := WrapU16(count + 1);
        bytes := bytes[1..];
        continue;
      }
      if 0x58 <= bytes[0] <= 0x5f {
        count := WrapU16(count + 1);
        bytes := bytes[1..];
        continue;
      }
      if |bytes| >= 2 && bytes[0] & 0xfe == 0x40 && bytes[1] & 0xf8 == 0x58 {
        count := WrapU16(count + 1);
        bytes := bytes[2..];
        continue;
      }
      return None;
    }
    return Some(Finish(count, bp));
  }

  // ----- the walk finds the pops that are left -----

  const POP_RBP := Plain(0x5d)

  /** A `pop rbp` that the walk takes for a pop of some other register. */
  predicate HidesRbp(insn: Insn) { insn.Prefixed? && insn.Register() == RBP }

  predicate AllPops(insns: seq<Insn>) {
    forall i :: 0 <= i < |insns| ==> insns[i].IsPop()
  }

  predicate NoRsp(insns: seq<Insn>) {
    forall i :: 0 <= i < |insns| ==> insns[i].Register() != RSP
  }

  /** Every hidden `pop rbp` is followed by a plain one. */
  predicate NoRbpHidden(insns: seq<Insn>) {
    forall i :: 0 <= i < |insns| && HidesRbp(insns[i]) ==> exists j :: i < j < |insns| && insns[j] == POP_RBP
  }

  /** The position of the last `pop rbp`, counting from `count`. */
  function LastRbp(insns: seq<Insn>, count: int, bp: Option<int>): Option<int> {
    if insns == [] then bp
    else LastRbp(insns[1..], count + 1, if insns[0].Register() == RBP then Some(count) else bp)
  }

  /** The same, as far as the walk can see. */
  function LastPlainRbp(insns: seq<Insn>, count: int, bp: Option<int>): Option<int> {
    if insns == [] then bp
    else LastPlainRbp(insns[1..], count + 1, if insns[0] == POP_RBP then Some(count) else bp)
  }

  /** The bit patterns of a pop, as the walk tests them. */
  lemma ClassifyPop(insn: Insn)
    requires insn.IsPop()
    ensures insn.Register() == RBP <==> insn == POP_RBP || HidesRbp(insn)
    ensures insn.Plain? ==>
      && 0x58 <= insn.op <= 0x5f && insn.op != 0xc3 && !IsJump(insn.op)
      && (insn.op == 0x5d <==> insn == POP_RBP)
    ensures insn.Prefixed? ==>
      && insn.rex != 0xc3 && !IsJump(insn.rex) && insn.rex != 0x5d && !(0x58 <= insn.rex <= 0x5f)
      && insn.rex & 0xfe == 0x40 && insn.op & 0xf8 == 0x58
  {
  }

  lemma WalkOverPop(insn: Insn, rest: seq<bv8>, previous: Option<bv8>, count: U16, bp: Option<I16>)
    requires insn.IsPop() && count < 0x7fff
    ensures Walk(insn.Bytes() + rest, previous, count, bp)
         == Walk(rest, previous, count + 1, if insn == POP_RBP then Some(count as I16) else bp)
  {
    ClassifyPop(insn);
    var bytes := insn.Bytes() + rest;
    if insn.Plain? {
      assert bytes[0] == insn.op && bytes[1..] == rest;
    } else {
      assert bytes[0] == insn.rex && bytes[1] == insn.op && bytes[2..] == rest;
    }
  }

  /** What the walk ends at: a `ret`, or a jump that it takes for a tail call, because pops come before it. */
  predicate EndsFunction(end: bv8, count: int, previous: Option<bv8>) {
    || end == 0xc3
    || ((end == 0xeb || end == 0xe9 || end == 0xff) &&
        (count != 0 || (previous.Some? && 0x58 <= previous.value <= 0x5f)))
  }

  lemma WalkAtEnd(end: bv8, rest: seq<bv8>, previous: Option<bv8>, count: U16, bp: Option<I16>)
    requires end == 0xc3 || IsJump(end)
    ensures Walk([end] + rest, previous, count, bp) ==
      if EndsFunction(end, count, previous) then Some(Finish(count, bp)) else None
  {
    assert previous.Some? ==> (previous.value & 0xf8 == 0x58 <==> 0x58 <= previous.value <= 0x5f);
  }

  /** The walk counts the pops up to the return or tail call and finds the last plain `pop rbp`. */
  lemma {:induction false} WalkFindsPops(insns: seq<Insn>, end: bv8, rest: seq<bv8>, previous: Option<bv8>,
                                         count: U16, bp: Option<I16>)
    requires AllPops(insns) && count + |insns| < 0x7fff && EndsFunction(end, count + |insns|, previous)
    ensures LastPlainRbp(insns, count, bp).Some? ==> FitsI16(LastPlainRbp(insns, count, bp).value)
    ensures Walk(EncodeAll(insns) + [end] + rest, previous, count, bp)
         == Some(Finish(count + |insns|, LastPlainRbp(insns, count, bp)))
    decreases |insns|
  {
    var bytes := EncodeAll(insns) + [end] + rest;
    if insns == [] {
      assert bytes == [end] + rest;
      WalkAtEnd(end, rest, previous, count, bp);
    } else {
      hide Walk, EndsFunction;
      var tail := EncodeAll(insns[1..]) + [end] + rest;
      assert bytes == insns[0].Bytes() + tail;
      WalkOverPop(insns[0], tail, previous, count, bp);
      WalkFindsPops(insns[1..], end, rest, previous, count + 1,
                    if insns[0] == POP_RBP then Some(count as I16) else bp);
    }
  }

  predicate PopsRbp(insns: seq<Insn>) {
    exists i :: 0 <= i < |insns| && insns[i].Register() == RBP
  }

  /** What a first instruction adds to the tail. */
  lemma PopsRbpInTail(insns: seq<Insn>)
    requires insns != []
    ensures PopsRbp(insns) <==> insns[0].Register() == RBP || PopsRbp(insns[1..])
  {
    assert insns == [insns[0]] + insns[1..];
  }

  lemma HiddenInTail(head: Insn, tail: seq<Insn>)
    ensures NoRbpHidden([head] + tail) <==> NoRbpHidden(tail) && (HidesRbp(head) ==> POP_RBP in tail)
  {
    hide HidesRbp;
    var insns := [head] + tail;
    if NoRbpHidden(insns) {
      forall i | 0 <= i < |tail| && HidesRbp(tail[i]) ensures exists j :: i < j < |tail| && tail[j] == POP_RBP {
        assert HidesRbp(insns[i + 1]);
        var j :| i + 1 < j < |insns| && insns[j] == POP_RBP;
        assert tail[j - 1] == POP_RBP;
      }
      if HidesRbp(head) {
        assert HidesRbp(insns[0]);
        var j :| 0 < j < |insns| && insns[j] == POP_RBP;
        assert tail[j - 1] == POP_RBP;
      }
    }
    if NoRbpHidden(tail) && (HidesRbp(head) ==> POP_RBP in tail) {
      forall i | 0 <= i < |insns| && HidesRbp(insns[i]) ensures exists j :: i < j < |insns| && insns[j] == POP_RBP {
        var k :| i <= k < |tail| && tail[k] == POP_RBP;
        assert insns[k + 1] == POP_RBP;
      }
    }
  }

  /** Where rbp is popped and never hidden, it is popped plainly. */
  lemma SeenIsPlain(insns: seq<Insn>)
    requires AllPops(insns)
    ensures NoRbpHidden(insns) ==> (PopsRbp(insns) <==> POP_RBP in insns)
    ensures POP_RBP in insns ==> PopsRbp(insns)
  {
    if POP_RBP in insns {
      var i :| 0 <= i < |insns| && insns[i] == POP_RBP;
      ClassifyPop(insns[i]);
    }
    if PopsRbp(insns) && NoRbpHidden(insns) {
      var i :| 0 <= i < |insns| && insns[i].Register() == RBP;
      ClassifyPop(insns[i]);
      hide HidesRbp;
    }
  }

  /** The walk sees the CPU's last `pop rbp` exactly if that is not hidden. */
  lemma {:induction false} LastRbpIsSeen(insns: seq<Insn>, count: int, seen: Option<int>, actual: Option<int>)
    requires AllPops(insns)
    requires (seen.Some? ==> seen.value < count) && (actual.Some? ==> actual.value < count)
    ensures LastPlainRbp(insns, count, seen) == LastRbp(insns, count, actual) <==>
      if PopsRbp(insns) then NoRbpHidden(insns) else seen == actual
    decreases |insns|
  {
    if insns != [] {
      hide NoRbpHidden, PopsRbp, HidesRbp;
      assert insns == [insns[0]] + insns[1..];
      HiddenInTail(insns[0], insns[1..]);
      PopsRbpInTail(insns);
      SeenIsPlain(insns[1..]);
      ClassifyPop(insns[0]);
      LastRbpIsSeen(insns[1..], count + 1, if insns[0] == POP_RBP then Some(count) else seen,
                    if insns[0].Register() == RBP then Some(count) else actual);
    }
  }

  // ----- the CPU -----

  /** The machine after the pops. */
  function RunPops(insns: seq<Insn>, cpu: Cpu): Option<Cpu> {
    if insns == [] then Some(cpu)
    else
      var next :- Pop(cpu, insns[0].Register());
      RunPops(insns[1..], next)
  }

  /** rbp is the initial one, or what the slot of the last `pop rbp` holds. */
  ghost predicate BpIs(last: Option<int>, base: int, initial: U64, current: U64, mem: Stack) {
    match last
    case None => current == initial
    case Some(k) => 0 <= k && FitsU64(base + 8 * k) && base + 8 * k in mem && mem[base + 8 * k] == current
  }

  lemma {:induction false} PopsTrack(insns: seq<Insn>, cpu: Cpu, base: int, count: nat, bp: Option<int>, initial: U64)
    requires NoRsp(insns) && RunPops(insns, cpu).Some?
    requires cpu.regs.Sp() == base + 8 * count && FitsU64(base + 8 * (count + |insns|))
    requires BpIs(bp, base, initial, cpu.regs.Bp(), cpu.mem)
    ensures var final := RunPops(insns, cpu).value;
      && final.regs.Sp() == base + 8 * (count + |insns|)
      && final.mem == cpu.mem
      && BpIs(LastRbp(insns, count, bp), base, initial, final.regs.Bp(), final.mem)
    decreases |insns|
  {
    if insns != [] {
      var r := insns[0].Register();
      PopsTrack(insns[1..], Pop(cpu, r).value, base, count + 1, if r == RBP then Some(count as int) else bp, initial);
    }
  }

  lemma {:induction false} LastRbpIsInside(insns: seq<Insn>, count: nat, bp: Option<int>)
    requires bp.Some? ==> 0 <= bp.value < count
    ensures var last := LastRbp(insns, count, bp);
      last.Some? ==> 0 <= last.value < count + |insns|
    decreases |insns|
  {
    if insns != [] {
      LastRbpIsInside(insns[1..], count + 1, if insns[0].Register() == RBP then Some(count as int) else bp);
    }
  }

  lemma {:induction false} LastPlainRbpIsInside(insns: seq<Insn>, count: nat, bp: Option<int>)
    requires bp.Some? ==> 0 <= bp.value < count
    ensures var last := LastPlainRbp(insns, count, bp);
      last.Some? ==> 0 <= last.value < count + |insns|
    decreases |insns|
  {
    if insns != [] {
      LastPlainRbpIsInside(insns[1..], count + 1, if insns[0] == POP_RBP then Some(count as int) else bp);
    }
  }

  /** What unwinding should give for a CPU which stands at the `ret` in state `final`: the return
      address on top of the stack, and sp and bp once it is popped. */
  ghost predicate ReturnsAs(o: Outcome, final: Cpu) {
    var sp: int := final.regs.Sp();
    if !FitsU64(sp + 8) then o.result == Err(IntegerOverflow)
    else if sp !in final.mem then o.result == Err(CouldNotReadStack(sp))
    else if final.mem[sp] == 0 then o.result == Ok(None)
    else
      && o.result == Ok(Some(final.mem[sp]))
      && o.regs.ip == final.mem[sp] && o.regs.Sp() == sp + 8 && o.regs.Bp() == final.regs.Bp()
  }

  lemma FinishReturns(n: nat, last: Option<int>, cpu: Cpu, final: Cpu, isFirstFrame: bool)
    requires n < 0x7fff && final.mem == cpu.mem
    requires final.regs.Sp() == cpu.regs.Sp() + 8 * n
    requires last.Some? ==> 0 <= last.value < n
    requires BpIs(last, cpu.regs.Sp(), cpu.regs.Bp(), final.regs.Bp(), cpu.mem)
    ensures ReturnsAs(Exec(Finish(n, last), isFirstFrame, cpu.regs, cpu.mem), final)
  {
    hide WrappingAddSigned, CalleeSaved.Decoded;
    if n == 0 {
      assert Finish(n, last) == JustReturn;
    } else if last.Some? {
      assert Finish(n, last) == OffsetSpAndRestoreBp(n + 1, last.value);
      hide Finish, WrapU16;
      assert RestoreBp(isFirstFrame, cpu.regs, last.value, cpu.mem) == Ok(final.regs.Bp());
    } else {
      assert Finish(n, last) == OffsetSp(n + 1);
    }
  }

  /** The rule gives, on every machine that runs the pops without wrapping around, what the CPU has
      once it has returned. */
  ghost predicate AlwaysRight(insns: seq<Insn>, rule: Rule) {
    && ValidRule(rule)
    && forall cpu, final, isFirstFrame ::
         RunPops(insns, cpu) == Some(final) && FitsU64(cpu.regs.Sp() + 8 * |insns|) ==>
           ReturnsAs(Exec(rule, isFirstFrame, cpu.regs, cpu.mem), final)
  }

  lemma RuleOfPops(text: seq<bv8>, pc: nat, insns: seq<Insn>, rest: seq<bv8>)
    requires pc <= |text| && text[pc..] == EncodeAll(insns) + [0xc3] + rest
    requires AllPops(insns) && |insns| < 0x7fff
    ensures LastPlainRbp(insns, 0, None).Some? ==> 0 <= LastPlainRbp(insns, 0, None).value < |insns|
    ensures EpilogueRule(text, pc) == Some(Finish(|insns|, LastPlainRbp(insns, 0, None)))
    ensures ValidRule(EpilogueRule(text, pc).value)
  {
    WalkFindsPops(insns, 0xc3, rest, ByteBefore(text, pc), 0, None);
    LastPlainRbpIsInside(insns, 0, None);
    hide Walk;
  }

  /** At every boundary of an epilogue of pops and a `ret`, in which no instruction pops rsp and the last pop of
      rbp is a plain one, the inferred rule gives the sp, the bp and the return address that executing the
      remaining pops and the `ret` gives. */
  lemma EpilogueRuleFindsCaller(text: seq<bv8>, pc: nat, insns: seq<Insn>, rest: seq<bv8>,
                                cpu: Cpu, final: Cpu, isFirstFrame: bool)
    requires pc <= |text| && text[pc..] == EncodeAll(insns) + [0xc3] + rest
    requires AllPops(insns) && |insns| < 0x7fff && NoRsp(insns) && NoRbpHidden(insns)
    requires RunPops(insns, cpu) == Some(final) && FitsU64(cpu.regs.Sp() + 8 * |insns|)
    ensures EpilogueRule(text, pc).Some? && ValidRule(EpilogueRule(text, pc).value)
    ensures ReturnsAs(Exec(EpilogueRule(text, pc).value, isFirstFrame, cpu.regs, cpu.mem), final)
  {
    RuleOfPops(text, pc, insns, rest);
    PopsTrack(insns, cpu, cpu.regs.Sp(), 0, None, cpu.regs.Bp());
    LastRbpIsSeen(insns, 0, None, None);
    hide Exec, ReturnsAs, EpilogueRule, NoRbpHidden;
    FinishReturns(|insns|, LastPlainRbp(insns, 0, None), cpu, final, isFirstFrame);
  }

  // ----- no other epilogue will do -----

  /** A machine whose memory tells all slots apart. */
  ghost function Witness(): Cpu { Cpu(WitnessRegs(), FarAddresses()) }

  /** Popping from such a memory never fails, and `pop rsp` leads far away for good. */
  lemma {:induction false} FarPops(insns: seq<Insn>, cpu: Cpu)
    requires cpu.mem == FarAddresses()
    requires var end := cpu.regs.Sp() + 8 * |insns|;
      end < 0x4000_0000_0000_0000 || (0x4000_0000_0000_0000 <= cpu.regs.Sp() && end < 0x8000_0000_0000_0000)
    ensures RunPops(insns, cpu).Some?
    ensures var final := RunPops(insns, cpu).value;
      && final.mem == FarAddresses() && final.regs.Sp() < 0x8000_0000_0000_0000
      && (!NoRsp(insns) || 0x4000_0000_0000_0000 <= cpu.regs.Sp() ==> 0x4000_0000_0000_0000 <= final.regs.Sp())
    decreases |insns|
  {
    hide FarAddresses;
    if insns != [] {
      assert insns == [insns[0]] + insns[1..];
      FarPops(insns[1..], Pop(cpu, insns[0].Register()).value);
    }
  }

  /** What the rule gives there. */
  lemma WitnessReturns(n: nat, last: Option<int>)
    requires n < 0x7fff && (last.Some? ==> 0 <= last.value < n)
    ensures var o := Exec(Finish(n, last), true, Witness().regs, Witness().mem);
      && o.FoundCaller()
      && o.regs.Sp() == WITNESS_BASE + 8 * n + 8
      && o.regs.Bp() == if last.Some? then Far(WITNESS_BASE + 8 * last.value) else WITNESS_BASE
  {
    var sp, bp := WITNESS_BASE + 8 * n, if last.Some? then Far(WITNESS_BASE + 8 * last.value) else WITNESS_BASE;
    hide FarAddresses, Exec, Finish;
    var final := Cpu(Witness().regs.Set(RSP, sp).Set(RBP, bp), FarAddresses());
    FinishReturns(n, last, Witness(), final, true);
  }

  /** A machine which returns elsewhere, or with another bp. */
  lemma OtherReturn(n: nat, last: Option<int>, final: Cpu)
    requires n < 0x7fff && (last.Some? ==> 0 <= last.value < n)
    requires final.mem == FarAddresses() && final.regs.Sp() < 0x8000_0000_0000_0000
    requires
      || final.regs.Sp() != WITNESS_BASE + 8 * n
      || final.regs.Bp() != if last.Some? then Far(WITNESS_BASE + 8 * last.value) else WITNESS_BASE
    ensures !ReturnsAs(Exec(Finish(n, last), true, Witness().regs, Witness().mem), final)
  {
    hide FarAddresses, Exec, Finish;
    WitnessReturns(n, last);
  }

  lemma WitnessIsMisled(insns: seq<Insn>)
    requires AllPops(insns) && |insns| < 0x7fff && !(NoRsp(insns) && NoRbpHidden(insns))
    requires var last := LastPlainRbp(insns, 0, None); last.Some? ==> 0 <= last.value < |insns|
    ensures RunPops(insns, Witness()).Some?
    ensures !ReturnsAs(Exec(Finish(|insns|, LastPlainRbp(insns, 0, None)), true, Witness().regs, Witness().mem),
                       RunPops(insns, Witness()).value)
  {
    hide FarAddresses, Exec, Finish, RunPops, ReturnsAs, LastPlainRbp, LastRbp;
    FarPops(insns, Witness());
    var final := RunPops(insns, Witness()).value;
    if NoRsp(insns) {
      PopsTrack(insns, Witness(), WITNESS_BASE, 0, None, WITNESS_BASE);
      LastRbpIsInside(insns, 0, None);
      LastRbpIsSeen(insns, 0, None, None);
      NothingHidden(insns);
      hide NoRbpHidden, PopsRbp, NoRsp;
    }
    OtherReturn(|insns|, LastPlainRbp(insns, 0, None), final);
  }

  lemma NothingHidden(insns: seq<Insn>)
    ensures !NoRbpHidden(insns) ==> PopsRbp(insns)
  {
  }

  /** For every epilogue of pops and a `ret`: the rule found is right on every machine if and only if no
      instruction pops rsp and no prefixed `pop rbp` comes after the last plain one. */
  lemma RightExactly(text: seq<bv8>, pc: nat, insns: seq<Insn>, rest: seq<bv8>)
    requires pc <= |text| && text[pc..] == EncodeAll(insns) + [0xc3] + rest
    requires AllPops(insns) && |insns| < 0x7fff
    ensures EpilogueRule(text, pc).Some?
    ensures AlwaysRight(insns, EpilogueRule(text, pc).value) <==> NoRsp(insns) && NoRbpHidden(insns)
  {
    RuleOfPops(text, pc, insns, rest);
    hide EpilogueRule, Exec, Finish, ReturnsAs, NoRbpHidden, FarAddresses;
    if NoRsp(insns) && NoRbpHidden(insns) {
      forall cpu, final, isFirstFrame |
        RunPops(insns, cpu) == Some(final) && FitsU64(cpu.regs.Sp() + 8 * |insns|)
        ensures ReturnsAs(Exec(EpilogueRule(text, pc).value, isFirstFrame, cpu.regs, cpu.mem), final)
      {
        EpilogueRuleFindsCaller(text, pc, insns, rest, cpu, final, isFirstFrame);
      }
    } else {
      WitnessIsMisled(insns);
      var final := RunPops(insns, Witness()).value;
      assert RunPops(insns, Witness()) == Some(final);
    }
  }

  // ----- nothing else is taken for an epilogue -----

  lemma PopOfBytes(bytes: seq<bv8>) returns (insn: Insn)
    requires bytes != []
    requires (0x58 <= bytes[0] <= 0x5f)
          || (|bytes| >= 2 && bytes[0] & 0xfe == 0x40 && bytes[1] & 0xf8 == 0x58)
    ensures insn.IsPop() && |insn.Bytes()| <= |bytes| && bytes[..|insn.Bytes()|] == insn.Bytes()
    ensures |insn.Bytes()| == if 0x58 <= bytes[0] <= 0x5f then 1 else 2
  {
    if 0x58 <= bytes[0] <= 0x5f {
      insn := Plain(bytes[0]);
    } else {
      insn := Prefixed(bytes[0], bytes[1]);
    }
  }

  /** Whenever the walk finds a rule, the bytes are pops, and then a `ret` or what is taken for a tail call. */
  lemma {:induction false} WalkMeansPops(bytes: seq<bv8>, previous: Option<bv8>, count: U16, bp: Option<I16>)
    returns (insns: seq<Insn>, end: bv8, rest: seq<bv8>)
    requires Walk(bytes, previous, count, bp).Some?
    ensures AllPops(insns) && bytes == EncodeAll(insns) + [end] + rest
    ensures EndsFunction(end, WrapU16(count + |insns|), previous)
    decreases |bytes|
  {
    hide WrapU16, WrapI16, EndsFunction;
    insns, end, rest := [], bytes[0], bytes[1..];
    if bytes[0] == 0xc3 || IsJump(bytes[0]) {
      assert bytes == [end] + rest && bytes == EncodeAll(insns) + [end] + rest;
      WalkAtEnd(end, rest, previous, count, bp);
      CountStands(count);
    } else {
      var insn := PopOfBytes(bytes);
      var n := |insn.Bytes()|;
      var more;
      more, end, rest := WalkMeansPops(bytes[n..], previous, WrapU16(count + 1),
                                       if bytes[0] == 0x5d then Some(WrapI16(count)) else bp);
      insns := [insn] + more;
      assert insns[1..] == more && bytes == insn.Bytes() + bytes[n..];
      assert EncodeAll(insns) + [end] + rest == insn.Bytes() + (EncodeAll(more) + [end] + rest);
      CountGoesOn(count, |more|);
    }
  }

  lemma CountStands(count: U16)
    ensures WrapU16(count) == count
  {
  }

  lemma CountGoesOn(count: U16, n: nat)
    ensures WrapU16(WrapU16(count + 1) + n) == WrapU16(count + (n + 1))
  {
  }

  /** So there is a rule only where the bytes from pc on are pops, and then a `ret` or such a jump. */
  lemma RuleMeansEpilogue(text: seq<bv8>, pc: nat) returns (insns: seq<Insn>, end: bv8, rest: seq<bv8>)
    requires pc <= |text| && EpilogueRule(text, pc).Some?
    ensures AllPops(insns) && text[pc..] == EncodeAll(insns) + [end] + rest
    ensures EndsFunction(end, WrapU16(|insns|), ByteBefore(text, pc))
  {
    hide Walk, EndsFunction;
    insns, end, rest := WalkMeansPops(text[pc..], ByteBefore(text, pc), 0, None);
  }

  /** And there is one, of the pops found, wherever they are: for a tail call as for a `ret`. */
  lemma EpilogueHasRule(text: seq<bv8>, pc: nat, insns: seq<Insn>, end: bv8, rest: seq<bv8>)
    requires pc <= |text| && text[pc..] == EncodeAll(insns) + [end] + rest
    requires AllPops(insns) && |insns| < 0x7fff && EndsFunction(end, |insns|, ByteBefore(text, pc))
    ensures LastPlainRbp(insns, 0, None).Some? ==> 0 <= LastPlainRbp(insns, 0, None).value < |insns|
    ensures EpilogueRule(text, pc) == Some(Finish(|insns|, LastPlainRbp(insns, 0, None)))
  {
    hide Walk, EndsFunction, EncodeAll;
    WalkFindsPops(insns, end, rest, ByteBefore(text, pc), 0, None);
    LastPlainRbpIsInside(insns, 0, None);
  }
}
