/** Rules inferred from the bytes of an x86_64 prologue, by walking backward over pushes. */
module X86Prologue {
  import opened Words
  import opened Frames
  import opened X86Regs
  import opened X86Rule
  import opened X86Code

  const PUSH_RBP_MOV_RBP_RSP: seq<bv8> := [0x55, 0x48, 0x89, 0xe5]

  predicate IsNextInstructionExpectedInPrologue(bytes: seq<bv8>) {
    && |bytes| >= 4
    && (|| bytes[0] & 0xf8 == 0x50
        || (bytes[0] & 0xfe == 0x40 && bytes[1] & 0xf8 == 0x50)
        || bytes[..2] == [0x83, 0xec]
        || bytes[..3] == [0x48, 0x83, 0xec]
        || bytes[..2] == [0x81, 0xec]
        || bytes[..3] == [0x48, 0x81, 0xec]
        || bytes[..3] == [0x48, 0x89, 0xe5])
  }

  predicate EndsWithFrameSetup(bytes: seq<bv8>) {
    |bytes| >= 4 && bytes[|bytes| - 4..] == PUSH_RBP_MOV_RBP_RSP
  }

  predicate EndsWithPush(bytes: seq<bv8>) {
    |bytes| >= 1 && bytes[|bytes| - 1] & 0xf8 == 0x50
  }

  /** The bytes before the push at the end, and before its prefix if there seems to be one. */
  function BeforePush(bytes: seq<bv8>): (r: seq<bv8>)
    requires EndsWithPush(bytes)
    ensures |r| < |bytes|
  {
    var n := |bytes| - 1;
    if n >= 1 && bytes[n - 1] & 0xfe == 0x40 then bytes[..n - 1] else bytes[..n]
  }

  /** The backward loop; `bytes` are those up to the cursor. */
  function WalkBack(bytes: seq<bv8>, count: U16): Rule
    decreases |bytes|
  {
    if EndsWithFrameSetup(bytes) then UseFramePointer
    else if EndsWithPush(bytes) then WalkBack(BeforePush(bytes), WrapU16(count + 1))
    else OffsetSp(WrapU16(count + 1))
  }

  /** `unwind_rule_from_detected_prologue` */
  function PrologueRule(text: seq<bv8>, pc: nat): Option<Rule>
    requires pc <= |text|
  {
    if IsNextInstructionExpectedInPrologue(text[pc..]) then Some(WalkBack(text[..pc], 0)) else None
  }

  method FindPrologueRule(text: seq<bv8>, pc: nat) returns (rule: Option<Rule>)
    requires pc <= |text|
    ensures rule == PrologueRule(text, pc)
  {
    if !IsNextInstructionExpectedInPrologue(text[pc..]) {
      return None;
    }
    var before := text[..pc];
    var cursor, count: U16 := |before|, 0;
    assert before[..cursor] == before;
    while true
      invariant 0 <= cursor <= |before|
      invariant WalkBack(before[..cursor], count) == WalkBack(before, 0)
      decreases cursor
    {
      ghost var here := before[..cursor];
      if cursor >= 4 {
        assert here[|here| - 4..] == before[cursor - 4..cursor];
        if before[cursor - 4..cursor] == PUSH_RBP_MOV_RBP_RSP {
          return Some(UseFramePointer);
        }
      }
      if cursor >= 1 && before[cursor - 1] & 0xf8 == 0x50 {
        count := WrapU16(count + 1);
        cursor := cursor - 1;
        if cursor >= 1 && before[cursor - 1] & 0xfe == 0x40 {
          cursor := cursor - 1;
        }
        assert before[..cursor] == BeforePush(here);
        continue;
      }
      break;
    }
    count := WrapU16(count + 1);
    return Some(OffsetSp(count));
  }

  // ----- the walk recovers the executed pushes -----

  /** A prologue: optionally `push rbp; mov rbp, rsp`, then pushes. */
  datatype Prologue = Prologue(framed: bool, pushes: seq<Insn>)

  predicate AllPushes(insns: seq<Insn>) {
    forall i :: 0 <= i < |insns| ==> insns[i].IsPush()
  }

  function Opening(framed: bool): seq<bv8> {
    if framed then PUSH_RBP_MOV_RBP_RSP else []
  }

  /** The code before the function, and what was executed since its entry. */
  function CodeBefore(earlier: seq<bv8>, p: Prologue): seq<bv8> {
    earlier + Opening(p.framed) + EncodeAll(p.pushes)
  }

  /** The pushes that the walk takes for executed ones; none if it meets a frame setup. */
  function Seen(bytes: seq<bv8>): Option<nat>
    decreases |bytes|
  {
    if EndsWithFrameSetup(bytes) then None
    else if EndsWithPush(bytes) then
      var n :- Seen(BeforePush(bytes));
      Some(n + 1)
    else Some(0)
  }

  lemma CountWraps(count: U16, n: nat)
    ensures WrapU16(WrapU16(count + 1) + n + 1) == WrapU16(count + (n + 1) + 1)
  {
  }

  lemma {:induction false} WalkBackIsSeen(bytes: seq<bv8>, count: U16)
    ensures WalkBack(bytes, count) ==
      match Seen(bytes)
      case None => UseFramePointer
      case Some(n) => OffsetSp(WrapU16(count + n + 1))
    decreases |bytes|
  {
    hide EndsWithFrameSetup, EndsWithPush, BeforePush, WrapU16;
    if !EndsWithFrameSetup(bytes) && EndsWithPush(bytes) {
      WalkBackIsSeen(BeforePush(bytes), WrapU16(count + 1));
      if Seen(BeforePush(bytes)).Some? {
        CountWraps(count, Seen(BeforePush(bytes)).value);
      }
    }
  }

  predicate EndsWithPrefix(bytes: seq<bv8>) {
    bytes != [] && bytes[|bytes| - 1] & 0xfe == 0x40
  }

  /** What the walk still has before it when it has gone over the pushes: a byte which looks like a prefix is
      taken to belong to a plain push that follows it. */
  function LeftOver(earlier: seq<bv8>, p: Prologue): seq<bv8> {
    if !p.framed && p.pushes != [] && p.pushes[0].Plain? && EndsWithPrefix(earlier)
    then earlier[..|earlier| - 1] else earlier
  }

  /** One push at the end is recognised and taken off, whatever its form. */
  lemma LastPushIsFound(bytes: seq<bv8>, push: Insn)
    requires push.IsPush()
    ensures var all := bytes + push.Bytes();
      && !EndsWithFrameSetup(all) && EndsWithPush(all)
      && BeforePush(all) == if push.Plain? && EndsWithPrefix(bytes) then bytes[..|bytes| - 1] else bytes
  {
    var all := bytes + push.Bytes();
    assert all[|all| - 1] == push.op;
    if |all| >= 4 {
      assert all[|all| - 4..][3] == push.op;
    }
    if push.Prefixed? {
      assert all[..|all| - 2] == bytes;
    } else {
      assert all[..|all| - 1] == bytes;
      if EndsWithPrefix(bytes) {
        assert all[..|all| - 2] == bytes[..|bytes| - 1];
      }
    }
  }

  lemma LastByteIsNoPrefix(earlier: seq<bv8>, p: Prologue)
    requires AllPushes(p.pushes) && (p.framed || p.pushes != [])
    ensures !EndsWithPrefix(CodeBefore(earlier, p))
  {
    if p.pushes != [] {
      EncodeAllLast(p.pushes);
    } else {
      assert CodeBefore(earlier, p) == earlier + PUSH_RBP_MOV_RBP_RSP;
    }
  }

  lemma SeenOverPush(earlier: seq<bv8>, p: Prologue)
    requires AllPushes(p.pushes) && p.pushes != []
    ensures var n := |p.pushes| - 1;
      var before :=
        if n == 0 && !p.framed then LeftOver(earlier, p) else CodeBefore(earlier, p.(pushes := p.pushes[..n]));
      Seen(CodeBefore(earlier, p)) == match Seen(before) case None => None case Some(k) => Some(k + 1)
  {
    hide EndsWithFrameSetup, EndsWithPush, BeforePush, Opening, EncodeAll, EndsWithPrefix;
    var n := |p.pushes| - 1;
    var before := CodeBefore(earlier, p.(pushes := p.pushes[..n]));
    EncodeAllLast(p.pushes);
    assert CodeBefore(earlier, p) == before + p.pushes[n].Bytes();
    LastPushIsFound(before, p.pushes[n]);
    if n == 0 && !p.framed {
      NothingPushed(earlier);
      assert p.pushes[..0] == [];
    } else {
      LastByteIsNoPrefix(earlier, p.(pushes := p.pushes[..n]));
    }
  }

  lemma NothingPushed(earlier: seq<bv8>)
    ensures CodeBefore(earlier, Prologue(false, [])) == earlier
  {
  }

  /** The walk over a prologue sees its pushes, or the frame setup it opens with; and then goes on with what
      comes before the function. */
  lemma {:induction false} PushesAreSeen(earlier: seq<bv8>, p: Prologue)
    requires AllPushes(p.pushes)
    ensures Seen(CodeBefore(earlier, p)) ==
      if p.framed then None
      else match Seen(LeftOver(earlier, p)) case None => None case Some(k) => Some(k + |p.pushes|)
    decreases |p.pushes|
  {
    hide Seen, CodeBefore, EndsWithPrefix, LeftOver;
    if p.pushes == [] {
      OpeningIsSeen(earlier, p);
    } else {
      var n := |p.pushes| - 1;
      var before := p.(pushes := p.pushes[..n]);
      SeenOverPush(earlier, p);
      if p.framed || n != 0 {
        SameLeftOver(earlier, before, p);
        PushesAreSeen(earlier, before);
      }
    }
  }

  lemma OpeningIsSeen(earlier: seq<bv8>, p: Prologue)
    requires p.pushes == []
    ensures Seen(CodeBefore(earlier, p)) == if p.framed then None else Seen(LeftOver(earlier, p))
  {
    if p.framed {
      var bytes := CodeBefore(earlier, p);
      assert bytes[|bytes| - 4..] == PUSH_RBP_MOV_RBP_RSP;
    } else {
      NothingPushed(earlier);
    }
  }

  lemma SameLeftOver(earlier: seq<bv8>, p: Prologue, p': Prologue)
    requires p.framed == p'.framed && (p.framed || (p.pushes != [] && p'.pushes != [] && p.pushes[0] == p'.pushes[0]))
    ensures LeftOver(earlier, p) == LeftOver(earlier, p')
  {
  }

  /** Before a function without frame setup, the walk must see neither a frame setup nor pushes (or as many as
      make the u16 counter come round). */
  predicate Clear(earlier: seq<bv8>, p: Prologue) {
    p.framed || (Seen(LeftOver(earlier, p)).Some? && Seen(LeftOver(earlier, p)).value % 0x1_0000 == 0)
  }

  /** The backward walk over a prologue counts its pushes, or finds the frame setup it opens with, exactly if
      the code before the function is clear. */
  lemma WalkBackFindsPushes(earlier: seq<bv8>, p: Prologue)
    requires AllPushes(p.pushes) && |p.pushes| + 1 < 0x1_0000
    ensures Clear(earlier, p) <==>
      WalkBack(CodeBefore(earlier, p), 0) == if p.framed then UseFramePointer else OffsetSp(|p.pushes| + 1)
  {
    hide WalkBack, Seen, CodeBefore, LeftOver;
    WalkBackIsSeen(CodeBefore(earlier, p), 0);
    PushesAreSeen(earlier, p);
  }

  /** Code that ends in none of them is clear. */
  lemma QuietIsClear(earlier: seq<bv8>, p: Prologue)
    requires !EndsWithFrameSetup(LeftOver(earlier, p)) && !EndsWithPush(LeftOver(earlier, p))
    ensures Clear(earlier, p)
  {
  }

  // ----- the CPU -----

  function RunPushes(pushes: seq<Insn>, cpu: Cpu): Option<Cpu> {
    if pushes == [] then Some(cpu)
    else
      var next :- Push(cpu, pushes[0].Register());
      RunPushes(pushes[1..], next)
  }

  function RunPrologue(p: Prologue, entry: Cpu): Option<Cpu> {
    if p.framed then
      var pushed :- Push(entry, RBP);
      RunPushes(p.pushes, MovRbpRsp(pushed))
    else RunPushes(p.pushes, entry)
  }

  /** The same memory from `from` on. */
  ghost predicate SameAbove(a: Stack, b: Stack, from: int) {
    forall x: U64 :: x >= from ==> (x in a <==> x in b) && (x in a ==> a[x] == b[x])
  }

  /** Pushes lower sp by 8 each and change neither another register nor the memory above. */
  lemma {:induction false} PushesKeepTheRest(pushes: seq<Insn>, cpu: Cpu)
    requires RunPushes(pushes, cpu).Some? && 8 * |pushes| <= cpu.regs.Sp()
    ensures var after := RunPushes(pushes, cpu).value;
      && after.regs == cpu.regs.Set(RSP, cpu.regs.Sp() - 8 * |pushes|)
      && SameAbove(after.mem, cpu.mem, cpu.regs.Sp())
    decreases |pushes|
  {
    if pushes == [] {
      assert cpu.regs.Set(RSP, cpu.regs.Sp()).file == cpu.regs.file;
    } else {
      var next := Push(cpu, pushes[0].Register()).value;
      PushesKeepTheRest(pushes[1..], next);
      assert next.regs.Set(RSP, next.regs.Sp() - 8 * (|pushes| - 1)).file
          == cpu.regs.Set(RSP, cpu.regs.Sp() - 8 * |pushes|).file;
    }
  }

  /** Outcomes with the same result and, if a caller was found, the same registers. */
  ghost predicate SameCaller(a: Outcome, b: Outcome) {
    a.result == b.result && (a.FoundCaller() ==> a.regs == b.regs)
  }

  /** The outcome of returning right away, at the function entry. */
  lemma EntryOutcome(isFirstFrame: bool, regs: Regs, mem: Stack)
    ensures var sp := regs.Sp();
      Exec(JustReturn, isFirstFrame, regs, mem) ==
        if !FitsU64(sp + 8) then Outcome(Err(IntegerOverflow), regs)
        else if sp !in mem then Outcome(Err(CouldNotReadStack(sp)), regs)
        else if mem[sp] == 0 then Outcome(Ok(None), regs)
        else Outcome(Ok(Some(mem[sp])), regs.(ip := mem[sp]).Set(RSP, sp + 8).Set(RBP, regs.Bp()))
  {
  }

  lemma UnframedRuleReturns(isFirstFrame: bool, entry: Cpu, n: nat, now: Cpu)
    requires n + 1 < 0x1_0000 && 8 * n <= entry.regs.Sp()
    requires now.regs.file == entry.regs.Set(RSP, entry.regs.Sp() - 8 * n).file
    requires SameAbove(now.mem, entry.mem, entry.regs.Sp())
    ensures SameCaller(Exec(OffsetSp(n + 1), isFirstFrame, now.regs, now.mem),
                       Exec(JustReturn, isFirstFrame, entry.regs, entry.mem))
  {
    var sp: int := entry.regs.Sp();
    EntryOutcome(isFirstFrame, entry.regs, entry.mem);
    assert sp in now.mem <==> sp in entry.mem;
    if FitsU64(sp + 8) {
      assert now.regs.Set(RSP, sp + 8).Set(RBP, now.regs.Bp()).file
          == entry.regs.Set(RSP, sp + 8).Set(RBP, entry.regs.Bp()).file;
    }
  }

  lemma FramedRuleReturns(isFirstFrame: bool, entry: Cpu, n: nat, now: Cpu)
    requires 8 + 8 * n <= entry.regs.Sp() && 8 < entry.regs.Sp()
    requires now.regs.file == entry.regs.Set(RBP, entry.regs.Sp() - 8).Set(RSP, entry.regs.Sp() - 8 - 8 * n).file
    requires entry.regs.Sp() - 8 in now.mem && now.mem[entry.regs.Sp() - 8] == entry.regs.Bp()
    requires SameAbove(now.mem, entry.mem, entry.regs.Sp())
    ensures SameCaller(Exec(UseFramePointer, isFirstFrame, now.regs, now.mem),
                       Exec(JustReturn, isFirstFrame, entry.regs, entry.mem))
  {
    var sp: int := entry.regs.Sp();
    EntryOutcome(isFirstFrame, entry.regs, entry.mem);
    assert sp in now.mem <==> sp in entry.mem;
    if FitsU64(sp + 8) {
      assert now.regs.Set(RSP, sp + 8).Set(RBP, entry.regs.Bp()).file
          == entry.regs.Set(RSP, sp + 8).Set(RBP, entry.regs.Bp()).file;
    }
  }

  /** How deep a prologue pushes. */
  function Depth(p: Prologue): nat {
    |p.pushes| + if p.framed then 1 else 0
  }

  /** The bytes before the pc end in a prologue from its entry on. */
  predicate EndsInPrologue(text: seq<bv8>, pc: nat, earlier: seq<bv8>, p: Prologue) {
    && pc <= |text|
    && AllPushes(p.pushes) && Depth(p) + 1 < 0x1_0000
    && text[..pc] == CodeBefore(earlier, p)
  }

  /** The stack does not wrap around, and the frame pointer is not null. */
  predicate HasRoom(p: Prologue, entry: Cpu) {
    8 * Depth(p) <= entry.regs.Sp() && (p.framed ==> 8 < entry.regs.Sp())
  }

  /** At every boundary of a prologue where a rule is found, after clear code, it leads to the caller that
      returning at the function entry leads to: the same result and the same sixteen registers. */
  lemma PrologueRuleFindsCaller(text: seq<bv8>, pc: nat, earlier: seq<bv8>, p: Prologue, entry: Cpu, now: Cpu,
                                isFirstFrame: bool)
    requires EndsInPrologue(text, pc, earlier, p) && Clear(earlier, p) && PrologueRule(text, pc).Some?
    requires RunPrologue(p, entry) == Some(now) && HasRoom(p, entry)
    ensures ValidRule(PrologueRule(text, pc).value)
    ensures SameCaller(Exec(PrologueRule(text, pc).value, isFirstFrame, now.regs, now.mem),
                       Exec(JustReturn, isFirstFrame, entry.regs, entry.mem))
  {
    hide WalkBack, Exec, SameCaller, SameAbove, CodeBefore, Clear;
    WalkBackFindsPushes(earlier, p);
    if p.framed {
      FramedRun(p.pushes, entry, now);
      hide RunPrologue;
      FramedRuleReturns(isFirstFrame, entry, |p.pushes|, now);
    } else {
      PushesKeepTheRest(p.pushes, entry);
      UnframedRuleReturns(isFirstFrame, entry, |p.pushes|, now);
    }
  }

  // ----- no other code before the function will do -----

  /** The rule leads every machine that runs the prologue to the caller it was entered from. */
  ghost predicate AlwaysRight(p: Prologue, rule: Rule) {
    && ValidRule(rule)
    && forall entry, now, isFirstFrame :: RunPrologue(p, entry) == Some(now) && HasRoom(p, entry) ==>
         SameCaller(Exec(rule, isFirstFrame, now.regs, now.mem), Exec(JustReturn, isFirstFrame, entry.regs, entry.mem))
  }

  lemma {:induction false} PushesSucceed(pushes: seq<Insn>, cpu: Cpu)
    requires forall a: U64 :: a in cpu.mem
    ensures RunPushes(pushes, cpu).Some?
    decreases |pushes|
  {
    if pushes != [] {
      PushesSucceed(pushes[1..], Push(cpu, pushes[0].Register()).value);
    }
  }

  /** A machine which another rule leads elsewhere. */
  ghost function WitnessEntry(): Cpu { Cpu(WitnessRegs(), FarAddresses()) }

  lemma OtherRuleIsWrong(n: nat, rule: Rule, now: Cpu)
    requires n + 1 < 0x1_0000 && (rule == UseFramePointer || (rule.OffsetSp? && rule.spBy8 != n + 1))
    requires now.regs == WitnessRegs().Set(RSP, WITNESS_BASE - 8 * n)
    ensures !SameCaller(Exec(rule, true, now.regs, now.mem),
                        Exec(JustReturn, true, WitnessEntry().regs, WitnessEntry().mem))
  {
    hide FarAddresses;
    EntryOutcome(true, WitnessEntry().regs, WitnessEntry().mem);
    var o := Exec(rule, true, now.regs, now.mem);
    assert o.FoundCaller() ==> o.regs.Sp() != WITNESS_BASE + 8;
  }

  /** For every prologue where a rule is found, whatever code comes before the function: the rule is right on
      every machine if and only if that code is clear. */
  lemma RightExactly(text: seq<bv8>, pc: nat, earlier: seq<bv8>, p: Prologue)
    requires EndsInPrologue(text, pc, earlier, p) && PrologueRule(text, pc).Some?
    ensures AlwaysRight(p, PrologueRule(text, pc).value) <==> Clear(earlier, p)
  {
    assert p.framed ==> Clear(earlier, p);
    hide WalkBack, Exec, SameCaller, CodeBefore, Clear, FarAddresses, HasRoom;
    var rule := PrologueRule(text, pc).value;
    WalkBackFindsPushes(earlier, p);
    if Clear(earlier, p) {
      RuleKind(text[..pc]);
      forall entry, now, isFirstFrame | RunPrologue(p, entry) == Some(now) && HasRoom(p, entry)
        ensures SameCaller(Exec(rule, isFirstFrame, now.regs, now.mem),
                           Exec(JustReturn, isFirstFrame, entry.regs, entry.mem))
      {
        PrologueRuleFindsCaller(text, pc, earlier, p, entry, now, isFirstFrame);
      }
    } else {
      RuleKind(text[..pc]);
      UnclearIsWrong(earlier, p, rule);
    }
  }

  lemma {:induction false} RuleKind(bytes: seq<bv8>)
    ensures WalkBack(bytes, 0).UseFramePointer? || WalkBack(bytes, 0).OffsetSp?
  {
    WalkBackIsSeen(bytes, 0);
  }

  lemma UnclearIsWrong(earlier: seq<bv8>, p: Prologue, rule: Rule)
    requires AllPushes(p.pushes) && Depth(p) + 1 < 0x1_0000 && !Clear(earlier, p)
    requires rule.UseFramePointer? || rule.OffsetSp?
    requires rule != OffsetSp(|p.pushes| + 1)
    ensures !AlwaysRight(p, rule)
  {
    hide Exec, SameCaller, FarAddresses, Seen, LeftOver;
    PushesSucceed(p.pushes, WitnessEntry());
    PushesKeepTheRest(p.pushes, WitnessEntry());
    var now := RunPushes(p.pushes, WitnessEntry()).value;
    hide RunPushes;
    assert RunPrologue(p, WitnessEntry()) == Some(now) && HasRoom(p, WitnessEntry());
    OtherRuleIsWrong(|p.pushes|, rule, now);
  }

  lemma FramedRun(pushes: seq<Insn>, entry: Cpu, now: Cpu)
    requires RunPrologue(Prologue(true, pushes), entry) == Some(now) && 8 + 8 * |pushes| <= entry.regs.Sp()
    ensures now.regs.file == entry.regs.Set(RBP, entry.regs.Sp() - 8).Set(RSP, entry.regs.Sp() - 8 - 8 * |pushes|).file
    ensures entry.regs.Sp() - 8 in now.mem && now.mem[entry.regs.Sp() - 8] == entry.regs.Bp()
    ensures SameAbove(now.mem, entry.mem, entry.regs.Sp())
  {
    hide RunPushes;
    var pushed := Push(entry, RBP).value;
    PushesKeepTheRest(pushes, MovRbpRsp(pushed));
  }

  /** Before a further push, plain or prefixed, there is a rule as soon as four bytes can be seen. */
  lemma PrologueRuleExistsBeforePush(text: seq<bv8>, pc: nat, push: Insn, rest: seq<bv8>)
    requires pc <= |text| && push.IsPush() && text[pc..] == push.Bytes() + rest
    ensures PrologueRule(text, pc).Some? <==> |text| - pc >= 4
  {
    var bytes := text[pc..];
    if push.Plain? {
      assert bytes[0] == push.op;
    } else {
      assert bytes[0] == push.rex && bytes[1] == push.op;
    }
  }

  /** Instructions that may follow in a prologue: pushes, `sub rsp` or `sub esp` with a short or a long immediate,
      and `mov rbp, rsp`. */
  datatype Next = NextPush(push: Insn) | SubRsp(wide: bool, longImmediate: bool) | SetsRbp
  {
    predicate Valid() { NextPush? ==> push.IsPush() }

    function Opening(): seq<bv8> {
      match this
      case NextPush(push) => push.Bytes()
      case SubRsp(wide, longImmediate) =>
        (if wide then [0x48] else []) + [if longImmediate then 0x81 else 0x83, 0xec]
      case SetsRbp => [0x48, 0x89, 0xe5]
    }
  }

  predicate BeginsWith(bytes: seq<bv8>, opening: seq<bv8>) {
    |opening| <= |bytes| && bytes[..|opening|] == opening
  }

  /** The next instruction is expected in a prologue exactly if it is one of those, and four bytes can be seen. */
  lemma NextIsExpectedExactly(bytes: seq<bv8>)
    ensures IsNextInstructionExpectedInPrologue(bytes) <==>
      |bytes| >= 4 && exists next: Next :: next.Valid() && BeginsWith(bytes, next.Opening())
  {
    if IsNextInstructionExpectedInPrologue(bytes) {
      var next := NextOf(bytes);
    }
    if next: Next :| next.Valid() && BeginsWith(bytes, next.Opening()) && |bytes| >= 4 {
      var o := next.Opening();
      assert bytes[0] == o[0] && (|o| >= 2 ==> bytes[1] == o[1]) && (|o| == 3 ==> bytes[2] == o[2]);
    }
  }

  lemma NextOf(bytes: seq<bv8>) returns (next: Next)
    requires IsNextInstructionExpectedInPrologue(bytes)
    ensures next.Valid() && BeginsWith(bytes, next.Opening())
  {
    assert bytes[..2] == [bytes[0], bytes[1]] && bytes[..3] == [bytes[0], bytes[1], bytes[2]];
    assert bytes[..1] == [bytes[0]];
    if bytes[0] & 0xf8 == 0x50 {
      next := NextPush(Plain(bytes[0]));
    } else if bytes[0] & 0xfe == 0x40 && bytes[1] & 0xf8 == 0x50 {
      next := NextPush(Prefixed(bytes[0], bytes[1]));
    } else if bytes[..3] == [0x48, 0x89, 0xe5] {
      next := SetsRbp;
    } else {
      next := SubRsp(bytes[0] == 0x48, (if bytes[0] == 0x48 then bytes[1] else bytes[0]) == 0x81);
    }
  }
}
