/** The rule inferred anywhere in an aarch64 epilogue recovers what the CPU has when it returns. */
module Aarch64EpilogueProof {
  import opened Words
  import opened Frames
  import opened PtrAuth
  import opened Aarch64Rule
  import opened Aarch64Code
  import opened Aarch64Epilogue

  predicate IsLoadOrAdd(word: bv32) {
    Decode(word).LoadPair? || Decode(word).AddSp?
  }

  /** The machine after `k` instructions of an epilogue: sp-relative pair loads and `add sp`. */
  function Advance(bytes: seq<bv8>, pc: nat, m: Machine, k: nat): Option<Machine>
    decreases k
  {
    if k == 0 then Some(m)
    else if pc + 4 > |bytes| || !IsLoadOrAdd(WordAt(bytes, pc)) then None
    else
      var next :- Step(WordAt(bytes, pc), m);
      Advance(bytes, pc + 4, next, k - 1)
  }

  /** After `n` epilogue instructions from `pc` the CPU stands at a return in state `final`. */
  predicate ReturnsIn(bytes: seq<bv8>, pc: nat, m: Machine, n: nat, final: Machine) {
    && pc + 4 * n + 4 <= |bytes|
    && Advance(bytes, pc, m, n) == Some(final)
    && IsReturn(WordAt(bytes, pc + 4 * n))
  }

  // ----- the walk tracks the CPU -----

  /** A register is still the initial one, or is what the recorded stack slot holds. */
  ghost predicate TracksRegister(offset: Option<I32>, start: Machine, initial: U64, current: U64) {
    match offset
    case None => current == initial
    case Some(a) => AddMod64(start.sp, a) in start.mem && start.mem[AddMod64(start.sp, a)] == current
  }

  ghost predicate Tracks(d: Found, start: Machine, now: Machine) {
    && now.sp == AddMod64(start.sp, d.spOffset)
    && now.mem == start.mem
    && TracksRegister(d.fpOffset, start, start.fp, now.fp)
    && TracksRegister(d.lrOffset, start, start.lr, now.lr)
  }

  /** Where a pair load reads its first register, and where an instruction leaves sp. */
  function LoadedFrom(offset: int, word: bv32): int {
    if Decode(word) == LoadPair(PostIndex) then offset else offset + Imm7(word)
  }

  function OffsetAfter(offset: int, word: bv32): int {
    match Decode(word)
    case AddSp => offset + Imm12(word)
    case LoadPair(SignedOffset) => offset
    case _ => offset + Imm7(word)
  }

  /** The i32 offsets of the walk overflow nowhere in the next `n` instructions. */
  predicate OffsetsFit(bytes: seq<bv8>, pc: nat, offset: int, n: nat)
    decreases n
  {
    n != 0 && pc + 4 <= |bytes| ==>
      var word := WordAt(bytes, pc);
      && (Decode(word).LoadPair? ==> FitsI32(LoadedFrom(offset, word)) && FitsI32(LoadedFrom(offset, word) + 8))
      && FitsI32(OffsetAfter(offset, word))
      && OffsetsFit(bytes, pc + 4, OffsetAfter(offset, word), n - 1)
  }

  /** An immediate moves sp by less than 16 MiB, so 128 instructions cannot overflow an i32. */
  lemma {:induction false} ShortEpiloguesFit(bytes: seq<bv8>, pc: nat, offset: int, k: nat, n: nat)
    requires -0xfff000 * k <= offset <= 0xfff000 * k && k + n <= 128
    ensures OffsetsFit(bytes, pc, offset, n)
    decreases n
  {
    if n != 0 && pc + 4 <= |bytes| {
      ShortEpiloguesFit(bytes, pc + 4, OffsetAfter(offset, WordAt(bytes, pc)), k + 1, n - 1);
    }
  }

  lemma ClassifyLoad(word: bv32)
    requires Decode(word).LoadPair?
    ensures !IsReturn(word) && word != 0xd50323ff && word >> 26 != 5
    ensures (word >> 22) & 0x2f9 == 0x2a1 && (word >> 23) & 3 != 0 && BaseReg(word) == 31
    ensures Decode(word).indexing.PostIndex? <==> (word >> 23) & 3 == 1
    ensures Decode(word).indexing.PreIndex? <==> (word >> 23) & 3 == 3
    ensures AnalyzeInstruction(word) == VeryLikelyPartOfEpilogue
  {
  }

  lemma ClassifyReturn(d: Found, word: bv32)
    requires IsReturn(word)
    ensures StepInstruction(d, word) == Stepped(FoundReturn, d)
  {
  }

  lemma ClassifyAdd(word: bv32)
    requires Decode(word).AddSp?
    ensures !IsReturn(word) && word != 0xd50323ff && word >> 26 != 5
    ensures (word >> 22) & 0x2f9 != 0x2a1
    ensures (word >> 23) & 0x1ff == 0x122 && FirstReg(word) == 31 && BaseReg(word) == 31
    ensures AnalyzeInstruction(word) == VeryLikelyPartOfEpilogue
  {
  }

  /** Where a pair load reads and where it leaves sp, relative to the start of the walk. */
  lemma LoadAddresses(start: U64, offset: I32, word: bv32)
    requires Decode(word).LoadPair?
    requires FitsI32(LoadedFrom(offset, word)) && FitsI32(LoadedFrom(offset, word) + 8)
    requires FitsI32(OffsetAfter(offset, word))
    ensures var sp, indexing := AddMod64(start, offset), Decode(word).indexing;
      && PairAddress(sp, indexing, Imm7(word)) == AddMod64(start, LoadedFrom(offset, word))
      && AddMod64(PairAddress(sp, indexing, Imm7(word)), 8) == AddMod64(start, LoadedFrom(offset, word) + 8)
      && AfterPair(sp, indexing, Imm7(word)) == AddMod64(start, OffsetAfter(offset, word))
  {
    AddMod64Associates(start, offset, Imm7(word));
    AddMod64Associates(start, LoadedFrom(offset, word), 8);
  }

  lemma LoadTracks(d: Found, word: bv32, start: Machine, now: Machine)
    requires Tracks(d, start, now)
    requires Decode(word).LoadPair? && Step(word, now).Some?
    requires FitsI32(LoadedFrom(d.spOffset, word)) && FitsI32(LoadedFrom(d.spOffset, word) + 8)
    requires FitsI32(OffsetAfter(d.spOffset, word))
    ensures Tracks(StepLoadPair(d, word), start, Step(word, now).value)
    ensures StepLoadPair(d, word).spOffset == OffsetAfter(d.spOffset, word)
  {
    hide Imm7, Decode, PairAddress, AfterPair, AddMod64;
    ClassifyLoad(word);
    LoadAddresses(start.sp, d.spOffset, word);
  }

  lemma StepTracks(d: Found, word: bv32, start: Machine, now: Machine)
    requires Tracks(d, start, now)
    requires IsLoadOrAdd(word) && Step(word, now).Some?
    requires Decode(word).LoadPair? ==>
      FitsI32(LoadedFrom(d.spOffset, word)) && FitsI32(LoadedFrom(d.spOffset, word) + 8)
    requires FitsI32(OffsetAfter(d.spOffset, word))
    ensures var s := StepInstruction(d, word);
      && s.kind.NeedMore?
      && Tracks(s.found, start, Step(word, now).value)
      && s.found.spOffset == OffsetAfter(d.spOffset, word)
  {
    if Decode(word).LoadPair? {
      ClassifyLoad(word);
      LoadTracks(d, word, start, now);
    } else {
      ClassifyAdd(word);
      AddMod64Associates(start.sp, d.spOffset, Imm12(word));
    }
  }

  /** From any point of the epilogue, the walk arrives at the CPU's return with offsets that
      describe the CPU there. */
  lemma {:induction false} WalkTracks(d: Found, bytes: seq<bv8>, pc: nat, start: Machine, now: Machine,
                                      n: nat, final: Machine)
    requires Tracks(d, start, now) && OffsetsFit(bytes, pc, d.spOffset, n)
    requires ReturnsIn(bytes, pc, now, n, final)
    ensures Walk(d, bytes, pc).FoundReturnOrTailCall?
    ensures Tracks(Walk(d, bytes, pc).found, start, final)
    decreases n
  {
    hide Step, StepInstruction, OffsetAfter, LoadedFrom, Tracks;
    var word := WordAt(bytes, pc);
    if n == 0 {
      ClassifyReturn(d, word);
    } else {
      StepTracks(d, word, start, now);
      assert pc + 4 * n == pc + 4 + 4 * (n - 1);
      WalkTracks(StepInstruction(d, word).found, bytes, pc + 4, start, Step(word, now).value, n - 1, final);
    }
  }

  // ----- the rule recovers the caller -----

  /** The divisions by 16 and by 8 in the rule choice lose nothing. */
  predicate Aligned(d: Found) {
    && d.spOffset % 16 == 0
    && (d.fpOffset.Some? ==> d.fpOffset.value % 8 == 0)
    && (d.lrOffset.Some? ==> d.lrOffset.value % 8 == 0)
  }

  /** The slots that the rule reads, and the new sp, lie in the address space. */
  predicate InAddressSpace(d: Found, sp: U64) {
    && FitsU64(sp + d.spOffset)
    && (d.fpOffset.Some? ==> FitsU64(sp + d.fpOffset.value))
    && (d.lrOffset.Some? ==> FitsU64(sp + d.lrOffset.value))
  }

  /** What unwinding should give for a CPU which is about to return in state `final`. */
  function CallerOf(regs: Regs, final: Machine): Outcome {
    var ra := StripPtrAuth(regs.mask, final.lr);
    if ra == 0 then Outcome(Ok(None), regs)
    else Outcome(Ok(Some(ra)), Regs(regs.mask, ra, final.sp, final.fp))
  }

  function Expected(d: Found, regs: Regs, final: Machine): Outcome {
    if InAddressSpace(d, regs.sp) then CallerOf(regs, final) else Outcome(Err(IntegerOverflow), regs)
  }

  lemma RuleRecovers(d: Found, start: Machine, final: Machine, mask: U64)
    requires Tracks(d, start, final) && Aligned(d)
    requires RuleForFound(d).Some?
    ensures Exec(RuleForFound(d).value, true, RegsOf(start, mask), start.mem) == Expected(d, RegsOf(start, mask), final)
  {
    var regs := RegsOf(start, mask);
    match (d.fpOffset, d.lrOffset)
    case (None, None) =>
      StripIsIdempotent(mask, start.lr);
    case (None, Some(lr)) =>
      var rule := OffsetSpAndRestoreLr(TruncDiv16(d.spOffset), TruncDiv8(lr));
      assert RuleForFound(d) == Some(rule);
    case (Some(fp), Some(lr)) =>
      var rule := OffsetSpAndRestoreFpAndLr(TruncDiv16(d.spOffset), TruncDiv8(fp), TruncDiv8(lr));
      assert RuleForFound(d) == Some(rule);
  }

  /** A stack slot that an i16 count of eight-byte words reaches. */
  predicate InReach(offset: Option<I32>) {
    offset.Some? ==> -0x4_0008 < offset.value < 0x4_0000
  }

  /** There is a rule exactly if the offsets are in reach and fp is not restored without lr. */
  lemma RuleExistsExactly(d: Found)
    ensures RuleForFound(d).Some? <==>
      && -16 < d.spOffset < 0x10_0000
      && InReach(d.fpOffset) && InReach(d.lrOffset)
      && (d.fpOffset.Some? ==> d.lrOffset.Some?)
  {
  }

  /** The analysis reaches the CPU's return, with offsets that describe it. */
  lemma AnalysisTracks(bytes: seq<bv8>, pc: nat, m: Machine, n: nat, final: Machine)
    requires ReturnsIn(bytes, pc, m, n, final) && OffsetsFit(bytes, pc, 0, n)
    ensures AnalyzeSlice(bytes, pc).FoundReturnOrTailCall?
    ensures Tracks(AnalyzeSlice(bytes, pc).found, m, final)
  {
    var word := WordAt(bytes, pc);
    if n != 0 {
      if Decode(word).LoadPair? {
        ClassifyLoad(word);
      } else {
        ClassifyAdd(word);
      }
    }
    assert AnalyzeInstruction(word) == VeryLikelyPartOfEpilogue;
    WalkTracks(NOTHING_YET, bytes, pc, m, m, n, final);
  }

  /** At every boundary of an epilogue of pair loads and `add sp` before a return, the inferred rule
      finds the caller that the CPU returns to: its sp, its fp and its stripped return address. */
  lemma EpilogueRuleFindsCaller(bytes: seq<bv8>, pc: nat, m: Machine, n: nat, final: Machine, mask: U64)
    requires ReturnsIn(bytes, pc, m, n, final) && OffsetsFit(bytes, pc, 0, n)
    ensures AnalyzeSlice(bytes, pc).FoundReturnOrTailCall?
    ensures var d := AnalyzeSlice(bytes, pc).found;
      Aligned(d) && EpilogueRule(bytes, pc).Some? ==>
        Exec(EpilogueRule(bytes, pc).value, true, RegsOf(m, mask), m.mem) == Expected(d, RegsOf(m, mask), final)
  {
    AnalysisTracks(bytes, pc, m, n, final);
    var d := AnalyzeSlice(bytes, pc).found;
    if Aligned(d) && EpilogueRule(bytes, pc).Some? {
      RuleRecovers(d, m, final, mask);
    }
  }

  /** Alignment is needed for sp: whenever a rule finds a caller at all, it has the right sp exactly
      if the total offset is a multiple of 16. */
  lemma SpIsRightExactlyIfAligned(bytes: seq<bv8>, pc: nat, m: Machine, n: nat, final: Machine, mask: U64)
    requires ReturnsIn(bytes, pc, m, n, final) && OffsetsFit(bytes, pc, 0, n)
    ensures AnalyzeSlice(bytes, pc).FoundReturnOrTailCall?
    ensures EpilogueRule(bytes, pc).Some? ==>
      var o := UnwindWith(EpilogueRule(bytes, pc).value, m, mask);
      o.FoundCaller() ==> (o.regs.sp == final.sp <==> AnalyzeSlice(bytes, pc).found.spOffset % 16 == 0)
  {
    AnalysisTracks(bytes, pc, m, n, final);
    if EpilogueRule(bytes, pc).Some? {
      SpOfRule(AnalyzeSlice(bytes, pc).found, m, final, mask);
    }
  }

  lemma SpOfRule(d: Found, start: Machine, final: Machine, mask: U64)
    requires Tracks(d, start, final) && RuleForFound(d).Some?
    ensures var o := UnwindWith(RuleForFound(d).value, start, mask);
      o.FoundCaller() ==> (o.regs.sp == final.sp <==> d.spOffset % 16 == 0)
  {
    var rule := RuleForFound(d).value;
    ExecFollowsMeaning(rule, true, RegsOf(start, mask), start.mem);
    assert MeaningOf(rule, true, RegsOf(start, mask)).sp == start.sp + 16 * TruncDiv16(d.spOffset);
    hide RuleForFound, MeaningOf, Exec, BitAnd;
  }

  /** The next `n` instructions are pair loads and `add sp`. */
  predicate LoadsAndAdds(bytes: seq<bv8>, pc: nat, n: nat)
    decreases n
  {
    n == 0 || (pc + 4 <= |bytes| && IsLoadOrAdd(WordAt(bytes, pc)) && LoadsAndAdds(bytes, pc + 4, n - 1))
  }

  predicate IsEpilogue(bytes: seq<bv8>, pc: nat, n: nat) {
    pc + 4 * n + 4 <= |bytes| && LoadsAndAdds(bytes, pc, n) && IsReturn(WordAt(bytes, pc + 4 * n))
  }

  /** A machine whose memory tells all nearby slots apart. */
  ghost function Middle(): Machine {
    Machine(0x2000_0000_0000_0000, 1, 2, map[], FarAddresses())
  }

  lemma {:induction false} NothingFaults(bytes: seq<bv8>, pc: nat, m: Machine, n: nat)
    requires LoadsAndAdds(bytes, pc, n) && forall a: U64 :: a in m.mem
    ensures Advance(bytes, pc, m, n).Some?
    decreases n
  {
    hide Imm7, Imm12, AddMod64;
    if n != 0 {
      NothingFaults(bytes, pc + 4, Step(WordAt(bytes, pc), m).value, n - 1);
    }
  }

  /** The rule choice is right on every machine of an epilogue. */
  ghost predicate AlwaysRight(bytes: seq<bv8>, pc: nat, n: nat, d: Found, rule: Rule) {
    forall m, final, mask :: ReturnsIn(bytes, pc, m, n, final) ==>
      UnwindWith(rule, m, mask) == Expected(d, RegsOf(m, mask), final)
  }

  /** Without alignment, the rule takes a register from another slot, or sp elsewhere. */
  lemma UnalignedIsWrong(d: Found, final: Machine)
    requires Tracks(d, Middle(), final) && RuleForFound(d).Some? && !Aligned(d)
    ensures var mask := 0xffff_ffff_ffff_ffff;
      UnwindWith(RuleForFound(d).value, Middle(), mask) != Expected(d, RegsOf(Middle(), mask), final)
  {
    var mask, rule := 0xffff_ffff_ffff_ffff, RuleForFound(d).value;
    var o := UnwindWith(rule, Middle(), mask);
    AllOnesStripNothing(Middle().lr);
    AllOnesStripNothing(final.lr);
    ExecFollowsMeaning(rule, true, RegsOf(Middle(), mask), Middle().mem);
    var m := MeaningOf(rule, true, RegsOf(Middle(), mask));
    assert m.sp == Middle().sp + 16 * TruncDiv16(d.spOffset);
    if d.lrOffset.Some? {
      assert m.lr == Stored(Middle().sp + 8 * TruncDiv8(d.lrOffset.value));
      AllOnesStripNothing(Far(m.lr.address));
    }
    if d.fpOffset.Some? {
      assert m.fp == Stored(Middle().sp + 8 * TruncDiv8(d.fpOffset.value));
    }
    hide RuleForFound, MeaningOf, Exec, BitAnd;
  }

  /** For every epilogue with a rule, whatever its instructions: the rule gives the sp, the fp and the return
      address of every CPU that runs it, if and only if the offsets found are aligned. */
  lemma RightExactlyIfAligned(bytes: seq<bv8>, pc: nat, n: nat)
    requires IsEpilogue(bytes, pc, n) && OffsetsFit(bytes, pc, 0, n)
    ensures AnalyzeSlice(bytes, pc).FoundReturnOrTailCall?
    ensures var d := AnalyzeSlice(bytes, pc).found;
      RuleForFound(d).Some? ==> (Aligned(d) <==> AlwaysRight(bytes, pc, n, d, RuleForFound(d).value))
  {
    NothingFaults(bytes, pc, Middle(), n);
    var final := Advance(bytes, pc, Middle(), n).value;
    AnalysisTracks(bytes, pc, Middle(), n, final);
    var d := AnalyzeSlice(bytes, pc).found;
    if RuleForFound(d).Some? {
      if Aligned(d) {
        forall m, final, mask | ReturnsIn(bytes, pc, m, n, final)
          ensures UnwindWith(RuleForFound(d).value, m, mask) == Expected(d, RegsOf(m, mask), final)
        {
          EpilogueRuleFindsCaller(bytes, pc, m, n, final, mask);
        }
      } else {
        UnalignedIsWrong(d, final);
        assert ReturnsIn(bytes, pc, Middle(), n, final);
      }
    }
  }

  lemma {:induction false} ReturnsFromLaterBoundary(bytes: seq<bv8>, pc: nat, m: Machine, n: nat, final: Machine,
                                                    k: nat, pc': nat, m': Machine)
    requires ReturnsIn(bytes, pc, m, n, final)
    requires k <= n && pc' == pc + 4 * k && Advance(bytes, pc, m, k) == Some(m')
    ensures ReturnsIn(bytes, pc', m', n - k, final)
    decreases k
  {
    hide Step, WordAt, IsReturn, IsLoadOrAdd;
    if k != 0 {
      assert pc + 4 * n == pc + 4 + 4 * (n - 1);
      ReturnsFromLaterBoundary(bytes, pc + 4, Step(WordAt(bytes, pc), m).value, n - 1, final, k - 1, pc', m');
    }
  }

  /** A boundary at which a usable rule is found. */
  predicate Usable(bytes: seq<bv8>, pc: nat, n: nat) {
    && pc + 4 <= |bytes|
    && OffsetsFit(bytes, pc, 0, n)
    && EpilogueRule(bytes, pc).Some?
    && Aligned(AnalyzeSlice(bytes, pc).found)
  }

  /** Unwinding the interrupted machine with a rule. */
  function UnwindWith(rule: Rule, m: Machine, mask: U64): Outcome {
    Exec(rule, true, RegsOf(m, mask), m.mem)
  }

  lemma UsableBoundaryFindsCaller(bytes: seq<bv8>, pc: nat, m: Machine, n: nat, final: Machine, mask: U64)
    requires ReturnsIn(bytes, pc, m, n, final)
    ensures Usable(bytes, pc, n) ==> Concerns(UnwindWith(EpilogueRule(bytes, pc).value, m, mask), final, mask)
  {
    if Usable(bytes, pc, n) {
      EpilogueRuleFindsCaller(bytes, pc, m, n, final, mask);
    }
  }

  /** An outcome which says no more than what the returning CPU fixes. */
  ghost predicate Concerns(o: Outcome, final: Machine, mask: U64) {
    var ra := StripPtrAuth(mask, final.lr);
    || o.result == Err(IntegerOverflow)
    || (o.result == Ok(None) && ra == 0)
    || (ra != 0 && o == Outcome(Ok(Some(ra)), Regs(mask, ra, final.sp, final.fp)))
  }

  /** Two outcomes that concern the same return do not name different callers. */
  lemma SameReturnSameCaller(o: Outcome, o': Outcome, final: Machine, mask: U64)
    requires Concerns(o, final, mask) && Concerns(o', final, mask)
    ensures o.FoundCaller() ==> o' == o || o'.result == Err(IntegerOverflow)
  {
  }

  /** Wherever in the epilogue the sample was taken, the same caller is found. */
  lemma EveryBoundaryFindsSameCaller(bytes: seq<bv8>, pc: nat, m: Machine, n: nat, final: Machine,
                                     k: nat, pc': nat, m': Machine, mask: U64)
    requires ReturnsIn(bytes, pc, m, n, final)
    requires k <= n && pc' == pc + 4 * k && Advance(bytes, pc, m, k) == Some(m')
    ensures Usable(bytes, pc, n) && Usable(bytes, pc', n - k) ==>
      var o := UnwindWith(EpilogueRule(bytes, pc).value, m, mask);
      var o' := UnwindWith(EpilogueRule(bytes, pc').value, m', mask);
      o.FoundCaller() ==> o' == o || o'.result == Err(IntegerOverflow)
  {
    hide Usable, UnwindWith, EpilogueRule, Concerns;
    ReturnsFromLaterBoundary(bytes, pc, m, n, final, k, pc', m');
    UsableBoundaryFindsCaller(bytes, pc', m', n - k, final, mask);
    UsableBoundaryFindsCaller(bytes, pc, m, n, final, mask);
    if Usable(bytes, pc, n) && Usable(bytes, pc', n - k) {
      UsableHasRule(bytes, pc, n);
      UsableHasRule(bytes, pc', n - k);
      SameReturnSameCaller(UnwindWith(EpilogueRule(bytes, pc).value, m, mask),
                           UnwindWith(EpilogueRule(bytes, pc').value, m', mask), final, mask);
    }
  }

  lemma UsableHasRule(bytes: seq<bv8>, pc: nat, n: nat)
    ensures Usable(bytes, pc, n) ==> pc <= |bytes| && EpilogueRule(bytes, pc).Some?
  {
    hide AnalyzeSlice;
  }

  // ----- nothing else is taken for an epilogue -----

  /** Words that the walk steps over: pair loads and `add sp`. The test for loads does not look at bit 30, which
      is clear in all loads of two 64-bit registers. */
  predicate IsStepped(word: bv32) {
    Decode(word & 0xbfff_ffff).LoadPair? || Decode(word).AddSp?
  }

  lemma LoadTestExactly(word: bv32)
    ensures Decode(word & 0xbfff_ffff).LoadPair? <==>
      (word >> 22) & 0x2f9 == 0x2a1 && (word >> 23) & 3 != 0 && BaseReg(word) == 31
  {
  }

  lemma AddTestExactly(word: bv32)
    ensures Decode(word).AddSp? <==> (word >> 23) & 0x1ff == 0x122 && FirstReg(word) == 31 && BaseReg(word) == 31
  {
  }

  /** The tests of the walk do not overlap. */
  lemma TestsAreExclusive(word: bv32)
    ensures (word >> 22) & 0x2f9 == 0x2a1 ==>
      !IsReturn(word) && word != 0xd50323ff && word >> 26 != 5 && (word >> 23) & 0x1ff != 0x122
    ensures (word >> 23) & 0x1ff == 0x122 ==> !IsReturn(word) && word != 0xd50323ff && word >> 26 != 5
    ensures word >> 26 == 5 ==> !IsReturn(word) && word != 0xd50323ff
  {
  }

  /** What each step does: it goes on exactly over those words, and stops at returns, at branches once sp was
      moved, at `autibsp`, and at everything else as body instructions. */
  lemma StepKindExactly(d: Found, word: bv32)
    ensures var kind := StepInstruction(d, word).kind;
      && (kind.NeedMore? <==> IsStepped(word))
      && (kind.FoundReturn? <==> IsReturn(word))
      && (kind.FoundTailCall? <==> word >> 26 == 5 && d.spOffset != 0)
      && (kind.CouldBeAuthTailCall? <==> word == 0xd50323ff)
  {
    LoadTestExactly(word);
    AddTestExactly(word);
    TestsAreExclusive(word);
    hide Decode, BaseReg, FirstReg, StepLoadPair, Imm12;
  }

  /** The next `n` words are stepped over. */
  predicate SteppedOver(bytes: seq<bv8>, pc: nat, n: nat)
    decreases n
  {
    n == 0 || (pc + 4 <= |bytes| && IsStepped(WordAt(bytes, pc)) && SteppedOver(bytes, pc + 4, n - 1))
  }

  /** What the walk has found after `n` words. */
  function Track(d: Found, bytes: seq<bv8>, pc: nat, n: nat): Found
    requires pc + 4 * n <= |bytes|
    decreases n
  {
    if n == 0 then d else Track(StepInstruction(d, WordAt(bytes, pc)).found, bytes, pc + 4, n - 1)
  }

  /** A return, or what the source takes for a tail call: a branch once sp was moved, or an authenticated one. */
  predicate EndsFunction(bytes: seq<bv8>, pc: nat, spOffset: int) {
    && pc + 4 <= |bytes|
    && (|| IsReturn(WordAt(bytes, pc))
        || (WordAt(bytes, pc) >> 26 == 5 && spOffset != 0)
        || (WordAt(bytes, pc) == 0xd50323ff && IsAuthTailCall(bytes, pc + 4)))
  }

  /** The code from pc on is an epilogue of `n` words and its end. */
  predicate EpilogueOf(d: Found, bytes: seq<bv8>, pc: nat, n: nat) {
    && pc + 4 * n + 4 <= |bytes|
    && SteppedOver(bytes, pc, n)
    && EndsFunction(bytes, pc + 4 * n, Track(d, bytes, pc, n).spOffset)
  }

  /** A walk that finds an end has gone over nothing else. */
  lemma {:induction false} WalkMeansEpilogue(d: Found, bytes: seq<bv8>, pc: nat) returns (n: nat)
    requires pc + 4 <= |bytes| && Walk(d, bytes, pc).FoundReturnOrTailCall?
    ensures EpilogueOf(d, bytes, pc, n)
    decreases |bytes| - pc
  {
    hide StepInstruction, WordAt, IsAuthTailCall, IsStepped, IsReturn;
    n := 0;
    var s := StepInstruction(d, WordAt(bytes, pc));
    StepKindExactly(d, WordAt(bytes, pc));
    if s.kind.NeedMore? {
      n := WalkMeansEpilogue(s.found, bytes, pc + 4);
      assert pc + 4 * (n + 1) == pc + 4 + 4 * n;
      n := n + 1;
    } else {
      KeepsFound(d, WordAt(bytes, pc));
    }
  }

  lemma KeepsFound(d: Found, word: bv32)
    requires !StepInstruction(d, word).kind.NeedMore?
    ensures StepInstruction(d, word).found == d
  {
  }

  /** And it finds the end of every epilogue, with what it has tracked. */
  lemma {:induction false} WalkFindsEpilogue(d: Found, bytes: seq<bv8>, pc: nat, n: nat)
    requires EpilogueOf(d, bytes, pc, n)
    ensures Walk(d, bytes, pc) == FoundReturnOrTailCall(Track(d, bytes, pc, n))
    decreases n
  {
    hide StepInstruction, WordAt, IsAuthTailCall, IsStepped, IsReturn;
    StepKindExactly(d, WordAt(bytes, pc));
    if n == 0 {
      KeepsFound(d, WordAt(bytes, pc));
      EndsAreExclusive(WordAt(bytes, pc));
    } else {
      assert pc + 4 * n == pc + 4 + 4 * (n - 1);
      WalkFindsEpilogue(StepInstruction(d, WordAt(bytes, pc)).found, bytes, pc + 4, n - 1);
    }
  }

  lemma EndsAreExclusive(word: bv32)
    ensures IsReturn(word) || word >> 26 == 5 || word == 0xd50323ff ==> !IsStepped(word)
    ensures word == 0xd50323ff ==> !IsReturn(word) && word >> 26 != 5
  {
    LoadTestExactly(word);
    AddTestExactly(word);
    TestsAreExclusive(word);
    hide Decode, BaseReg, FirstReg;
  }

  lemma LikelyTests(word: bv32)
    requires AnalyzeInstruction(word).VeryLikelyPartOfEpilogue?
    ensures
      || IsReturn(word)
      || ((word >> 22) & 0x2f9 == 0x2a1 && (word >> 23) & 3 != 0 && BaseReg(word) == 31)
      || ((word >> 23) & 0x1ff == 0x122 && FirstReg(word) == 31 && BaseReg(word) == 31)
  {
  }

  /** The first word is taken for part of an epilogue only if it is a return or stepped over. */
  lemma LikelyMeansEpilogue(word: bv32)
    requires AnalyzeInstruction(word).VeryLikelyPartOfEpilogue?
    ensures IsReturn(word) || IsStepped(word)
  {
    hide AnalyzeInstruction, Decode, BaseReg, FirstReg, IsReturn;
    LikelyTests(word);
    LoadTestExactly(word);
    AddTestExactly(word);
  }

  /** Before a word that is a return or stepped over, the analysis finds something exactly if the code from there
      is an epilogue. */
  lemma AnalysisFindsExactly(bytes: seq<bv8>, pc: nat)
    requires pc + 4 <= |bytes| && AnalyzeInstruction(WordAt(bytes, pc)).VeryLikelyPartOfEpilogue?
    ensures AnalyzeSlice(bytes, pc).FoundReturnOrTailCall? <==> exists n: nat :: EpilogueOf(NOTHING_YET, bytes, pc, n)
  {
    hide AnalyzeInstruction, WordAt, Walk, EpilogueOf;
    if AnalyzeSlice(bytes, pc).FoundReturnOrTailCall? {
      var n := WalkMeansEpilogue(NOTHING_YET, bytes, pc);
    }
    if n: nat :| EpilogueOf(NOTHING_YET, bytes, pc, n) {
      WalkFindsEpilogue(NOTHING_YET, bytes, pc, n);
    }
  }

  lemma WritebackTestExactly(word: bv32)
    ensures (word >> 22) & 0x2fb == 0x2a3 && BaseReg(word) == 31 <==>
      Decode(word & 0xbfff_ffff) == LoadPair(PostIndex) || Decode(word & 0xbfff_ffff) == LoadPair(PreIndex)
  {
  }

  /** Instructions that move sp up: pair loads with writeback, and `add sp`. */
  lemma AdjustsExactly(word: bv32)
    ensures InstructionAdjustsStackPointer(word) <==>
      || Decode(word & 0xbfff_ffff) == LoadPair(PostIndex)
      || Decode(word & 0xbfff_ffff) == LoadPair(PreIndex)
      || Decode(word).AddSp?
  {
    hide Decode, BaseReg, FirstReg;
    WritebackTestExactly(word);
    AddTestExactly(word);
  }

  /** A direct branch or a branch to a register is taken for a tail call exactly if it comes right after an
      instruction that moves sp up, or ends an authenticated tail call; and then nothing is left to restore. */
  lemma BranchIsTailCallExactly(bytes: seq<bv8>, pc: nat)
    requires pc + 4 <= |bytes| && (WordAt(bytes, pc) >> 26 == 5 || WordAt(bytes, pc) & 0xffff_fc1f == 0xd61f_0000)
    ensures EpilogueRule(bytes, pc) ==
      if IsInAuthTailCall(bytes, pc, 16) || (pc >= 4 && InstructionAdjustsStackPointer(WordAt(bytes, pc - 4)))
      then Some(NoOp) else None
  {
    BranchIsBranch(WordAt(bytes, pc));
    hide AnalyzeInstruction, WordAt, IsInAuthTailCall, InstructionAdjustsStackPointer;
  }

  lemma BranchIsBranch(word: bv32)
    requires word >> 26 == 5 || word & 0xffff_fc1f == 0xd61f_0000
    ensures AnalyzeInstruction(word) == CouldBeTailCall(16)
  {
  }

  lemma WordsOfAuthTailCall(word: bv32)
    ensures word == 0xd50323ff ==> AnalyzeInstruction(word) == CouldBePartOfAuthTailCall(0)
    ensures word == 0xca1e07d0 ==> AnalyzeInstruction(word) == CouldBePartOfAuthTailCall(4)
    ensures word == 0xb6f00050 ==> AnalyzeInstruction(word) == CouldBePartOfAuthTailCall(8)
    ensures word == 0xd4388e20 ==> AnalyzeInstruction(word) == CouldBePartOfAuthTailCall(12)
    ensures (word >> 23) & 0x1c7 == 0x185 && FirstReg(word) == 16 ==>
      AnalyzeInstruction(word) == CouldBePartOfAuthTailCall(16) || AnalyzeInstruction(word) == CouldBeTailCall(16)
    ensures word & 0xffff_fc00 == 0xd71f_0800 && FirstReg(word) == 16 ==>
      AnalyzeInstruction(word) == CouldBePartOfAuthTailCall(20)
  {
  }

  lemma AuthTailCallWord(bytes: seq<bv8>, start: nat, k: nat)
    requires start + 4 <= |bytes| && WordAt(bytes, start) == 0xd50323ff && IsAuthTailCall(bytes, start + 4)
    requires k <= 4 || (k == 5 && WordAt(bytes, start + 16) >> 26 != 5)
    ensures start + 4 * k + 4 <= |bytes|
    ensures var kind := AnalyzeInstruction(WordAt(bytes, start + 4 * k));
      kind == CouldBePartOfAuthTailCall(4 * k) || (k == 4 && kind == CouldBeTailCall(16))
  {
    hide WordAt, AnalyzeInstruction, FirstReg;
    var word := WordAt(bytes, start + 4 * k);
    WordsOfAuthTailCall(word);
    if k == 4 && word >> 26 == 5 {
      BranchIsBranch(word);
    }
  }

  /** An authenticated tail call is found from each of its words: `autibsp`, the three of the check, and the one or
      two of the branch; and nothing is left to restore. */
  lemma AuthTailCallIsFound(bytes: seq<bv8>, start: nat, k: nat)
    requires start + 4 <= |bytes| && WordAt(bytes, start) == 0xd50323ff && IsAuthTailCall(bytes, start + 4)
    requires k <= 4 || (k == 5 && WordAt(bytes, start + 16) >> 26 != 5)
    ensures start + 4 * k + 4 <= |bytes| && EpilogueRule(bytes, start + 4 * k) == Some(NoOp)
  {
    hide WordAt, AnalyzeInstruction, FirstReg;
    var pc := start + 4 * k;
    AuthTailCallWord(bytes, start, k);
    assert IsInAuthTailCall(bytes, pc, 4 * k);
    hide IsInAuthTailCall, IsAuthTailCall;
  }
}
