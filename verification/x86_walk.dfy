/** Whole stack walks on x86_64. */
module X86Walk {
  import opened Words
  import opened Frames
  import opened Modules
  import opened RuleCacheModel
  import opened Unwinding
  import opened FrameIterator
  import CacheAgreement
  import opened Dwarf
  import opened X86Regs
  import RegisterOrdering
  import CalleeSaved
  import X86Rule
  import X86Progress
  import X86Dwarf
  import X86Pe

  /** A rule whose register code can be decoded. */
  type Rule = r: X86Rule.Rule | X86Rule.ValidRule(r) witness X86Rule.EndOfStack

  /** Unwind codes that compile to a rule. */
  type Codes = c: seq<X86Pe.OffsetOrPop> | X86Pe.RuleForSequence(c).Some? witness []

  /** What a module's unwind data has for a frame: a rule; a row of call frame information; the Windows unwind
      codes of the function, with the instructions left if the frame is in an epilog; or nothing. */
  datatype Info =
    | HasRule(rule: Rule)
    | HasRow(row: X86Dwarf.Row)
    | HasCodes(epilog: Option<seq<X86Pe.EpilogInstruction>>, frameRegister: Reg, codes: Codes)
    | HasNothing

  type InfoSource<!D> = (Module<D>, FrameAddress, U32, Regs, Stack) -> Info

  lemma RowsTranslateToValid(row: X86Dwarf.Row)
    ensures X86Dwarf.Translate(row).Ok? ==> X86Rule.ValidRule(X86Dwarf.Translate(row).value)
  {
  }

  lemma EpilogsCompileToValid(ops: seq<X86Pe.OffsetOrPop>)
    ensures X86Pe.RuleForSequence(ops).Some? ==> X86Rule.ValidRule(X86Pe.RuleForSequence(ops).value)
  {
    hide RegisterOrdering.EncodeIn;
    var (by8, pops) := X86Pe.SplitOffset(ops);
    var list := X86Pe.PoppedRegisters(pops);
    if list.Some? && RegisterOrdering.EncodeIn(CalleeSaved.ENCODE_REGISTERS, list.value).Some? {
      CalleeSaved.RoundTrip(list.value);
    }
  }

  function CallRow(row: X86Dwarf.Row, isFirstFrame: bool, regs: Regs, stack: Stack): Called<Rule, Regs> {
    RowsTranslateToValid(row);
    match X86Dwarf.UnwindRow(row, isFirstFrame, regs, stack)
    case Ok(ExecRule(rule)) => var valid: Rule := rule; UseRule(valid, regs)
    case Ok(Uncacheable(recovered)) => Called.Uncacheable(recovered.ra, recovered.regs)
    case Err(_) => CallFailed(regs)
  }

  function CallEpilog(ops: seq<X86Pe.EpilogInstruction>, frameRegister: Reg, regs: Regs, stack: Stack)
    : Called<Rule, Regs>
  {
    EpilogsCompileToValid(X86Pe.Compiled(ops));
    match X86Pe.RuleForSequence(X86Pe.Compiled(ops))
    case Some(rule) => var valid: Rule := rule; UseRule(valid, regs)
    case None =>
      match X86Pe.Simulate(ops, frameRegister, regs, stack)
      case Returned(ra, after) => Called.Uncacheable(ra, after)
      case MissingStackData(_, after) => CallFailed(after)
  }

  /** Only the first frame may be in an epilog. */
  function CallCodes(info: Info, isFirstFrame: bool, regs: Regs, stack: Stack): Called<Rule, Regs>
    requires info.HasCodes?
  {
    if isFirstFrame && info.epilog.Some? then CallEpilog(info.epilog.value, info.frameRegister, regs, stack)
    else UseRule(CodesRule(info.codes), regs)
  }

  function CodesRule(codes: Codes): Rule {
    EpilogsCompileToValid(codes);
    X86Pe.RuleForSequence(codes).value
  }

  function Call(info: Info, isFirstFrame: bool, regs: Regs, stack: Stack): Called<Rule, Regs> {
    match info
    case HasRule(rule) => UseRule(rule, regs)
    case HasRow(row) => CallRow(row, isFirstFrame, regs, stack)
    case HasCodes(_, _, _) => CallCodes(info, isFirstFrame, regs, stack)
    case HasNothing => CallFailed(regs)
  }

  function ExecRule(rule: Rule, isFirstFrame: bool, regs: Regs, stack: Stack): Executed<Regs> {
    var o := X86Rule.Exec(rule, isFirstFrame, regs, stack);
    Executed(o.result, o.regs)
  }

  function ArchX86<D>(info: InfoSource<D>): Arch<Rule, Regs, D> {
    Arch(ExecRule, X86Rule.FALLBACK_RULE,
         (m, address: FrameAddress, rel, regs, stack) =>
           Call(info(m, address, rel, regs, stack), !address.IsReturnAddress(), regs, stack))
  }

  // ----- outside of all modules -----

  /** A frame outside of all modules is unwound by its frame record: the caller's sp is right above it, its bp is
      the first word of it and the return address the second; provided that the record can be read, bp is
      not null, sp goes up and the return address is not null. */
  lemma OutsideOfModules<D>(info: InfoSource<D>, ms: seq<Module<D>>, address: FrameAddress, regs: Regs, stack: Stack)
    requires address.Valid() && FindModule(ms, address.AddressForLookup()).None?
    ensures var e := UnwindUncached(ArchX86(info), ms, address, regs, stack);
      var bp: int := regs.Bp();
      && (e.result.Ok? && e.result.value.Some? <==>
            && FitsU64(bp + 16) && bp in stack && bp + 8 in stack
            && bp != 0 && bp + 16 > regs.Sp() && stack[bp + 8] != 0)
      && (e.result.Ok? && e.result.value.Some? ==>
            && e.result.value.value == stack[bp + 8]
            && e.regs == regs.(ip := stack[bp + 8]).Set(RSP, bp + 16).Set(RBP, stack[bp]))
  {
    hide FindModule;
  }

  // ----- which unwind data a cache may be put in front of -----

  /** Unwind data which is a table by module and relative address. */
  function FromTable<D>(table: (Module<D>, U32) -> Info): InfoSource<D> {
    (m, address, relative, regs, stack) => table(m, relative)
  }

  /** An epilog whose instructions have a rule, and the one that the unwind codes give return addresses, if
      there are any to look up the address. */
  predicate EpilogShareable(ops: seq<X86Pe.EpilogInstruction>, codes: Codes, address: int) {
    var rule := X86Pe.RuleForSequence(X86Pe.Compiled(ops));
    rule.Some? && (address < TWO64 - 1 ==> rule == X86Pe.RuleForSequence(codes))
  }

  /** Data that leads all frames of the address to one rule, or none to a rule: a row must translate, or never
      evaluate, or never fail in any frame of that address; and an epilog must do what the unwind codes do. */
  ghost predicate Shareable(info: Info, address: int) {
    && (info.HasRow? ==>
          || X86Dwarf.Cacheable(info.row)
          || X86Dwarf.NeverEvaluates(info.row)
          || X86Dwarf.NeverFails(info.row, address == TWO64 - 1))
    && (info.HasCodes? && info.epilog.Some? ==> EpilogShareable(info.epilog.value, info.codes, address))
  }

  /** What that means for a row without expressions: it must translate or not be evaluable. */
  lemma ShareableRowExactly(row: X86Dwarf.Row, address: int)
    requires X86Dwarf.PlainRow(row)
    ensures Shareable(HasRow(row), address) <==> X86Dwarf.Cacheable(row) || !X86Dwarf.Evaluable(row)
  {
    X86Dwarf.PlainRowEvaluatesExactly(row);
    assert X86Dwarf.NeverFails(row, false) ==> X86Dwarf.NeverFails(row, true);
    hide X86Dwarf.NeverEvaluates, X86Dwarf.NeverFails, X86Dwarf.Cacheable, X86Dwarf.Evaluable;
  }

  lemma ShareableIsSteady(info: Info, a: FrameAddress, g: Regs, s: Stack, a': FrameAddress, g': Regs, s': Stack)
    requires a.Valid() && a'.Valid() && a.AddressForLookup() == a'.AddressForLookup()
    requires Shareable(info, a.AddressForLookup())
    requires !Call(info, !a.IsReturnAddress(), g, s).Uncacheable?
    ensures var c, c' := Call(info, !a.IsReturnAddress(), g, s), Call(info, !a'.IsReturnAddress(), g', s');
      && c.regs == g && c'.regs == g'
      && CacheAgreement.EffectiveRule(c', X86Rule.FALLBACK_RULE)
           == CacheAgreement.EffectiveRule(c, X86Rule.FALLBACK_RULE)
  {
    hide X86Dwarf.EvalRow, X86Dwarf.Translate, X86Dwarf.Cacheable;
    hide X86Pe.RuleForSequence, X86Pe.Compiled, X86Pe.Simulate;
    if info.HasRow? {
      X86Dwarf.TranslatesExactly(info.row);
      X86Dwarf.LaterFramesAreStricter(info.row, !a.IsReturnAddress(), g, s);
      X86Dwarf.LaterFramesAreStricter(info.row, !a'.IsReturnAddress(), g', s');
    }
  }

  /** Following the frame pointer takes two slots. */
  lemma OneSlotIsNotEnough(regs: Regs, stack: Stack)
    requires X86Dwarf.OneSlot(stack)
    ensures !X86Rule.Exec(X86Rule.FALLBACK_RULE, true, regs, stack).FoundCaller()
  {
  }

  /** Two frames with one address that cannot share a rule. */
  ghost predicate Tells(info: Info, address: U64, a: FrameAddress, g: Regs, s: Stack,
                        a': FrameAddress, g': Regs, s': Stack) {
    && a.Valid() && a'.Valid() && a.AddressForLookup() == a'.AddressForLookup() == address
    && !Call(info, !a.IsReturnAddress(), g, s).Uncacheable?
    && var rule := CacheAgreement.EffectiveRule(Call(info, !a.IsReturnAddress(), g, s), X86Rule.FALLBACK_RULE).value;
       match Call(info, !a'.IsReturnAddress(), g', s')
       case Uncacheable(ra, after) => ExecRule(rule, !a'.IsReturnAddress(), g', s') != Executed(Ok(Some(ra)), after)
       case UseRule(rule', after) =>
         ExecRule(rule, !a'.IsReturnAddress(), g', s') != ExecRule(rule', !a'.IsReturnAddress(), after, s')
       case CallFailed(after) => false
  }

  /** A row that evaluates here, fails there and does not translate: the fallback rule stays. */
  lemma UnshareableRowTells(row: X86Dwarf.Row, address: U64)
    returns (a: FrameAddress, g: Regs, s: Stack, g': Regs, s': Stack)
    requires !Shareable(HasRow(row), address)
    ensures Tells(HasRow(row), address, a, g, s, InstructionPointer(address), g', s')
  {
    hide X86Dwarf.EvalRow, X86Dwarf.Translate, X86Dwarf.Cacheable;
    X86Dwarf.TranslatesExactly(row);
    var isFirstFrame, g1, s1 :|
      (isFirstFrame || address < TWO64 - 1) && X86Dwarf.EvalRow(row, isFirstFrame, g1, s1).Err?;
    a := if isFirstFrame then InstructionPointer(address) else ReturnAddress(address + 1);
    g, s := g1, s1;
    g', s' := X86Dwarf.EvaluatesWithOneSlot(row);
    hide X86Rule.Exec, X86Dwarf.OneSlot;
    OneSlotIsNotEnough(g', s');
  }

  /** So does an epilog that has to be simulated. */
  lemma SimulatedEpilogTells(info: Info, address: U64) returns (g: Regs)
    requires info.HasCodes? && info.epilog.Some?
    requires X86Pe.RuleForSequence(X86Pe.Compiled(info.epilog.value)).None?
    ensures Tells(info, address, InstructionPointer(address), g, map[], InstructionPointer(address), g, FarAddresses())
  {
    hide X86Pe.RuleForSequence, X86Pe.Compiled, X86Pe.Simulate, FarAddresses;
    g := Regs(0, seq(16, i => 0));
    X86Pe.NothingToPop(info.epilog.value, info.frameRegister, g);
    X86Pe.EverythingPops(info.epilog.value, info.frameRegister, g);
    assert ExecRule(X86Rule.FALLBACK_RULE, true, g, FarAddresses()).result == Ok(None);
  }

  /** An epilog rule which is not that of the unwind codes does something else for some return address. */
  lemma OtherEpilogTells(info: Info, address: U64)
    requires info.HasCodes? && info.epilog.Some? && address < TWO64 - 1
    requires X86Pe.RuleForSequence(X86Pe.Compiled(info.epilog.value)).Some?
    requires X86Pe.RuleForSequence(X86Pe.Compiled(info.epilog.value)) != X86Pe.RuleForSequence(info.codes)
    ensures Tells(info, address, InstructionPointer(address), WitnessRegs(), map[],
                  ReturnAddress(address + 1), WitnessRegs(), FarAddresses())
  {
    hide X86Pe.RuleForSequence, X86Pe.Compiled, FarAddresses, X86Rule.Exec;
    EpilogsCompileToValid(X86Pe.Compiled(info.epilog.value));
    EpilogsCompileToValid(info.codes);
    var regs := WitnessRegs();
    var r, r' := CallEpilog(info.epilog.value, info.frameRegister, regs, map[]).rule, CodesRule(info.codes);
    if ExecRule(r, false, regs, FarAddresses()) == ExecRule(r', false, regs, FarAddresses()) {
      X86Pe.RulesAreVisible(X86Pe.Compiled(info.epilog.value), info.codes, false);
      assert false;
    }
  }

  lemma UnshareableTells(info: Info, address: U64)
    returns (a: FrameAddress, g: Regs, s: Stack, a': FrameAddress, g': Regs, s': Stack)
    requires !Shareable(info, address)
    ensures Tells(info, address, a, g, s, a', g', s')
  {
    hide Tells, X86Dwarf.Cacheable, X86Pe.RuleForSequence, X86Pe.Compiled, FarAddresses;
    a, s, a' := InstructionPointer(address), map[], InstructionPointer(address);
    if info.HasRow? {
      a, g, s, g', s' := UnshareableRowTells(info.row, address);
    } else if X86Pe.RuleForSequence(X86Pe.Compiled(info.epilog.value)).None? {
      g := SimulatedEpilogTells(info, address);
      g', s' := g, FarAddresses();
    } else {
      OtherEpilogTells(info, address);
      g, a', g', s' := WitnessRegs(), ReturnAddress(address + 1), WitnessRegs(), FarAddresses();
    }
  }

  ghost predicate AllShareable<D(!new)>(table: (Module<D>, U32) -> Info) {
    forall m, relative :: Covers(m, relative) ==> Shareable(table(m, relative), m.base + relative)
  }

  lemma ShareableIsInterchangeable<D(!new)>(table: (Module<D>, U32) -> Info)
    requires AllShareable(table)
    ensures CacheAgreement.Interchangeable(ArchX86(FromTable(table)))
  {
    hide Shareable, Call, ExecRule, FindModule;
    var arch := ArchX86(FromTable(table));
    forall ms, a: FrameAddress, g, s, a': FrameAddress, g', s' |
      && CacheAgreement.Possible(ms) && a.Valid() && Resolve(arch, ms, a, g, s).ByRule?
      && a'.Valid() && a'.AddressForLookup() == a.AddressForLookup()
      ensures var r, r' := Resolve(arch, ms, a, g, s), Resolve(arch, ms, a', g', s');
        r'.ByRule? && r'.rule == r.rule && r'.regs == g'
    {
      match FindModule(ms, a.AddressForLookup())
      case None =>
      case Some(f) =>
        FoundIsCovered(ms, a.AddressForLookup());
        ShareableIsSteady(table(ms[f.0], f.1), a, g, s, a', g', s');
    }
  }

  lemma UnshareableIsNotTransparent<D(!new)>(table: (Module<D>, U32) -> Info, m: Module<D>, relative: U32)
    requires Covers(m, relative) && !Shareable(table(m, relative), m.base + relative)
    ensures !CacheAgreement.Transparent(ArchX86(FromTable(table)))
  {
    hide Shareable, Call, ExecRule, FindModule, SortedModules, CacheAgreement.Transparent;
    var arch, address := ArchX86(FromTable(table)), m.base + relative;
    CoveredIsFound(m, relative);
    var a, g, s, a', g', s' := UnshareableTells(table(m, relative), address);
    CacheAgreement.NotTransparent(arch, [m], a, g, s, a', g', s');
  }

  /** Sharing a rule cache over a table is transparent if and only if, wherever it can be looked up, every row
      translates, never evaluates or never fails, and every epilog has the rule that the unwind codes have. */
  lemma TableIsTransparentExactly<D(!new)>(table: (Module<D>, U32) -> Info)
    ensures CacheAgreement.Transparent(ArchX86(FromTable(table))) <==> AllShareable(table)
  {
    CacheAgreement.TransparentExactly(ArchX86(FromTable(table)));
    hide CacheAgreement.Transparent, CacheAgreement.Interchangeable, Shareable, Covers;
    if AllShareable(table) {
      ShareableIsInterchangeable(table);
    } else {
      var m, relative :| Covers(m, relative) && !Shareable(table(m, relative), m.base + relative);
      UnshareableIsNotTransparent(table, m, relative);
    }
  }

  /** A row without a rule, as found in `_ffi_call_unix64`. */
  const STRANGE_ROW := X86Dwarf.Row(RegisterAndOffset(X86Dwarf.DWARF_RBP, 32), Offset(-16), Offset(-8))

  function StrangeInfo(): InfoSource<()> {
    (m, a, rel, g, s) => HasRow(STRANGE_ROW)
  }

  const STRANGE_MODULE: Module<()> := Module(0x1000, 0x2000, 0x1000, ())

  const STRANGE_FRAME := InstructionPointer(0x1080)

  const STRANGE_REGS := Regs(0x1080, seq(16, i => 0x8000))

  /** A frame record at bp, and another one right above it, which is the row's. */
  const STRANGE_STACK: Stack := map[0x8000 := 0x9100, 0x8008 := 0x5678, 0x8010 := 0x9000, 0x8018 := 0x1234]

  lemma StrangeRowIsResolved(stack: Stack, resolved: Resolved<Rule, Regs>)
    requires resolved == Resolve(ArchX86(StrangeInfo()), [STRANGE_MODULE], STRANGE_FRAME, STRANGE_REGS, stack)
    ensures stack == map[] ==> resolved.ByRule? && resolved.rule == X86Rule.FALLBACK_RULE
    ensures stack == STRANGE_STACK ==> resolved.Direct? && resolved.ra == 0x1234
  {
    assert Starts([STRANGE_MODULE]) == [0x1000];
    assert Search.BinarySearch([0x1000], 0x1080) == Search.Missing(1);
    assert FindModule([STRANGE_MODULE], 0x1080) == Some((0, 0x80));
    assert StrangeInfo()(STRANGE_MODULE, STRANGE_FRAME, 0x80, STRANGE_REGS, stack) == HasRow(STRANGE_ROW);
    assert EvalCfaRule(STRANGE_ROW.cfa, X86Dwarf.DwarfView(STRANGE_REGS)) == Some(0x8020);
    if stack == map[] {
      assert X86Dwarf.RecoverReturnAddress(STRANGE_ROW.ra, 0x8020, STRANGE_REGS, stack).Err?;
    } else if stack == STRANGE_STACK {
      assert X86Dwarf.RecoverReturnAddress(STRANGE_ROW.ra, 0x8020, STRANGE_REGS, stack) == Ok(0x1234);
    }
  }

  /** Rows without a rule do not make a steady callback: where such a row fails once, because the stack
      cannot be read, the fallback rule stays in the cache and finds another caller than the row does. */
  lemma FailedEvaluationStays()
    ensures var arch, ms := ArchX86(StrangeInfo()), [STRANGE_MODULE];
      var first := WithCache(arch, ms, 0, Empty(), STRANGE_FRAME, STRANGE_REGS, map[]);
      && |first.cache.entries| == CACHE_ENTRY_COUNT
      && WithCache(arch, ms, 0, first.cache, STRANGE_FRAME, STRANGE_REGS, STRANGE_STACK).executed.result
           == Ok(Some(0x5678))
      && UnwindUncached(arch, ms, STRANGE_FRAME, STRANGE_REGS, STRANGE_STACK).result == Ok(Some(0x1234))
  {
    var arch, ms := ArchX86(StrangeInfo()), [STRANGE_MODULE];
    StrangeRowIsResolved(map[], Resolve(arch, ms, STRANGE_FRAME, STRANGE_REGS, map[]));
    StrangeRowIsResolved(STRANGE_STACK, Resolve(arch, ms, STRANGE_FRAME, STRANGE_REGS, STRANGE_STACK));
    hide Resolve, WithCache;
    assert Lookup(Empty<Rule>(), 0x1080, 0).Miss?;
    CacheAgreement.SecondFrameHits(arch, ms, ms, 0, Empty(), STRANGE_FRAME, STRANGE_REGS, map[],
                                   STRANGE_FRAME, STRANGE_REGS, STRANGE_STACK);
    assert ExecRule(X86Rule.FALLBACK_RULE, true, STRANGE_REGS, STRANGE_STACK).result == Ok(Some(0x5678));
  }

  // ----- progress -----

  /** A rule under which the return address is looked for right below the CFA, if at all. */
  predicate ReturnsBelowCfa(ra: RegisterRule) {
    (ra.Offset? && ra.offset == -8) || ra.Undefined? || ra.Architectural?
  }

  /** The CFA is sp with an offset. */
  predicate MovesSp(cfa: CfaRule) {
    cfa.RegisterAndOffset? && cfa.register == X86Dwarf.DWARF_RSP && cfa.offset != 0
  }

  /** Rows as compilers emit them: they keep the return address right below the CFA, or move sp, or never
      evaluate. */
  ghost predicate OrdinaryRow(row: X86Dwarf.Row) {
    ReturnsBelowCfa(row.ra) || MovesSp(row.cfa) || X86Dwarf.NeverEvaluates(row)
  }

  ghost predicate Ordinary<D(!new)>(info: InfoSource<D>) {
    forall m, a, rel, g, s :: info(m, a, rel, g, s).HasRow? ==> OrdinaryRow(info(m, a, rel, g, s).row)
  }

  /** Unwinding raises sp, or at least finds the return address right below it where it was not before. */
  ghost predicate Advances(before: Regs, e: Executed<Regs>, stack: Stack) {
    e.result.Ok? && e.result.value.Some? ==>
      || before.Sp() < e.regs.Sp()
      || (&& before.Sp() == e.regs.Sp()
          && !X86Progress.JustReturned(before, stack) && X86Progress.JustReturned(e.regs, stack))
  }

  /** How often that can still happen. */
  ghost function Room(regs: Regs, stack: Stack): nat {
    2 * (TWO64 - regs.Sp()) - if X86Progress.JustReturned(regs, stack) then 1 else 0
  }

  lemma RuleAdvances(rule: Rule, isFirstFrame: bool, regs: Regs, stack: Stack)
    ensures Advances(regs, ExecRule(rule, isFirstFrame, regs, stack), stack)
  {
    hide X86Rule.Exec, X86Progress.JustReturned;
    if X86Rule.Exec(rule, isFirstFrame, regs, stack).FoundCaller() {
      X86Progress.ExecMakesProgress(rule, isFirstFrame, regs, stack);
    }
  }

  /** The generic path, too, reads the return address from right below the CFA, even where its rule
      fails to evaluate; or moves sp. */
  lemma GenericPathAdvances(row: X86Dwarf.Row, regs: Regs, stack: Stack)
    requires OrdinaryRow(row) && X86Dwarf.EvalRow(row, false, regs, stack).Ok?
    ensures var r := X86Dwarf.EvalRow(row, false, regs, stack).value;
      Advances(regs, Executed(Ok(Some(r.ra)), r.regs), stack)
  {
    X86Dwarf.LaterFramesAreStricter(row, false, regs, stack);
  }

  lemma CallAdvances(info: Info, regs: Regs, stack: Stack)
    requires info.HasRow? ==> OrdinaryRow(info.row)
    ensures var c := Call(info, false, regs, stack);
      if c.Uncacheable? then Advances(regs, Executed(Ok(Some(c.ra)), c.regs), stack) else c.regs == regs
  {
    hide X86Dwarf.EvalRow, X86Dwarf.Translate, Advances, OrdinaryRow, X86Pe.RuleForSequence;
    if info.HasRow? && X86Dwarf.EvalRow(info.row, false, regs, stack).Ok? {
      GenericPathAdvances(info.row, regs, stack);
    }
  }

  lemma UnwindAdvances<D(!new)>(info: InfoSource<D>, ms: seq<Module<D>>, generation: U16, cache: State<Rule>,
                                address: FrameAddress, regs: Regs, stack: Stack)
    requires Ordinary(info) && address.Valid() && address.IsReturnAddress() && |cache.entries| == CACHE_ENTRY_COUNT
    ensures Advances(regs, WithCache(ArchX86(info), ms, generation, cache, address, regs, stack).executed, stack)
  {
    hide Call, ExecRule, FindModule, Advances, OrdinaryRow;
    var lookup := address.AddressForLookup();
    match Lookup(cache, lookup, generation)
    case Hit(rule) => RuleAdvances(rule, false, regs, stack);
    case Miss(_) =>
      match FindModule(ms, lookup)
      case None => RuleAdvances(X86Rule.FALLBACK_RULE, false, regs, stack);
      case Some(f) =>
        var i := info(ms[f.0], address, f.1, regs, stack);
        CallAdvances(i, regs, stack);
        match Call(i, false, regs, stack)
        case UseRule(rule, _) => RuleAdvances(rule, false, regs, stack);
        case CallFailed(_) => RuleAdvances(X86Rule.FALLBACK_RULE, false, regs, stack);
        case Uncacheable(_, _) =>
  }

  /** Whatever the modules, the stack and the contents of the cache: once the frame is a return address,
      every further one raises sp, or at least finds its return address right below sp where it was
      not before. */
  lemma NextMakesProgress<D(!new)>(info: InfoSource<D>, ms: seq<Module<D>>, generation: U16,
                                   it: Iteration<Rule, Regs>, stack: Stack)
    requires Ordinary(info) && it.Valid() && it.state.At? && it.state.address.IsReturnAddress()
    ensures var y := NextFrame(ArchX86(info), ms, generation, it, stack);
      y.result.Ok? && y.result.value.Some? ==>
        && Advances(it.regs, Executed(Ok(Some(y.result.value.value.ra)), y.it.regs), stack)
        && Room(y.it.regs, stack) < Room(it.regs, stack)
  {
    hide WithCache, X86Progress.JustReturned;
    UnwindAdvances(info, ms, generation, it.cache, it.state.address, it.regs, stack);
  }

  /** From a return address on, there are no more frames than there is room for. */
  lemma {:induction false} FramesAreBounded<D(!new)>(info: InfoSource<D>, ms: seq<Module<D>>, generation: U16,
                                                     it: Iteration<Rule, Regs>, stack: Stack, n: nat)
    requires Ordinary(info) && it.Valid() && it.state.At? && it.state.address.IsReturnAddress()
    requires YieldsFrames(ArchX86(info), ms, generation, it, stack, n)
    ensures n <= Room(it.regs, stack)
    decreases n
  {
    hide NextFrame, Ordinary, Room;
    if n != 0 {
      NextMakesProgress(info, ms, generation, it, stack);
      NextYields(ArchX86(info), ms, generation, it, stack);
      FramesAreBounded(info, ms, generation, NextFrame(ArchX86(info), ms, generation, it, stack).it, stack, n - 1);
    }
  }

  /** Every walk ends. */
  lemma WalksTerminate<D(!new)>(info: InfoSource<D>, ms: seq<Module<D>>, generation: U16,
                                it: Iteration<Rule, Regs>, stack: Stack, n: nat)
    requires Ordinary(info) && it.Valid() && YieldsFrames(ArchX86(info), ms, generation, it, stack, n)
    ensures n <= 2 * TWO64 + 2
  {
    hide NextFrame, Ordinary;
    if n >= 2 {
      var arch := ArchX86(info);
      NextYields(arch, ms, generation, it, stack);
      var it1 := NextFrame(arch, ms, generation, it, stack).it;
      NextYields(arch, ms, generation, it1, stack);
      FramesAreBounded(info, ms, generation, NextFrame(arch, ms, generation, it1, stack).it, stack, n - 2);
    }
  }

  // ----- the hypothesis is needed -----

  /** Two functions whose rows keep sp where it is and find the return address elsewhere. */
  function LoopingRow(rel: U32): X86Dwarf.Row {
    X86Dwarf.Row(RegisterAndOffset(X86Dwarf.DWARF_RSP, 0), SameValue, Offset(if rel < 0x100 then -16 else -24))
  }

  function Looping(): InfoSource<()> {
    (m, a, rel, g, s) => HasRow(LoopingRow(rel))
  }

  const LOOPING_MODULE: Module<()> := Module(0x1000, 0x2000, 0x1000, ())

  /** Each function's return address leads into the other. */
  const LOOPING_STACK: Stack := map[0x7ff0 := 0x1180, 0x7fe8 := 0x1080]

  function LoopingRegs(ip: U64): Regs { Regs(ip, seq(16, i => 0x8000)) }

  ghost predicate InLoop(it: Iteration<Rule, Regs>) {
    && (it.regs == LoopingRegs(0x1080) || it.regs == LoopingRegs(0x1180))
    && it.state == At(ReturnAddress(it.regs.ip))
    && forall i :: 0 <= i < |it.cache.entries| ==> it.cache.entries[i].None?
  }

  lemma LoopingRowNeverAdvances(isFirstFrame: bool, ip: U64, rel: U32)
    requires (ip == 0x1080 && rel < 0x100) || (ip == 0x1180 && rel >= 0x100)
    ensures var other := if ip == 0x1080 then 0x1180 else 0x1080;
      Call(HasRow(LoopingRow(rel)), isFirstFrame, LoopingRegs(ip), LOOPING_STACK)
        == Called.Uncacheable(other, LoopingRegs(other))
  {
    var other, regs := if ip == 0x1080 then 0x1180 else 0x1080, LoopingRegs(ip);
    assert X86Dwarf.Translate(LoopingRow(rel)).Err?;
    assert EvalCfaRule(LoopingRow(rel).cfa, X86Dwarf.DwarfView(regs)) == Some(0x8000);
    assert X86Dwarf.RecoverReturnAddress(LoopingRow(rel).ra, 0x8000, regs, LOOPING_STACK) == Ok(other);
    assert regs.(ip := other).Set(RBP, 0x8000).Set(RSP, 0x8000).file == LoopingRegs(other).file;
  }

  lemma LoopGoesOn(it: Iteration<Rule, Regs>)
    requires it.Valid() && InLoop(it)
    ensures var y := NextFrame(ArchX86(Looping()), [LOOPING_MODULE], 0, it, LOOPING_STACK);
      y.result.Ok? && y.result.value.Some? && InLoop(y.it)
  {
    hide Call;
    var lookup: U64 := it.regs.ip - 1;
    assert Starts([LOOPING_MODULE]) == [0x1000];
    assert Search.BinarySearch([0x1000], lookup) == Search.Missing(1);
    assert FindModule([LOOPING_MODULE], lookup) == Some((0, lookup - 0x1000));
    LoopingRowNeverAdvances(false, it.regs.ip, lookup - 0x1000);
    var arch := ArchX86(Looping());
    assert Looping()(LOOPING_MODULE, it.state.address, lookup - 0x1000, it.regs, LOOPING_STACK)
        == HasRow(LoopingRow(lookup - 0x1000));
    assert arch.callback(LOOPING_MODULE, it.state.address, lookup - 0x1000, it.regs, LOOPING_STACK)
        == Call(HasRow(LoopingRow(lookup - 0x1000)), false, it.regs, LOOPING_STACK);
    var other: U64 := if it.regs.ip == 0x1080 then 0x1180 else 0x1080;
    assert Resolve(arch, [LOOPING_MODULE], it.state.address, it.regs, LOOPING_STACK)
        == Direct(other, LoopingRegs(other));
  }

  ghost predicate YieldsForever(it: Iteration<Rule, Regs>)
    requires it.Valid()
  {
    forall n: nat :: YieldsFrames(ArchX86(Looping()), [LOOPING_MODULE], 0, it, LOOPING_STACK, n)
  }

  lemma {:induction false} LoopNeverEnds(it: Iteration<Rule, Regs>, n: nat)
    requires it.Valid() && InLoop(it)
    ensures YieldsFrames(ArchX86(Looping()), [LOOPING_MODULE], 0, it, LOOPING_STACK, n)
    decreases n
  {
    hide NextFrame, InLoop;
    if n != 0 {
      LoopGoesOn(it);
      LoopNeverEnds(NextFrame(ArchX86(Looping()), [LOOPING_MODULE], 0, it, LOOPING_STACK).it, n - 1);
    }
  }

  function LoopingStart(): Iteration<Rule, Regs> {
    Iteration(Start(0x1080), LoopingRegs(0x1080), Empty())
  }

  lemma LoopIsEntered()
    ensures var y := NextFrame(ArchX86(Looping()), [LOOPING_MODULE], 0, LoopingStart(), LOOPING_STACK);
      var z := NextFrame(ArchX86(Looping()), [LOOPING_MODULE], 0, y.it, LOOPING_STACK);
      y.result.Ok? && y.result.value.Some? && z.result.Ok? && z.result.value.Some? && InLoop(z.it)
  {
    hide Call;
    var arch, a := ArchX86(Looping()), InstructionPointer(0x1080);
    assert Covers(LOOPING_MODULE, 0x80);
    CoveredIsFound(LOOPING_MODULE, 0x80);
    hide FindModule;
    LoopingRowNeverAdvances(true, 0x1080, 0x80);
    assert Looping()(LOOPING_MODULE, a, 0x80, LoopingRegs(0x1080), LOOPING_STACK) == HasRow(LoopingRow(0x80));
    assert Resolve(arch, [LOOPING_MODULE], a, LoopingRegs(0x1080), LOOPING_STACK)
        == Direct(0x1180, LoopingRegs(0x1180));
  }

  lemma LoopingIsNotOrdinary()
    ensures !Ordinary(Looping())
  {
    var info := Looping();
    X86Dwarf.PlainRowEvaluatesExactly(LoopingRow(0));
    hide X86Dwarf.NeverEvaluates, X86Dwarf.NeverFails;
    assert info(LOOPING_MODULE, InstructionPointer(0), 0, LoopingRegs(0), map[]) == HasRow(LoopingRow(0));
  }

  lemma YieldsFromStart(n: nat)
    ensures YieldsFrames(ArchX86(Looping()), [LOOPING_MODULE], 0, LoopingStart(), LOOPING_STACK, n)
  {
    LoopIsEntered();
    hide NextFrame, InLoop, Looping, ArchX86;
    var arch := ArchX86(Looping());
    var y := NextFrame(arch, [LOOPING_MODULE], 0, LoopingStart(), LOOPING_STACK);
    var z := NextFrame(arch, [LOOPING_MODULE], 0, y.it, LOOPING_STACK);
    if n >= 2 {
      LoopNeverEnds(z.it, n - 2);
      assert YieldsFrames(arch, [LOOPING_MODULE], 0, y.it, LOOPING_STACK, n - 1);
    }
  }

  /** With return addresses stored elsewhere, a walk may go on forever at one and the same sp, from its start: the
      check for progress compares with the previous frame only. */
  lemma ReturnAddressElsewhereLoops()
    ensures !Ordinary(Looping())
    ensures LoopingStart().Valid() && YieldsForever(LoopingStart())
  {
    LoopingIsNotOrdinary();
    hide YieldsFrames, Ordinary;
    forall n: nat ensures YieldsFrames(ArchX86(Looping()), [LOOPING_MODULE], 0, LoopingStart(), LOOPING_STACK, n) {
      YieldsFromStart(n);
    }
  }
}
