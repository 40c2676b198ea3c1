/** The frame iterator. */
module FrameIterator {
  import opened Words
  import opened Frames
  import opened Modules
  import opened RuleCacheModel
  import opened Unwinding

  datatype IterState = Start(pc: U64) | At(address: FrameAddress) | Done
  {
    predicate Valid() { At? ==> address.Valid() }
  }

  /** Where an iteration stands. */
  datatype Iteration<R, G> = Iteration(state: IterState, regs: G, cache: State<R>)
  {
    predicate Valid() { state.Valid() && |cache.entries| == CACHE_ENTRY_COUNT }
  }

  /** What `next` yields, and where the iteration then stands. */
  datatype Yielded<R, G> = Yielded(result: Result<Option<FrameAddress>, Error>, it: Iteration<R, G>)

  /** `UnwindIterator::next`. After an error the state is what it was, but not the registers. */
  function NextFrame<R, G, D>(arch: Arch<R, G, D>, ms: seq<Module<D>>, generation: U16,
                              it: Iteration<R, G>, stack: Stack): (y: Yielded<R, G>)
    requires it.Valid()
    ensures y.it.Valid()
  {
    match it.state
    case Start(pc) => Yielded(Ok(Some(InstructionPointer(pc))), it.(state := At(InstructionPointer(pc))))
    case Done => Yielded(Ok(None), it)
    case At(address) =>
      var c := WithCache(arch, ms, generation, it.cache, address, it.regs, stack);
      var next := it.(regs := c.executed.regs, cache := c.cache);
      match c.executed.result
      case Err(e) => Yielded(Err(e), next)
      case Ok(None) => Yielded(Ok(None), next.(state := Done))
      case Ok(Some(ra)) =>
        if ra == 0 then Yielded(Err(ReturnAddressIsNull), next)
        else Yielded(Ok(Some(ReturnAddress(ra))), next.(state := At(ReturnAddress(ra))))
  }

  /** `next` yields the instruction pointer at the start, and non-null return addresses after it; it
      goes on from the frame it yields, is done at the end of the stack, and is where it was after an
      error. Once done, it stays so and touches nothing. */
  lemma NextYields<R, G, D>(arch: Arch<R, G, D>, ms: seq<Module<D>>, generation: U16, it: Iteration<R, G>, stack: Stack)
    requires it.Valid()
    ensures var y := NextFrame(arch, ms, generation, it, stack);
      && (it.state.Start? ==> y.result == Ok(Some(InstructionPointer(it.state.pc))) && y.it.regs == it.regs)
      && (y.result == Ok(None) ==> y.it.state.Done?)
      && (y.result.Err? ==> y.it.state == it.state)
      && (it.state.Done? ==> y.result == Ok(None) && y.it == it)
      && (y.result.Ok? && y.result.value.Some? ==>
            && y.it.state == At(y.result.value.value)
            && (it.state.Start? || (y.result.value.value.IsReturnAddress() && y.result.value.value.ra != 0)))
  {
    hide WithCache;
  }

  /** `n` calls of `next` in a row all yield a frame. */
  ghost predicate YieldsFrames<R, G, D>(arch: Arch<R, G, D>, ms: seq<Module<D>>, generation: U16,
                                        it: Iteration<R, G>, stack: Stack, n: nat)
    requires it.Valid()
    decreases n
  {
    n == 0 ||
      var y := NextFrame(arch, ms, generation, it, stack);
      y.result.Ok? && y.result.value.Some? && YieldsFrames(arch, ms, generation, y.it, stack, n - 1)
  }

  class UnwindIterator<R, G, D> {
    const unwinder: UnwinderInternal<D>
    const cache: RuleCache<R>
    var state: IterState
    var regs: G

    constructor (unwinder: UnwinderInternal<D>, pc: U64, regs: G, cache: RuleCache<R>)
      ensures this.unwinder == unwinder && this.cache == cache
      ensures state == Start(pc) && this.regs == regs
    {
      this.unwinder, this.cache, state, this.regs := unwinder, cache, Start(pc), regs;
    }

    ghost predicate Valid()
      reads this, cache, cache.entries
    {
      state.Valid() && cache.Valid()
    }

    ghost function Value(): Iteration<R, G>
      reads this, cache, cache.entries
    {
      Iteration(state, regs, cache.Value())
    }

    method Next(arch: Arch<R, G, D>, stack: Stack) returns (r: Result<Option<FrameAddress>, Error>)
      requires Valid()
      modifies this, cache, cache.entries
      ensures Valid()
      ensures Yielded(r, Value()) == NextFrame(arch, unwinder.modules, unwinder.generation, old(Value()), stack)
    {
      hide WithCache;
      match state
      case Start(pc) =>
        state := At(InstructionPointer(pc));
        return Ok(Some(InstructionPointer(pc)));
      case Done => return Ok(None);
      case At(address) =>
        var e := unwinder.UnwindFrame(arch, address, regs, cache, stack);
        regs := e.regs;
        var next :- e.result;
        if next.None? {
          state := Done;
          return Ok(None);
        }
        var frame := FromReturnAddress(next.value);
        if frame.None? {
          return Err(ReturnAddressIsNull);
        }
        state := At(frame.value);
        return Ok(frame);
    }
  }
}

/** Whole walks yield the same frames with and without the rule cache. */
module WalkTransparency {
  import opened Words
  import opened Frames
  import opened Modules
  import opened Unwinding
  import opened FrameIterator
  import opened CacheAgreement

  /** An iteration without a cache. */
  datatype Plain<G> = Plain(state: IterState, regs: G)

  datatype PlainYield<G> = PlainYield(result: Result<Option<FrameAddress>, Error>, p: Plain<G>)

  function NextPlain<R, G, D>(arch: Arch<R, G, D>, ms: seq<Module<D>>, p: Plain<G>, stack: Stack): (y: PlainYield<G>)
    requires p.state.Valid()
    ensures y.p.state.Valid()
  {
    match p.state
    case Start(pc) => PlainYield(Ok(Some(InstructionPointer(pc))), p.(state := At(InstructionPointer(pc))))
    case Done => PlainYield(Ok(None), p)
    case At(address) =>
      var e := UnwindUncached(arch, ms, address, p.regs, stack);
      match e.result
      case Err(error) => PlainYield(Err(error), Plain(p.state, e.regs))
      case Ok(None) => PlainYield(Ok(None), Plain(Done, e.regs))
      case Ok(Some(ra)) =>
        if ra == 0 then PlainYield(Err(ReturnAddressIsNull), Plain(p.state, e.regs))
        else PlainYield(Ok(Some(ReturnAddress(ra))), Plain(At(ReturnAddress(ra)), e.regs))
  }

  type Frame = Result<Option<FrameAddress>, Error>

  /** What `n` calls of `next` return. */
  function Walk<R, G, D>(arch: Arch<R, G, D>, ms: seq<Module<D>>, generation: U16, it: Iteration<R, G>,
                         stack: Stack, n: nat): seq<Frame>
    requires it.Valid()
    decreases n
  {
    if n == 0 then []
    else
      var y := NextFrame(arch, ms, generation, it, stack);
      [y.result] + Walk(arch, ms, generation, y.it, stack, n - 1)
  }

  function PlainWalk<R, G, D>(arch: Arch<R, G, D>, ms: seq<Module<D>>, p: Plain<G>, stack: Stack, n: nat): seq<Frame>
    requires p.state.Valid()
    decreases n
  {
    if n == 0 then []
    else
      var y := NextPlain(arch, ms, p, stack);
      [y.result] + PlainWalk(arch, ms, y.p, stack, n - 1)
  }

  lemma NextAgreesWithPlain<R(!new), G(!new), D(!new)>(arch: Arch<R, G, D>, ms: seq<Module<D>>, generation: U16,
                                                       known: Lists<D>, it: Iteration<R, G>, stack: Stack)
    requires Interchangeable(arch) && it.Valid() && CacheAgrees(arch, it.cache, known)
    requires generation in known && known[generation] == ms && Possible(ms)
    ensures var y := NextFrame(arch, ms, generation, it, stack);
      && CacheAgrees(arch, y.it.cache, known)
      && NextPlain(arch, ms, Plain(it.state, it.regs), stack) == PlainYield(y.result, Plain(y.it.state, y.it.regs))
  {
    hide Interchangeable, WithCache, UnwindUncached, CacheAgrees, Possible;
    if it.state.At? {
      WithCacheAgrees(arch, ms, generation, it.cache, known, it.state.address, it.regs, stack);
    }
  }

  /** Any walk, of any length, over any cache that agrees: the frames, the end and the errors are those of
      a walk without a cache. */
  lemma {:induction false} WalkIsTransparent<R(!new), G(!new), D(!new)>(
      arch: Arch<R, G, D>, ms: seq<Module<D>>, generation: U16, known: Lists<D>,
      it: Iteration<R, G>, stack: Stack, n: nat)
    requires Interchangeable(arch) && it.Valid() && CacheAgrees(arch, it.cache, known)
    requires generation in known && known[generation] == ms && Possible(ms)
    ensures Walk(arch, ms, generation, it, stack, n) == PlainWalk(arch, ms, Plain(it.state, it.regs), stack, n)
    decreases n
  {
    hide Interchangeable, CacheAgrees, NextFrame, NextPlain, Possible;
    if n != 0 {
      NextAgreesWithPlain(arch, ms, generation, known, it, stack);
      WalkIsTransparent(arch, ms, generation, known, NextFrame(arch, ms, generation, it, stack).it, stack, n - 1);
    }
  }
}

/** Whole stack walks on aarch64. */
module Aarch64Walk {
  import opened Words
  import opened Frames
  import opened Modules
  import opened RuleCacheModel
  import opened Unwinding
  import opened FrameIterator
  import CacheAgreement
  import PtrAuth
  import Aarch64Rule
  import Aarch64Dwarf

  type Regs = Aarch64Rule.Regs
  type Rule = Aarch64Rule.Rule

  /** What a module's unwind data has for a frame: a rule, a row of call frame information, or nothing. */
  datatype Info = HasRule(rule: Rule) | HasRow(row: Aarch64Dwarf.Row) | HasNothing

  /** Any modules with any unwind data whatsoever. */
  type InfoSource<!D> = (Module<D>, FrameAddress, U32, Regs, Stack) -> Info

  function Call(info: Info, isFirstFrame: bool, regs: Regs, stack: Stack): Called<Rule, Regs> {
    match info
    case HasRule(rule) => UseRule(rule, regs)
    case HasNothing => CallFailed(regs)
    case HasRow(row) =>
      match Aarch64Dwarf.UnwindRow(row, isFirstFrame, regs, stack)
      case Ok(ExecRule(rule)) => UseRule(rule, regs)
      case Ok(Uncacheable(recovered)) => Called.Uncacheable(recovered.ra, recovered.regs)
      case Err(_) => CallFailed(regs)
  }

  function ExecRule(rule: Rule, isFirstFrame: bool, regs: Regs, stack: Stack): Executed<Regs> {
    var o := Aarch64Rule.Exec(rule, isFirstFrame, regs, stack);
    Executed(o.result, o.regs)
  }

  function ArchAarch64<D>(info: InfoSource<D>): Arch<Rule, Regs, D> {
    Arch(ExecRule, Aarch64Rule.FALLBACK_RULE,
         (m, address: FrameAddress, rel, regs, stack) =>
           Call(info(m, address, rel, regs, stack), !address.IsReturnAddress(), regs, stack))
  }

  // ----- outside of all modules -----

  /** A frame outside of all modules is unwound by its frame record: the caller's sp is right above it, its fp is
      the first word of it and its lr the second; provided that the record can be read, fp and sp go up
      and the return address is not null. */
  lemma OutsideOfModules<D>(info: InfoSource<D>, ms: seq<Module<D>>, address: FrameAddress, regs: Regs, stack: Stack)
    requires address.Valid() && FindModule(ms, address.AddressForLookup()).None?
    ensures var e := UnwindUncached(ArchAarch64(info), ms, address, regs, stack);
      var fp: int := regs.fp;
      && (e.result.Ok? && e.result.value.Some? <==>
            && FitsU64(fp + 16) && fp in stack && fp + 8 in stack
            && stack[fp] > fp && fp + 16 > regs.sp
            && PtrAuth.StripPtrAuth(regs.mask, stack[fp + 8]) != 0)
      && (e.result.Ok? && e.result.value.Some? ==>
            var ra := PtrAuth.StripPtrAuth(regs.mask, stack[fp + 8]);
            e.result.value.value == ra && e.regs == Aarch64Rule.Regs(regs.mask, ra, fp + 16, stack[fp]))
  {
    hide FindModule, PtrAuth.BitAnd;
  }

  // ----- which unwind data a cache may be put in front of -----

  /** Unwind data which is a table by module and relative address. */
  function FromTable<D>(table: (Module<D>, U32) -> Info): InfoSource<D> {
    (m, address, relative, regs, stack) => table(m, relative)
  }

  /** Data that leads all frames of the address to one rule, or none to a rule: a row must translate, or never
      evaluate, or never fail in any frame of that address. No return address looks up the last one. */
  ghost predicate Shareable(info: Info, address: int) {
    info.HasRow? ==>
      || Aarch64Dwarf.Cacheable(info.row)
      || Aarch64Dwarf.NeverEvaluates(info.row)
      || Aarch64Dwarf.NeverFails(info.row, address == TWO64 - 1)
  }

  /** What that means for a row: without a CFA expression, it must translate or have a CFA that is not evaluable;
      a CFA expression must fail always, or never fail and be looked up by first frames only. */
  lemma ShareableRowExactly(row: Aarch64Dwarf.Row, address: int)
    ensures row.cfa.RegisterAndOffset? ==>
      (Shareable(HasRow(row), address) <==> Aarch64Dwarf.Cacheable(row) || !Aarch64Dwarf.Evaluable(row.cfa))
    ensures row.cfa.CfaExpression? ==>
      (Shareable(HasRow(row), address) <==>
         || (forall regs :: row.cfa.value(Aarch64Dwarf.DwarfView(regs)).None?)
         || (address == TWO64 - 1 && forall regs :: row.cfa.value(Aarch64Dwarf.DwarfView(regs)).Some?))
  {
    if row.cfa.RegisterAndOffset? {
      Aarch64Dwarf.PlainRowEvaluatesExactly(row);
      assert Aarch64Dwarf.NeverFails(row, false) ==> Aarch64Dwarf.NeverFails(row, true);
      hide Aarch64Dwarf.NeverEvaluates, Aarch64Dwarf.NeverFails, Aarch64Dwarf.Cacheable, Aarch64Dwarf.Evaluable;
    } else {
      Aarch64Dwarf.ExpressionRowEvaluatesExactly(row);
      hide Aarch64Dwarf.NeverEvaluates, Aarch64Dwarf.NeverFails, Aarch64Dwarf.DwarfView;
    }
  }

  lemma ShareableIsSteady(info: Info, a: FrameAddress, g: Regs, s: Stack, a': FrameAddress, g': Regs, s': Stack)
    requires a.Valid() && a'.Valid() && a.AddressForLookup() == a'.AddressForLookup()
    requires Shareable(info, a.AddressForLookup())
    requires !Call(info, !a.IsReturnAddress(), g, s).Uncacheable?
    ensures var c, c' := Call(info, !a.IsReturnAddress(), g, s), Call(info, !a'.IsReturnAddress(), g', s');
      && c.regs == g && c'.regs == g'
      && CacheAgreement.EffectiveRule(c', Aarch64Rule.FALLBACK_RULE)
           == CacheAgreement.EffectiveRule(c, Aarch64Rule.FALLBACK_RULE)
  {
    hide Aarch64Dwarf.EvalRow, Aarch64Dwarf.Translate, Aarch64Dwarf.Cacheable;
    if info.HasRow? {
      Aarch64Dwarf.TranslatesExactly(info.row);
      Aarch64Dwarf.LaterFramesAreStricter(info.row, !a.IsReturnAddress(), g, s);
      Aarch64Dwarf.LaterFramesAreStricter(info.row, !a'.IsReturnAddress(), g', s');
    }
  }

  /** Other data: some frame of the address fails, and another one is found by the row but not by the fallback
      rule. */
  lemma UnshareableTells(info: Info, address: U64)
    returns (a: FrameAddress, g: Regs, s: Stack, a': FrameAddress, g': Regs)
    requires !Shareable(info, address)
    ensures a.Valid() && a'.Valid() && a.AddressForLookup() == a'.AddressForLookup() == address
    ensures Call(info, !a.IsReturnAddress(), g, s) == CallFailed(g)
    ensures Call(info, !a'.IsReturnAddress(), g', map[]).Uncacheable?
    ensures ExecRule(Aarch64Rule.FALLBACK_RULE, !a'.IsReturnAddress(), g', map[]).result.Err?
  {
    hide Aarch64Dwarf.EvalRow, Aarch64Dwarf.Translate, Aarch64Dwarf.Cacheable;
    var row := info.row;
    Aarch64Dwarf.TranslatesExactly(row);
    var isFirstFrame, g1, s1 :|
      (isFirstFrame || address < TWO64 - 1) && Aarch64Dwarf.EvalRow(row, isFirstFrame, g1, s1).Err?;
    a := if isFirstFrame then InstructionPointer(address) else ReturnAddress(address + 1);
    g, s := g1, s1;
    var g2, s2 :| Aarch64Dwarf.EvalRow(row, true, g2, s2).Ok?;
    a', g' := InstructionPointer(address), g2;
    Aarch64Dwarf.EvaluatesWithoutStack(row, g', s2);
  }

  ghost predicate AllShareable<D(!new)>(table: (Module<D>, U32) -> Info) {
    forall m, relative :: Covers(m, relative) ==> Shareable(table(m, relative), m.base + relative)
  }

  lemma ShareableIsInterchangeable<D(!new)>(table: (Module<D>, U32) -> Info)
    requires AllShareable(table)
    ensures CacheAgreement.Interchangeable(ArchAarch64(FromTable(table)))
  {
    hide Shareable, Call, ExecRule, FindModule;
    var arch := ArchAarch64(FromTable(table));
    forall ms, a: FrameAddress, g, s, a': FrameAddress, g', s' |
      && CacheAgreement.Possible(ms) && a.Valid() && Resolve(arch, ms, a, g, s).ByRule?
      && a'.Valid() && a'.AddressForLookup() == a.AddressForLookup()
      ensures Resolve(arch, ms, a', g', s') == ByRule(Resolve(arch, ms, a, g, s).rule, g')
    {
      match FindModule(ms, a.AddressForLookup())
      case None =>
      case Some(f) =>
        FoundIsCovered(ms, a.AddressForLookup());
        ShareableIsSteady(table(ms[f.0], f.1), a, g, s, a', g', s');
    }
  }

  lemma UnshareableIsNotTransparent<D(!new)>(table: (Module<D>, U32) -> Info, m: Module<D>, relative: U32)
    requires Covers(m, relative) && !Shareable(table(m, relative), m.base + relative)
    ensures !CacheAgreement.Transparent(ArchAarch64(FromTable(table)))
  {
    hide Shareable, Call, ExecRule, FindModule, SortedModules, CacheAgreement.Transparent;
    var arch, address := ArchAarch64(FromTable(table)), m.base + relative;
    CoveredIsFound(m, relative);
    var a, g, s, a', g' := UnshareableTells(table(m, relative), address);
    assert Resolve(arch, [m], a, g, s) == ByRule(arch.fallback, g);
    assert Resolve(arch, [m], a', g', map[]).Direct?;
    CacheAgreement.NotTransparent(arch, [m], a, g, s, a', g', map[]);
  }

  /** Sharing a rule cache over a table is transparent if and only if every row that can be looked up
      translates, never evaluates, or never fails. */
  lemma TableIsTransparentExactly<D(!new)>(table: (Module<D>, U32) -> Info)
    ensures CacheAgreement.Transparent(ArchAarch64(FromTable(table))) <==> AllShareable(table)
  {
    CacheAgreement.TransparentExactly(ArchAarch64(FromTable(table)));
    hide CacheAgreement.Transparent, CacheAgreement.Interchangeable, Shareable, Covers;
    if AllShareable(table) {
      ShareableIsInterchangeable(table);
    } else {
      var m, relative :| Covers(m, relative) && !Shareable(table(m, relative), m.base + relative);
      UnshareableIsNotTransparent(table, m, relative);
    }
  }

  /** A null opcode in compact unwind info: a leaf function in the first frame, an error in any other. */
  function NullOpcodes(): InfoSource<()> {
    (m, address: FrameAddress, relative, regs, stack) =>
      if address.IsReturnAddress() then HasNothing else HasRule(Aarch64Rule.NoOp)
  }

  const LEAF_MODULE: Module<()> := Module(0x1000, 0x2000, 0x1000, ())

  const LEAF_REGS := Aarch64Rule.Regs(0xffff_ffff_ffff_ffff, 1, 0x8000, 0x9000)

  const LEAF_STACK: Stack := map[0x9000 := 0xa000, 0x9008 := 0x1234]

  lemma NullOpcodeIsResolved(a: FrameAddress)
    requires a.Valid() && a.AddressForLookup() == 0x1080
    ensures Resolve(ArchAarch64(NullOpcodes()), [LEAF_MODULE], a, LEAF_REGS, LEAF_STACK)
         == ByRule(if a.IsReturnAddress() then Aarch64Rule.FALLBACK_RULE else Aarch64Rule.NoOp, LEAF_REGS)
  {
    CoveredIsFound(LEAF_MODULE, 0x80);
    hide FindModule;
    assert NullOpcodes()(LEAF_MODULE, a, 0x80, LEAF_REGS, LEAF_STACK)
        == if a.IsReturnAddress() then HasNothing else HasRule(Aarch64Rule.NoOp);
  }

  /** Data that looks at the kind of frame, as the source does for null opcodes, is not transparent: the rule of
      the first frame is executed for return addresses, too. */
  lemma FirstFrameMatters()
    ensures !CacheAgreement.Transparent(ArchAarch64(NullOpcodes()))
  {
    var arch := ArchAarch64(NullOpcodes());
    var a, a' := InstructionPointer(0x1080), ReturnAddress(0x1081);
    CoveredIsFound(LEAF_MODULE, 0x80);
    NullOpcodeIsResolved(a);
    NullOpcodeIsResolved(a');
    assert ExecRule(Aarch64Rule.FALLBACK_RULE, false, LEAF_REGS, LEAF_STACK).result.Ok?;
    assert ExecRule(Aarch64Rule.NoOp, false, LEAF_REGS, LEAF_STACK).result.Err?;
    hide CacheAgreement.Transparent, Resolve, SortedModules, ExecRule, NullOpcodes;
    CacheAgreement.NotTransparent(arch, [LEAF_MODULE], a, LEAF_REGS, LEAF_STACK, a', LEAF_REGS, LEAF_STACK);
  }

  // ----- progress -----

  /** Unwinding a return address, through the rule path or through the generic path, strictly raises sp
      whenever it yields a caller. */
  ghost predicate Raises(before: Regs, e: Executed<Regs>) {
    e.result.Ok? && e.result.value.Some? ==> e.regs.sp > before.sp
  }

  lemma RuleRaises(rule: Rule, regs: Regs, stack: Stack)
    ensures Raises(regs, ExecRule(rule, false, regs, stack))
  {
    hide Aarch64Rule.Exec;
    if Aarch64Rule.Exec(rule, false, regs, stack).FoundCaller() {
      Aarch64Rule.ExecMakesProgress(rule, false, regs, stack);
    }
  }

  lemma GenericPathRaises(row: Aarch64Dwarf.Row, regs: Regs, stack: Stack)
    requires Aarch64Dwarf.EvalRow(row, false, regs, stack).Ok?
    ensures Aarch64Dwarf.EvalRow(row, false, regs, stack).value.regs.sp > regs.sp
  {
    hide PtrAuth.BitAnd;
  }

  /** The callback leaves the registers alone, or raises sp. */
  lemma CallRaises(info: Info, regs: Regs, stack: Stack)
    ensures var c := Call(info, false, regs, stack);
      if c.Uncacheable? then c.regs.sp > regs.sp else c.regs == regs
  {
    hide Aarch64Dwarf.EvalRow, Aarch64Dwarf.Translate;
    if info.HasRow? && Aarch64Dwarf.EvalRow(info.row, false, regs, stack).Ok? {
      GenericPathRaises(info.row, regs, stack);
    }
  }

  lemma UnwindRaises<D>(info: InfoSource<D>, ms: seq<Module<D>>, generation: U16, cache: State<Rule>,
                        address: FrameAddress, regs: Regs, stack: Stack)
    requires address.Valid() && address.IsReturnAddress() && |cache.entries| == CACHE_ENTRY_COUNT
    ensures Raises(regs, WithCache(ArchAarch64(info), ms, generation, cache, address, regs, stack).executed)
  {
    hide Call, ExecRule, FindModule;
    var lookup := address.AddressForLookup();
    match Lookup(cache, lookup, generation)
    case Hit(rule) => RuleRaises(rule, regs, stack);
    case Miss(_) =>
      match FindModule(ms, lookup)
      case None => RuleRaises(Aarch64Rule.FALLBACK_RULE, regs, stack);
      case Some(f) =>
        var i := info(ms[f.0], address, f.1, regs, stack);
        CallRaises(i, regs, stack);
        match Call(i, false, regs, stack)
        case UseRule(rule, _) => RuleRaises(rule, regs, stack);
        case CallFailed(_) => RuleRaises(Aarch64Rule.FALLBACK_RULE, regs, stack);
        case Uncacheable(_, _) =>
  }

  /** Whatever the modules, the stack and the contents of the cache: once the frame is a return address,
      every further one comes with a higher sp. */
  lemma NextMakesProgress<D>(info: InfoSource<D>, ms: seq<Module<D>>, generation: U16,
                             it: Iteration<Rule, Regs>, stack: Stack)
    requires it.Valid() && it.state.At? && it.state.address.IsReturnAddress()
    ensures var y := NextFrame(ArchAarch64(info), ms, generation, it, stack);
      y.result.Ok? && y.result.value.Some? ==> y.it.regs.sp > it.regs.sp
  {
    hide WithCache;
    UnwindRaises(info, ms, generation, it.cache, it.state.address, it.regs, stack);
  }

  /** From a return address on, there are no more frames than there is room above sp. */
  lemma {:induction false} FramesAreBounded<D>(info: InfoSource<D>, ms: seq<Module<D>>, generation: U16,
                                               it: Iteration<Rule, Regs>, stack: Stack, n: nat)
    requires it.Valid() && it.state.At? && it.state.address.IsReturnAddress()
    requires YieldsFrames(ArchAarch64(info), ms, generation, it, stack, n)
    ensures n < TWO64 - it.regs.sp
    decreases n
  {
    hide NextFrame;
    if n != 0 {
      NextMakesProgress(info, ms, generation, it, stack);
      NextYields(ArchAarch64(info), ms, generation, it, stack);
      FramesAreBounded(info, ms, generation, NextFrame(ArchAarch64(info), ms, generation, it, stack).it, stack, n - 1);
    }
  }

  /** Every walk ends: no walk yields more than 2^64 + 1 frames. */
  lemma WalksTerminate<D>(info: InfoSource<D>, ms: seq<Module<D>>, generation: U16,
                          it: Iteration<Rule, Regs>, stack: Stack, n: nat)
    requires it.Valid() && YieldsFrames(ArchAarch64(info), ms, generation, it, stack, n)
    ensures n <= TWO64 + 1
  {
    hide NextFrame;
    if n >= 2 {
      NextYields(ArchAarch64(info), ms, generation, it, stack);
      var it1 := NextFrame(ArchAarch64(info), ms, generation, it, stack).it;
      NextYields(ArchAarch64(info), ms, generation, it1, stack);
      var it2 := NextFrame(ArchAarch64(info), ms, generation, it1, stack).it;
      FramesAreBounded(info, ms, generation, it2, stack, n - 2);
    }
  }

  /** How many kinds of steps may still come: from the start, from the instruction pointer, or from a
      return address. */
  ghost function Stage(state: IterState): nat {
    match state
    case Start(_) => 2
    case At(InstructionPointer(_)) => 1
    case _ => 0
  }

  /** Iterating until an error or the end terminates, and collects the instruction pointer followed by
      non-null return addresses. */
  method CollectFrames<D>(it: UnwindIterator<Rule, Regs, D>, info: InfoSource<D>, stack: Stack)
    returns (frames: seq<FrameAddress>, error: Option<Error>)
    requires it.Valid() && it.state.Start?
    modifies it, it.cache, it.cache.entries
    ensures it.Valid()
    ensures |frames| > 0 && frames[0] == InstructionPointer(old(it.state.pc))
    ensures forall i :: 0 < i < |frames| ==> frames[i].IsReturnAddress() && frames[i].ra != 0
    ensures error.None? ==> it.state.Done?
  {
    hide NextFrame;
    frames, error := [], None;
    ghost var pc := it.state.pc;
    while true
      invariant it.Valid() && !it.state.Done?
      invariant if frames == [] then it.state == Start(pc) else frames[0] == InstructionPointer(pc) && it.state.At?
      invariant forall i :: 0 < i < |frames| ==> frames[i].IsReturnAddress() && frames[i].ra != 0
      decreases Stage(it.state), TWO64 - it.regs.sp
    {
      ghost var before := it.Value();
      if before.state.At? && before.state.address.IsReturnAddress() {
        NextMakesProgress(info, it.unwinder.modules, it.unwinder.generation, before, stack);
      }
      NextYields(ArchAarch64(info), it.unwinder.modules, it.unwinder.generation, before, stack);
      var r := it.Next(ArchAarch64(info), stack);
      match r {
        case Err(e) => return frames, Some(e);
        case Ok(None) => return frames, None;
        case Ok(Some(frame)) => frames := frames + [frame];
      }
    }
  }
}
