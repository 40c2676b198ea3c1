/** Unwinders with their module lists, the global generation counter, and the shared rule cache. The
    architecture is a parameter. */
module Unwinding {
  import opened Words
  import opened Frames
  import opened Modules
  import opened RuleCacheModel

  /** A step's result and the registers after it. */
  datatype Executed<G> = Executed(result: StepResult, regs: G)

  /** What a module's unwind data says about a frame, and the registers it leaves. */
  datatype Called<R, G> =
    | UseRule(rule: R, regs: G)
    | Uncacheable(ra: U64, regs: G)
    | CallFailed(regs: G)

  datatype Arch<!R, !G, !D> = Arch(
    exec: (R, bool, G, Stack) -> Executed<G>,
    fallback: R,
    callback: (Module<D>, FrameAddress, U32, G, Stack) -> Called<R, G>)

  datatype Resolved<R, G> = ByRule(rule: R, regs: G) | Direct(ra: U64, regs: G)

  /** The rule for a frame: the module's, or the fallback if there is no module or it has none. */
  function Resolve<R, G, D>(arch: Arch<R, G, D>, ms: seq<Module<D>>, address: FrameAddress, regs: G, stack: Stack)
    : Resolved<R, G>
    requires address.Valid()
  {
    match FindModule(ms, address.AddressForLookup())
    case None => ByRule(arch.fallback, regs)
    case Some(found) =>
      match arch.callback(ms[found.0], address, found.1, regs, stack)
      case UseRule(rule, after) => ByRule(rule, after)
      case Uncacheable(ra, after) => Direct(ra, after)
      case CallFailed(after) => ByRule(arch.fallback, after)
  }

  function Finish<R, G, D>(arch: Arch<R, G, D>, resolved: Resolved<R, G>, address: FrameAddress, stack: Stack)
    : Executed<G>
  {
    match resolved
    case ByRule(rule, regs) => arch.exec(rule, !address.IsReturnAddress(), regs, stack)
    case Direct(ra, regs) => Executed(Ok(Some(ra)), regs)
  }

  /** Unwinding one frame without any cache. */
  function UnwindUncached<R, G, D>(arch: Arch<R, G, D>, ms: seq<Module<D>>, address: FrameAddress,
                                   regs: G, stack: Stack): Executed<G>
    requires address.Valid()
  {
    Finish(arch, Resolve(arch, ms, address, regs, stack), address, stack)
  }

  datatype Cached<R, G> = Cached(executed: Executed<G>, cache: State<R>)

  /** `with_cache`: a hit is executed right away; on a miss the rule found is inserted and executed. */
  function WithCache<R, G, D>(arch: Arch<R, G, D>, ms: seq<Module<D>>, generation: U16, cache: State<R>,
                              address: FrameAddress, regs: G, stack: Stack): Cached<R, G>
    requires address.Valid() && |cache.entries| == CACHE_ENTRY_COUNT
  {
    var lookup := address.AddressForLookup();
    var counted := AfterLookup(cache, lookup, generation);
    match Lookup(cache, lookup, generation)
    case Hit(rule) => Cached(arch.exec(rule, !address.IsReturnAddress(), regs, stack), counted)
    case Miss(handle) =>
      var resolved := Resolve(arch, ms, address, regs, stack);
      Cached(Finish(arch, resolved, address, stack),
             if resolved.ByRule? then AfterInsert(counted, handle, resolved.rule) else counted)
  }

  // ----- in place -----

  /** The global generation counter: an atomic u16 that wraps around. */
  class Generations {
    var next: U16

    constructor ()
      ensures next == 0
    {
      next := 0;
    }

    method Issue() returns (g: U16)
      modifies this
      ensures g == old(next) && next == WrapU16(old(next) + 1)
    {
      g := next;
      next := WrapU16(next + 1);
    }
  }

  class UnwinderInternal<D> {
    var modules: seq<Module<D>>
    var generation: U16

    constructor (generations: Generations)
      modifies generations
      ensures modules == [] && generation == old(generations.next)
      ensures generations.next == WrapU16(old(generations.next) + 1)
    {
      var g := generations.Issue();
      modules := [];
      generation := g;
    }

    constructor Clone(other: UnwinderInternal<D>)
      ensures modules == other.modules && generation == other.generation
    {
      modules := other.modules;
      generation := other.generation;
    }

    method Add(m: Module<D>, generations: Generations)
      requires SortedModules(modules)
      modifies this, generations
      ensures modules == AddModule(old(modules), m) && SortedModules(modules)
      ensures generation == old(generations.next) && generations.next == WrapU16(old(generations.next) + 1)
    {
      AddKeepsSorted(modules, m);
      var i := InsertionIndex(modules, m.start);
      modules := modules[..i] + [m] + modules[i..];
      generation := generations.Issue();
    }

    /** A removal which finds nothing issues no generation. */
    method Remove(start: U64, generations: Generations)
      requires SortedModules(modules)
      modifies this, generations
      ensures modules == RemoveModule(old(modules), start) && SortedModules(modules)
      ensures if Removes(old(modules), start)
        then generation == old(generations.next) && generations.next == WrapU16(old(generations.next) + 1)
        else generation == old(generation) && generations.next == old(generations.next)
    {
      RemoveKeepsSorted(modules, start);
      if Removes(modules, start) {
        modules := RemoveModule(modules, start);
        generation := generations.Issue();
      }
    }

    method UnwindFrame<R, G>(arch: Arch<R, G, D>, address: FrameAddress, regs: G, cache: RuleCache<R>, stack: Stack)
      returns (e: Executed<G>)
      requires address.Valid() && cache.Valid()
      modifies cache, cache.entries
      ensures cache.Valid()
      ensures Cached(e, cache.Value()) == WithCache(arch, modules, generation, old(cache.Value()), address, regs, stack)
    {
      var lookup, isFirstFrame := address.AddressForLookup(), !address.IsReturnAddress();
      var found := cache.LookUp(lookup, generation);
      if found.Hit? {
        return arch.exec(found.rule, isFirstFrame, regs, stack);
      }
      var rule, after := arch.fallback, regs;
      match FindModule(modules, lookup) {
        case None =>
        case Some(f) =>
          match arch.callback(modules[f.0], address, f.1, regs, stack) {
            case UseRule(r, g) => rule, after := r, g;
            case Uncacheable(ra, g) => return Executed(Ok(Some(ra)), g);
            case CallFailed(g) => after := g;
          }
      }
      cache.Insert(found.handle, rule);
      return arch.exec(rule, isFirstFrame, after, stack);
    }
  }

  /** Is there a module to remove? */
  predicate Removes<D>(ms: seq<Module<D>>, start: U64) {
    Search.BinarySearch(Starts(ms), start).Found?
  }

  /** There is something to remove exactly if some module has that start, and then the list gets shorter. */
  lemma RemovesExactly<D>(ms: seq<Module<D>>, start: U64)
    requires SortedModules(ms)
    ensures Removes(ms, start) <==> exists i :: 0 <= i < |ms| && ms[i].start == start
    ensures |RemoveModule(ms, start)| == |ms| - if Removes(ms, start) then 1 else 0
    ensures !Removes(ms, start) ==> RemoveModule(ms, start) == ms
  {
    var keys := Starts(ms);
    Search.BinarySearchIsCorrect(keys, start);
    hide Search.BinarySearch, Search.Sorted;
    assert forall i :: 0 <= i < |ms| ==> keys[i] == ms[i].start;
    if i :| 0 <= i < |ms| && ms[i].start == start {
      assert keys[i] == start;
    }
  }

  /** A return address is looked up inside the call: even where the call is the last instruction of its module, and
      the return address already belongs to the next one. */
  lemma CallIsInItsModule<D>(ms: seq<Module<D>>, i: nat, ra: U64)
    requires NonEmptyRanges(ms) && NonOverlapping(ms) && i < |ms|
    requires ms[i].start < ra <= ms[i].end
    ensures ReturnAddress(ra).Valid()
    ensures FindModule(ms, ReturnAddress(ra).AddressForLookup()) ==
      if ms[i].base < ra <= ms[i].base + 0x1_0000_0000 then Some((i, ra - 1 - ms[i].base)) else None
  {
    var lookup := ra - 1;
    FindModuleIsLinearScan(ms, lookup);
    hide FindModule, LinearScan;
    forall j | 0 <= j < i ensures !(ms[j].start <= lookup < ms[j].end) {
      assert ms[j].end <= ms[i].start;
    }
    LinearScanFinds(ms, lookup, 0, i);
  }
}
