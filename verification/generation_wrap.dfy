/** What the bound on generations is for: the 65537th generation is the first one again, and a cache entry from
    before the wrap-around answers for modules it knows nothing of. */
module GenerationWrap {
  import opened Words
  import opened Frames
  import opened Modules
  import opened RuleCacheModel
  import opened Unwinding
  import opened CacheAgreement

  /** The cache makes no difference to any run, however many generations it issues. */
  ghost predicate AlwaysTransparent<R(!new), G(!new), D(!new)>(arch: Arch<R, G, D>) {
    forall events: seq<Event<G, D>> :: Answers(arch, Initial(), events) == UncachedAnswers(arch, map[], events)
  }

  /** Executing the rule gives what unwinding gives, for every frame of that lookup address and over all modules. */
  ghost predicate StandsInAlways<R, G(!new), D(!new)>(arch: Arch<R, G, D>, lookup: U64, rule: R) {
    forall ms: seq<Module<D>> :: SortedModules(ms) ==> StandsIn(arch, ms, lookup, rule)
  }

  /** The rule that one frame resolves to does not depend on the modules, either. */
  ghost predicate IndependentOfModules<R(!new), G(!new), D(!new)>(arch: Arch<R, G, D>) {
    forall ms, a: FrameAddress, g, s :: SortedModules(ms) && a.Valid() && Resolve(arch, ms, a, g, s).ByRule? ==>
      StandsInAlways(arch, a.AddressForLookup(), Resolve(arch, ms, a, g, s).rule)
  }

  // ----- independence is enough -----

  ghost predicate EntryAlwaysAgrees<R, G(!new), D(!new)>(arch: Arch<R, G, D>, e: Option<Entry<R>>) {
    e.Some? ==> StandsInAlways(arch, e.value.address, e.value.rule)
  }

  /** The lists are sorted, and the rules in the cache stand in for their frames over all lists. */
  ghost predicate AlwaysAgrees<R, G(!new), D(!new)>(arch: Arch<R, G, D>, sys: System<R, D>) {
    && (forall id :: id in sys.unwinders ==> SortedModules(sys.unwinders[id].modules))
    && |sys.cache.entries| == CACHE_ENTRY_COUNT
    && forall i :: 0 <= i < |sys.cache.entries| ==> EntryAlwaysAgrees(arch, sys.cache.entries[i])
  }

  lemma UnwindAlwaysAgrees<R(!new), G(!new), D(!new)>(arch: Arch<R, G, D>, sys: System<R, D>, e: Event<G, D>)
    requires IndependentOfModules(arch) && AlwaysAgrees(arch, sys) && Unwinds(sys, e)
    ensures CachedUnwind(arch, sys, e).executed
         == UnwindUncached(arch, sys.unwinders[e.id].modules, e.address, e.regs, e.stack)
    ensures AlwaysAgrees(arch, sys.(cache := CachedUnwind(arch, sys, e).cache))
  {
    var ms, a := sys.unwinders[e.id].modules, e.address;
    var slot, after := SlotOf(a.AddressForLookup()), CachedUnwind(arch, sys, e).cache;
    assert EntryAlwaysAgrees(arch, sys.cache.entries[slot]);
    if Resolve(arch, ms, a, e.regs, e.stack).ByRule? {
      assert StandsInAlways(arch, a.AddressForLookup(), Resolve(arch, ms, a, e.regs, e.stack).rule);
    }
    hide IndependentOfModules, Resolve, SortedModules;
    assert EntryAlwaysAgrees(arch, after.entries[slot]);
    forall i | 0 <= i < |after.entries| ensures EntryAlwaysAgrees(arch, after.entries[i]) {
      assert EntryAlwaysAgrees(arch, sys.cache.entries[i]);
    }
  }

  lemma NextAlwaysAgrees<R(!new), G(!new), D(!new)>(arch: Arch<R, G, D>, sys: System<R, D>, e: Event<G, D>)
    requires IndependentOfModules(arch) && AlwaysAgrees(arch, sys)
    ensures AlwaysAgrees(arch, Next(arch, sys, e))
  {
    hide AddModule, RemoveModule, WithCache, IndependentOfModules, EntryAlwaysAgrees, SortedModules;
    match e
    case New(_) => EmptyIsSorted<D>();
    case Clone(_, _) =>
    case AddTo(id, m) =>
      if Issues(sys, e) {
        AddKeepsSorted(sys.unwinders[id].modules, m);
      }
    case RemoveFrom(id, start) =>
      if Issues(sys, e) {
        RemoveKeepsSorted(sys.unwinders[id].modules, start);
      }
    case Unwind(_, _, _, _) =>
      if Unwinds(sys, e) {
        UnwindAlwaysAgrees(arch, sys, e);
      }
  }

  lemma {:induction false} RunAlwaysAgrees<R(!new), G(!new), D(!new)>(arch: Arch<R, G, D>, sys: System<R, D>,
                                                                     events: seq<Event<G, D>>)
    requires IndependentOfModules(arch) && AlwaysAgrees(arch, sys)
    ensures |sys.cache.entries| == CACHE_ENTRY_COUNT
    ensures Answers(arch, sys, events) == UncachedAnswers(arch, ListsOf(sys), events)
    decreases |events|
  {
    assert |sys.cache.entries| == CACHE_ENTRY_COUNT;
    hide IndependentOfModules, AlwaysAgrees, WithCache, UnwindUncached, NextLists;
    if events != [] {
      var e := events[0];
      NextAlwaysAgrees(arch, sys, e);
      ListsEvolveAlike(arch, sys, e);
      if Unwinds(sys, e) {
        UnwindAlwaysAgrees(arch, sys, e);
      }
      RunAlwaysAgrees(arch, Next(arch, sys, e), events[1..]);
    }
  }

  // ----- nothing less will do -----

  /** Unwinders that come and go. */
  function Renewals<G, D>(k: nat): seq<Event<G, D>> {
    if k == 0 then [] else [New(0)] + Renewals(k - 1)
  }

  lemma RenewOne<R, G, D>(arch: Arch<R, G, D>, issued: nat, ms: seq<Module<D>>, cache: State<R>, rest: seq<Event<G, D>>)
    requires 0 < issued && |cache.entries| == CACHE_ENTRY_COUNT
    ensures LeadsTo(arch, Solo(issued, ms, cache), map[0 := ms], [New(0)], 1,
                    Solo(issued + 1, [], cache), map[0 := []], rest)
  {
    var events: seq<Event<G, D>>, sys := [New(0)] + rest, Solo(issued, ms, cache);
    assert events[1..] == rest;
    assert Next(arch, sys, events[0]) == Solo(issued + 1, [], cache);
    assert NextLists(map[0 := ms], events[0]) == map[0 := []];
  }

  lemma {:induction false} RenewMany<R, G, D>(arch: Arch<R, G, D>, issued: nat, ms: seq<Module<D>>, cache: State<R>,
                                             k: nat, rest: seq<Event<G, D>>)
    requires 0 < issued && 0 < k && |cache.entries| == CACHE_ENTRY_COUNT
    ensures LeadsTo(arch, Solo(issued, ms, cache), map[0 := ms], Renewals(k), k,
                    Solo(issued + k, [], cache), map[0 := []], rest)
    decreases k
  {
    hide Answers, IssuedBy, UncachedAnswers, Solo;
    SoloCache(issued, ms, cache);
    SoloCache<R, D>(issued + 1, [], cache);
    SoloCache<R, D>(issued + k, [], cache);
    assert Renewals(k) + rest == [New(0)] + (Renewals(k - 1) + rest);
    RenewOne(arch, issued, ms, cache, Renewals(k - 1) + rest);
    if k == 1 {
      assert Renewals<G, D>(0) + rest == rest;
    } else {
      RenewMany(arch, issued + 1, [], cache, k - 1, rest);
    }
  }

  /** Once the counter has come round, with other modules. */
  function ComeRound<G, D>(renewals: nat, added: seq<Module<D>>, a: FrameAddress, g: G, s: Stack): seq<Event<G, D>> {
    Renewals(renewals) + Adds(added) + [Unwind(0, a, g, s)]
  }

  /** The counter is where it was. */
  predicate ComesRound(n: nat) { n % MANY == 0 }

  lemma SameGeneration(x: nat, n: nat)
    requires ComesRound(n)
    ensures WrapU16(x + n) == WrapU16(x)
  {
  }

  /** Renewals and additions in a row. */
  lemma RenewAndAdd<R, G, D>(arch: Arch<R, G, D>, issued: nat, ms: seq<Module<D>>, cache: State<R>,
                             k: nat, added: seq<Module<D>>, last: seq<Event<G, D>>)
    requires 0 < issued && 0 < k && |cache.entries| == CACHE_ENTRY_COUNT
    ensures LeadsTo(arch, Solo(issued, ms, cache), map[0 := ms], Renewals(k) + Adds(added), k + |added|,
                    Solo(issued + k + |added|, AddAll([], added), cache), map[0 := AddAll([], added)], last)
  {
    hide *;
    SoloCache(issued, ms, cache);
    SoloCache<R, D>(issued + k, [], cache);
    SoloCache(issued + k + |added|, AddAll([], added), cache);
    RenewMany(arch, issued, ms, cache, k, Adds(added) + last);
    AddMany(arch, issued + k, [], cache, added, last);
    LeadsOn(arch, Solo(issued, ms, cache), map[0 := ms], Renewals(k), k,
            Solo(issued + k, [], cache), map[0 := []], Adds(added), |added|,
            Solo(issued + k + |added|, AddAll([], added), cache), map[0 := AddAll([], added)], last);
  }

  lemma AnswerAfterComingRound<R, G, D>(arch: Arch<R, G, D>, issued: nat, ms: seq<Module<D>>, cache: State<R>,
                                        k: nat, added: seq<Module<D>>, a: FrameAddress, g: G, s: Stack)
    requires 0 < issued && 0 < k && |cache.entries| == CACHE_ENTRY_COUNT
    requires ComesRound(k + |added|) && a.Valid()
    ensures var events, sys, ms' := ComeRound(k, added, a, g, s), Solo(issued, ms, cache), AddAll([], added);
      && Answers(arch, sys, events) == [WithCache(arch, ms', WrapU16(issued - 1), cache, a, g, s).executed]
      && IssuedBy(arch, sys, events) == k + |added|
      && UncachedAnswers(arch, map[0 := ms], events) == [UnwindUncached(arch, ms', a, g, s)]
  {
    hide Answers, IssuedBy, UncachedAnswers, Solo, WithCache, UnwindUncached;
    hide ComesRound, AddAll, Adds, Renewals, WrapU16;
    var last: seq<Event<G, D>>, later, ms' := [Unwind(0, a, g, s)], issued + k + |added|, AddAll([], added);
    SoloCache(issued, ms, cache);
    SoloCache(later, ms', cache);
    SameGeneration(issued - 1, k + |added|);
    assert later - 1 == issued - 1 + (k + |added|);
    RenewAndAdd(arch, issued, ms, cache, k, added, last);
    UnwindLast(arch, later, ms', cache, a, g, s);
  }

  /** How many renewals bring the counter round. */
  function RenewalsFor(n: nat): (k: nat)
    ensures 0 < k && ComesRound(k + n)
    ensures n < MANY ==> k + n == MANY
  {
    MANY - n % MANY
  }

  /** One frame over one list, and another frame over another list once the counter has come round. */
  function StaleFrames<G, D>(a: FrameAddress, g: G, s: Stack, added: seq<Module<D>>,
                             a': FrameAddress, g': G, s': Stack): seq<Event<G, D>> {
    [Unwind(0, a, g, s)] + ComeRound(RenewalsFor(|added|), added, a', g', s')
  }

  /** The rule of the first frame is executed for the second. */
  lemma StaleFramesAnswer<R, G, D>(arch: Arch<R, G, D>, issued: nat, ms: seq<Module<D>>,
                                   a: FrameAddress, g: G, s: Stack, added: seq<Module<D>>,
                                   a': FrameAddress, g': G, s': Stack)
    requires 0 < issued && a.Valid() && a'.Valid() && a.AddressForLookup() == a'.AddressForLookup()
    requires Resolve(arch, ms, a, g, s).ByRule?
    ensures var events, sys := StaleFrames(a, g, s, added, a', g', s'), Solo(issued, ms, Empty());
      && IssuedBy(arch, sys, events) == RenewalsFor(|added|) + |added|
      && Answers(arch, sys, events) ==
           [UnwindUncached(arch, ms, a, g, s),
            arch.exec(Resolve(arch, ms, a, g, s).rule, !a'.IsReturnAddress(), g', s')]
      && UncachedAnswers(arch, map[0 := ms], events) ==
           [UnwindUncached(arch, ms, a, g, s), UnwindUncached(arch, AddAll([], added), a', g', s')]
  {
    hide Resolve, UnwindUncached, Solo, AddAll, Answers, UncachedAnswers, IssuedBy;
    hide ComeRound, WithCache, RenewalsFor, WrapU16, ComesRound;
    var generation, tail := WrapU16(issued - 1), ComeRound(RenewalsFor(|added|), added, a', g', s');
    SoloCache<R, D>(issued, ms, Empty());
    NothingCached<R>(a.AddressForLookup(), generation);
    UnwindOne(arch, issued, ms, Empty(), a, g, s, tail);
    var cache := WithCache(arch, ms, generation, Empty(), a, g, s).cache;
    AnswerAfterComingRound(arch, issued, ms, cache, RenewalsFor(|added|), added, a', g', s');
    SecondFrameHits(arch, ms, AddAll([], added), generation, Empty(), a, g, s, a', g', s');
  }

  /** A run that comes to this. */
  lemma StaleRuleTells<R, G, D>(arch: Arch<R, G, D>, ms: seq<Module<D>>, a: FrameAddress, g: G, s: Stack,
                                ms': seq<Module<D>>, a': FrameAddress, g': G, s': Stack)
    returns (events: seq<Event<G, D>>)
    requires SortedModules(ms) && SortedModules(ms')
    requires a.Valid() && a'.Valid() && a.AddressForLookup() == a'.AddressForLookup()
    requires Resolve(arch, ms, a, g, s).ByRule?
    ensures IssuedBy(arch, Initial(), events) == 1 + |ms| + RenewalsFor(|ms'|) + |ms'|
    ensures Answers(arch, Initial(), events) ==
      [UnwindUncached(arch, ms, a, g, s), arch.exec(Resolve(arch, ms, a, g, s).rule, !a'.IsReturnAddress(), g', s')]
    ensures UncachedAnswers(arch, map[], events) ==
      [UnwindUncached(arch, ms, a, g, s), UnwindUncached(arch, ms', a', g', s')]
  {
    hide Resolve, UnwindUncached, Solo, AddAll, Adds, SortedModules, Answers, UncachedAnswers, IssuedBy;
    hide StaleFrames, RenewalsFor;
    SoloCache<R, D>(1, [], Empty());
    SoloCache<R, D>(1 + |ms|, ms, Empty());
    var added := SortedIsBuilt(ms);
    var added' := SortedIsBuilt(ms');
    var rest: seq<Event<G, D>> := StaleFrames(a, g, s, added', a', g', s');
    events := [New(0)] + (Adds(added) + rest);
    CreateOne(arch, Adds(added) + rest);
    AddMany(arch, 1, [], Empty(), added, rest);
    StaleFramesAnswer(arch, 1 + |ms|, ms, a, g, s, added', a', g', s');
  }

  /** Without a bound on the generations, the cache is transparent if and only if rules do not depend on the
      modules, either. */
  lemma AlwaysTransparentExactly<R(!new), G(!new), D(!new)>(arch: Arch<R, G, D>)
    ensures AlwaysTransparent(arch) <==> IndependentOfModules(arch)
  {
    hide Answers, UncachedAnswers, IssuedBy, Resolve, UnwindUncached, SortedModules;
    if IndependentOfModules(arch) {
      forall events: seq<Event<G, D>> ensures Answers(arch, Initial(), events) == UncachedAnswers(arch, map[], events) {
        var sys: System<R, D> := Initial();
        assert ListsOf(sys) == map[];
        RunAlwaysAgrees(arch, sys, events);
      }
    }
    if AlwaysTransparent(arch) {
      forall ms, a: FrameAddress, g, s, ms', a': FrameAddress, g', s' |
        && SortedModules(ms) && a.Valid() && Resolve(arch, ms, a, g, s).ByRule?
        && SortedModules(ms') && a'.Valid() && a'.AddressForLookup() == a.AddressForLookup()
        ensures arch.exec(Resolve(arch, ms, a, g, s).rule, !a'.IsReturnAddress(), g', s')
             == UnwindUncached(arch, ms', a', g', s')
      {
        var events := StaleRuleTells(arch, ms, a, g, s, ms', a', g', s');
        var answers := Answers(arch, Initial(), events);
        assert answers == UncachedAnswers(arch, map[], events);
        assert answers[1] == UnwindUncached(arch, ms', a', g', s');
      }
    }
  }

  /** The bound is tight for every architecture: one generation more, and the fallback rule of a frame outside of
      all modules is executed for a frame inside one, unless it does the same. */
  lemma OneGenerationTooMany<R, G, D>(arch: Arch<R, G, D>, ms: seq<Module<D>>, a: FrameAddress, g: G, s: Stack)
    returns (events: seq<Event<G, D>>)
    requires Possible(ms) && a.Valid()
    requires arch.exec(arch.fallback, !a.IsReturnAddress(), g, s) != UnwindUncached(arch, ms, a, g, s)
    ensures IssuedBy(arch, Initial(), events) == MANY + 1
    ensures Answers(arch, Initial(), events) != UncachedAnswers(arch, map[], events)
  {
    EmptyIsSorted<D>();
    assert FindModule<D>([], a.AddressForLookup()) == None by {
      assert Starts<D>([]) == [];
    }
    assert Resolve(arch, [], a, g, s) == ByRule(arch.fallback, g);
    hide Answers, UncachedAnswers, IssuedBy, Resolve, UnwindUncached, SortedModules;
    events := StaleRuleTells(arch, [], a, g, s, ms, a, g, s);
    var answers, others := Answers(arch, Initial(), events), UncachedAnswers(arch, map[], events);
    assert answers[1] != others[1];
  }
}

/** The same on aarch64. */
module StaleRules {
  import opened Words
  import opened Frames
  import opened Modules
  import opened Unwinding
  import CacheAgreement
  import GenerationWrap
  import Aarch64Rule
  import opened Aarch64Walk

  /** Leaf functions everywhere. */
  function Leaves(): (Module<()>, U32) -> Info {
    (m, relative) => HasRule(Aarch64Rule.NoOp)
  }

  const LEAF_FRAME := InstructionPointer(0x1080)

  lemma LeafIsResolved()
    ensures CacheAgreement.Possible([LEAF_MODULE])
    ensures UnwindUncached(ArchAarch64(FromTable(Leaves())), [LEAF_MODULE], LEAF_FRAME, LEAF_REGS, map[]).result.Ok?
  {
    CoveredIsFound(LEAF_MODULE, 0x80);
    hide FindModule, SortedModules;
    assert FromTable(Leaves())(LEAF_MODULE, LEAF_FRAME, 0x80, LEAF_REGS, map[]) == HasRule(Aarch64Rule.NoOp);
    assert Resolve(ArchAarch64(FromTable(Leaves())), [LEAF_MODULE], LEAF_FRAME, LEAF_REGS, map[])
        == ByRule(Aarch64Rule.NoOp, LEAF_REGS);
  }

  /** With unwind data as simple as can be, runs of up to 65536 generations are not affected, and some run of one
      more is. */
  lemma LeavesGoStale() returns (events: seq<CacheAgreement.Event<Regs, ()>>)
    ensures CacheAgreement.Transparent(ArchAarch64(FromTable(Leaves())))
    ensures CacheAgreement.IssuedBy(ArchAarch64(FromTable(Leaves())), CacheAgreement.Initial(), events) == 0x1_0001
    ensures CacheAgreement.Answers(ArchAarch64(FromTable(Leaves())), CacheAgreement.Initial(), events)
         != CacheAgreement.UncachedAnswers(ArchAarch64(FromTable(Leaves())), map[], events)
  {
    var arch := ArchAarch64(FromTable(Leaves()));
    assert AllShareable(Leaves());
    TableIsTransparentExactly(Leaves());
    LeafIsResolved();
    assert ExecRule(Aarch64Rule.FALLBACK_RULE, true, LEAF_REGS, map[]).result.Err?;
    hide CacheAgreement.Transparent, UnwindUncached, ExecRule, AllShareable, CacheAgreement.Possible;
    events := GenerationWrap.OneGenerationTooMany(arch, [LEAF_MODULE], LEAF_FRAME, LEAF_REGS, map[]);
  }
}
