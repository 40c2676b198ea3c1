/** Several unwinders sharing one rule cache give the results that they would give without it. */
module CacheAgreement {
  import opened Words
  import opened Frames
  import opened Modules
  import opened RuleCacheModel
  import opened Unwinding

  // ----- the system and its events -----

  datatype Unwinder<D> = Unwinder(modules: seq<Module<D>>, generation: U16)

  /** All unwinders, the global generation counter, and the cache they share. */
  datatype System<R, D> = System(counter: U16, unwinders: map<nat, Unwinder<D>>, cache: State<R>)

  /** What may happen, in any order. An event for an unwinder that does not exist does nothing. */
  datatype Event<G, D> =
    | New(id: nat)
    | Clone(id: nat, source: nat)
    | AddTo(id: nat, m: Module<D>)
    | RemoveFrom(id: nat, start: U64)
    | Unwind(id: nat, address: FrameAddress, regs: G, stack: Stack)

  function Initial<R, D>(): System<R, D> { System(0, map[], Empty()) }

  /** A changed module list comes with the next generation. */
  function Publish<R, D>(sys: System<R, D>, id: nat, ms: seq<Module<D>>): System<R, D> {
    sys.(counter := WrapU16(sys.counter + 1), unwinders := sys.unwinders[id := Unwinder(ms, sys.counter)])
  }

  /** Does the event give out a generation? */
  predicate Issues<R, G, D>(sys: System<R, D>, e: Event<G, D>) {
    match e
    case New(_) => true
    case AddTo(id, _) => id in sys.unwinders
    case RemoveFrom(id, start) => id in sys.unwinders && Removes(sys.unwinders[id].modules, start)
    case _ => false
  }

  predicate Unwinds<R, G, D>(sys: System<R, D>, e: Event<G, D>) {
    e.Unwind? && e.id in sys.unwinders && e.address.Valid()
  }

  function Next<R, G, D>(arch: Arch<R, G, D>, sys: System<R, D>, e: Event<G, D>): System<R, D>
    requires |sys.cache.entries| == CACHE_ENTRY_COUNT
  {
    match e
    case New(id) => Publish(sys, id, [])
    case Clone(id, source) =>
      if source in sys.unwinders then sys.(unwinders := sys.unwinders[id := sys.unwinders[source]]) else sys
    case AddTo(id, m) =>
      if Issues(sys, e) then Publish(sys, id, AddModule(sys.unwinders[id].modules, m)) else sys
    case RemoveFrom(id, start) =>
      if Issues(sys, e) then Publish(sys, id, RemoveModule(sys.unwinders[id].modules, start)) else sys
    case Unwind(id, address, regs, stack) =>
      if Unwinds(sys, e) then sys.(cache := CachedUnwind(arch, sys, e).cache) else sys
  }

  function CachedUnwind<R, G, D>(arch: Arch<R, G, D>, sys: System<R, D>, e: Event<G, D>): Cached<R, G>
    requires Unwinds(sys, e) && |sys.cache.entries| == CACHE_ENTRY_COUNT
  {
    var u := sys.unwinders[e.id];
    WithCache(arch, u.modules, u.generation, sys.cache, e.address, e.regs, e.stack)
  }

  /** What the unwinding events of a run answer. */
  function Answers<R, G, D>(arch: Arch<R, G, D>, sys: System<R, D>, events: seq<Event<G, D>>): seq<Executed<G>>
    requires |sys.cache.entries| == CACHE_ENTRY_COUNT
    decreases |events|
  {
    if events == [] then []
    else
      (if Unwinds(sys, events[0]) then [CachedUnwind(arch, sys, events[0]).executed] else []) +
      Answers(arch, Next(arch, sys, events[0]), events[1..])
  }

  /** The number of generations that a run gives out. */
  function IssuedBy<R, G, D>(arch: Arch<R, G, D>, sys: System<R, D>, events: seq<Event<G, D>>): nat
    requires |sys.cache.entries| == CACHE_ENTRY_COUNT
    decreases |events|
  {
    if events == [] then 0
    else (if Issues(sys, events[0]) then 1 else 0) + IssuedBy(arch, Next(arch, sys, events[0]), events[1..])
  }

  // ----- the same without a cache -----

  /** Only the module lists matter. */
  type Lists<D> = map<nat, seq<Module<D>>>

  function NextLists<G, D>(lists: Lists<D>, e: Event<G, D>): Lists<D> {
    match e
    case New(id) => lists[id := []]
    case Clone(id, source) => if source in lists then lists[id := lists[source]] else lists
    case AddTo(id, m) => if id in lists then lists[id := AddModule(lists[id], m)] else lists
    case RemoveFrom(id, start) => if id in lists then lists[id := RemoveModule(lists[id], start)] else lists
    case Unwind(_, _, _, _) => lists
  }

  function UncachedAnswers<R, G, D>(arch: Arch<R, G, D>, lists: Lists<D>, events: seq<Event<G, D>>): seq<Executed<G>>
    decreases |events|
  {
    if events == [] then []
    else
      var e := events[0];
      (if e.Unwind? && e.id in lists && e.address.Valid()
       then [UnwindUncached(arch, lists[e.id], e.address, e.regs, e.stack)] else []) +
      UncachedAnswers(arch, NextLists(lists, e), events[1..])
  }

  function ListsOf<R, D>(sys: System<R, D>): Lists<D> {
    map id | id in sys.unwinders :: sys.unwinders[id].modules
  }

  // ----- which architectures a cache may be put in front of -----

  /** As many modules as there are generations, but for the one without modules. */
  const MANY := 0x1_0000

  /** A list that some unwinder may have before the generations are used up. */
  ghost predicate Possible<D>(ms: seq<Module<D>>) { SortedModules(ms) && |ms| < MANY }

  /** Executing the rule gives what unwinding gives, for every frame of that lookup address. */
  ghost predicate StandsIn<R, G(!new), D>(arch: Arch<R, G, D>, ms: seq<Module<D>>, lookup: U64, rule: R) {
    forall a: FrameAddress, g, s :: a.Valid() && a.AddressForLookup() == lookup ==>
      arch.exec(rule, !a.IsReturnAddress(), g, s) == UnwindUncached(arch, ms, a, g, s)
  }

  /** The rule that one frame resolves to stands in for all frames of its lookup address: whatever the kind of
      frame, the registers and the stack. */
  ghost predicate Interchangeable<R(!new), G(!new), D(!new)>(arch: Arch<R, G, D>) {
    forall ms, a: FrameAddress, g, s :: Possible(ms) && a.Valid() && Resolve(arch, ms, a, g, s).ByRule? ==>
      StandsIn(arch, ms, a.AddressForLookup(), Resolve(arch, ms, a, g, s).rule)
  }

  /** The cache makes no difference to any run which issues each generation once. */
  ghost predicate Transparent<R(!new), G(!new), D(!new)>(arch: Arch<R, G, D>) {
    forall events: seq<Event<G, D>> :: IssuedBy(arch, Initial(), events) <= MANY ==>
      Answers(arch, Initial(), events) == UncachedAnswers(arch, map[], events)
  }

  // ----- the invariant -----

  /** Each generation stands for one module list; no generation is issued twice. */
  ghost predicate GenerationsAgree<R, D>(sys: System<R, D>, known: Lists<D>, issued: nat) {
    && issued <= MANY && sys.counter == WrapU16(issued)
    && (forall g :: g in known ==> g < issued && SortedModules(known[g]) && |known[g]| <= g)
    && forall id :: id in sys.unwinders ==>
         sys.unwinders[id].generation in known && known[sys.unwinders[id].generation] == sys.unwinders[id].modules
  }

  ghost predicate EntryAgrees<R, G(!new), D>(arch: Arch<R, G, D>, e: Option<Entry<R>>, known: Lists<D>) {
    e.Some? ==> e.value.generation in known && StandsIn(arch, known[e.value.generation], e.value.address, e.value.rule)
  }

  /** Every entry stands in for its frames, over the module list that its generation stands for. */
  ghost predicate CacheAgrees<R, G(!new), D>(arch: Arch<R, G, D>, cache: State<R>, known: Lists<D>) {
    && |cache.entries| == CACHE_ENTRY_COUNT
    && forall i :: 0 <= i < |cache.entries| ==> EntryAgrees(arch, cache.entries[i], known)
  }

  /** A new generation for a new list. */
  lemma PublishAgrees<R, G(!new), D>(arch: Arch<R, G, D>, sys: System<R, D>, known: Lists<D>,
                                     issued: nat, id: nat, ms: seq<Module<D>>)
    requires GenerationsAgree(sys, known, issued) && CacheAgrees(arch, sys.cache, known) && issued < MANY
    requires SortedModules(ms) && |ms| <= issued
    ensures GenerationsAgree(Publish(sys, id, ms), known[issued := ms], issued + 1)
    ensures CacheAgrees(arch, sys.cache, known[issued := ms])
  {
    hide StandsIn, SortedModules;
    assert sys.counter == issued;
    forall i | 0 <= i < |sys.cache.entries| ensures EntryAgrees(arch, sys.cache.entries[i], known[issued := ms]) {
      assert EntryAgrees(arch, sys.cache.entries[i], known);
    }
  }

  /** Unwinding with a cache that agrees gives the uncached answer and keeps the cache in agreement. */
  lemma WithCacheAgrees<R(!new), G(!new), D(!new)>(arch: Arch<R, G, D>, ms: seq<Module<D>>, generation: U16,
                                                   cache: State<R>, known: Lists<D>, a: FrameAddress, g: G, s: Stack)
    requires Interchangeable(arch) && a.Valid() && CacheAgrees(arch, cache, known)
    requires generation in known && known[generation] == ms && Possible(ms)
    ensures WithCache(arch, ms, generation, cache, a, g, s).executed == UnwindUncached(arch, ms, a, g, s)
    ensures CacheAgrees(arch, WithCache(arch, ms, generation, cache, a, g, s).cache, known)
  {
    var lookup := a.AddressForLookup();
    var slot, after := SlotOf(lookup), WithCache(arch, ms, generation, cache, a, g, s).cache;
    assert EntryAgrees(arch, cache.entries[slot], known);
    if Resolve(arch, ms, a, g, s).ByRule? {
      assert StandsIn(arch, ms, lookup, Resolve(arch, ms, a, g, s).rule);
    }
    hide Interchangeable, Possible, Resolve;
    assert EntryAgrees(arch, after.entries[slot], known);
    forall i | 0 <= i < |after.entries| ensures EntryAgrees(arch, after.entries[i], known) {
      assert EntryAgrees(arch, cache.entries[i], known);
    }
  }

  lemma UnwindAgrees<R(!new), G(!new), D(!new)>(arch: Arch<R, G, D>, sys: System<R, D>, known: Lists<D>,
                                                issued: nat, e: Event<G, D>)
    requires Interchangeable(arch) && Unwinds(sys, e)
    requires GenerationsAgree(sys, known, issued) && CacheAgrees(arch, sys.cache, known)
    ensures CachedUnwind(arch, sys, e).executed
         == UnwindUncached(arch, sys.unwinders[e.id].modules, e.address, e.regs, e.stack)
    ensures CacheAgrees(arch, CachedUnwind(arch, sys, e).cache, known)
  {
    hide Interchangeable, WithCache, UnwindUncached, SortedModules;
    var u := sys.unwinders[e.id];
    WithCacheAgrees(arch, u.modules, u.generation, sys.cache, known, e.address, e.regs, e.stack);
  }

  // ----- every interleaving -----

  /** The module lists evolve alike with and without the cache. */
  lemma ListsEvolveAlike<R, G, D>(arch: Arch<R, G, D>, sys: System<R, D>, e: Event<G, D>)
    requires |sys.cache.entries| == CACHE_ENTRY_COUNT
    ensures ListsOf(Next(arch, sys, e)) == NextLists(ListsOf(sys), e)
  {
    hide AddModule, WithCache;
  }

  /** The list that an event publishes. */
  function Published<R, G, D>(sys: System<R, D>, e: Event<G, D>): seq<Module<D>>
    requires Issues(sys, e)
  {
    match e
    case AddTo(id, m) => AddModule(sys.unwinders[id].modules, m)
    case RemoveFrom(id, start) => RemoveModule(sys.unwinders[id].modules, start)
    case _ => []
  }

  lemma PublishedIsPossible<R, G, D>(sys: System<R, D>, known: Lists<D>, issued: nat, e: Event<G, D>)
    requires GenerationsAgree(sys, known, issued) && Issues(sys, e)
    ensures SortedModules(Published(sys, e)) && |Published(sys, e)| <= issued
  {
    match e
    case AddTo(id, m) =>
      AddKeepsSorted(sys.unwinders[id].modules, m);
    case RemoveFrom(id, start) =>
      RemoveKeepsSorted(sys.unwinders[id].modules, start);
      hide SortedModules;
    case _ =>
      EmptyIsSorted<D>();
  }

  /** One event keeps the invariant, with one more known list if it issues a generation. */
  lemma NextAgrees<R(!new), G(!new), D(!new)>(arch: Arch<R, G, D>, sys: System<R, D>, known: Lists<D>,
                                              issued: nat, e: Event<G, D>) returns (known': Lists<D>)
    requires Interchangeable(arch) && GenerationsAgree(sys, known, issued) && CacheAgrees(arch, sys.cache, known)
    requires issued + (if Issues(sys, e) then 1 else 0) <= MANY
    ensures GenerationsAgree(Next(arch, sys, e), known', issued + if Issues(sys, e) then 1 else 0)
    ensures CacheAgrees(arch, Next(arch, sys, e).cache, known')
  {
    hide AddModule, RemoveModule, WithCache, Interchangeable, StandsIn, SortedModules;
    known' := known;
    if Issues(sys, e) {
      PublishedIsPossible(sys, known, issued, e);
      PublishAgrees(arch, sys, known, issued, e.id, Published(sys, e));
      known' := known[issued := Published(sys, e)];
    } else if Unwinds(sys, e) {
      UnwindAgrees(arch, sys, known, issued, e);
    }
  }

  lemma {:induction false} RunAgrees<R(!new), G(!new), D(!new)>(arch: Arch<R, G, D>, sys: System<R, D>,
                                                               known: Lists<D>, issued: nat, events: seq<Event<G, D>>)
    requires Interchangeable(arch) && GenerationsAgree(sys, known, issued) && CacheAgrees(arch, sys.cache, known)
    requires issued + IssuedBy(arch, sys, events) <= MANY
    ensures Answers(arch, sys, events) == UncachedAnswers(arch, ListsOf(sys), events)
    decreases |events|
  {
    hide Interchangeable, CacheAgrees, GenerationsAgree, WithCache, UnwindUncached, NextLists;
    if events != [] {
      var e := events[0];
      CacheKeepsItsSize(arch, sys.cache, known);
      var known' := NextAgrees(arch, sys, known, issued, e);
      ListsEvolveAlike(arch, sys, e);
      if Unwinds(sys, e) {
        UnwindAgrees(arch, sys, known, issued, e);
      }
      CacheKeepsItsSize(arch, Next(arch, sys, e).cache, known');
      RunAgrees(arch, Next(arch, sys, e), known', issued + (if Issues(sys, e) then 1 else 0), events[1..]);
    }
  }

  lemma CacheKeepsItsSize<R, G(!new), D>(arch: Arch<R, G, D>, cache: State<R>, known: Lists<D>)
    requires CacheAgrees(arch, cache, known)
    ensures |cache.entries| == CACHE_ENTRY_COUNT
  {
  }

  /** Any interleaving of creating, cloning, changing and using any number of unwinders that share one
      cache answers every unwinding exactly as if there were no cache, as long as rules stand in for
      their frames and at most 65536 generations are issued. */
  lemma SharedCacheIsTransparent<R(!new), G(!new), D(!new)>(arch: Arch<R, G, D>, events: seq<Event<G, D>>)
    requires Interchangeable(arch) && IssuedBy(arch, Initial(), events) <= MANY
    ensures Answers(arch, Initial(), events) == UncachedAnswers(arch, map[], events)
  {
    hide Interchangeable;
    var sys: System<R, D> := Initial();
    var known: Lists<D> := map[];
    assert ListsOf(sys) == map[];
    RunAgrees(arch, sys, known, 0, events);
  }

  // ----- nothing less will do -----

  /** Two frames of one lookup address and one generation: the rule resolved for the first is executed
      for the second, whatever the second would resolve to, even with other modules. */
  lemma SecondFrameHits<R, G, D>(arch: Arch<R, G, D>, ms: seq<Module<D>>, ms': seq<Module<D>>, generation: U16,
                                 cache: State<R>, a: FrameAddress, g: G, s: Stack,
                                 a': FrameAddress, g': G, s': Stack)
    requires a.Valid() && a'.Valid() && a.AddressForLookup() == a'.AddressForLookup()
    requires |cache.entries| == CACHE_ENTRY_COUNT && Lookup(cache, a.AddressForLookup(), generation).Miss?
    requires Resolve(arch, ms, a, g, s).ByRule?
    ensures var first := WithCache(arch, ms, generation, cache, a, g, s);
      && |first.cache.entries| == CACHE_ENTRY_COUNT
      && first.executed == UnwindUncached(arch, ms, a, g, s)
      && WithCache(arch, ms', generation, first.cache, a', g', s').executed
           == arch.exec(Resolve(arch, ms, a, g, s).rule, !a'.IsReturnAddress(), g', s')
  {
    hide Resolve;
  }

  /** One unwinder, which was given the last generation issued. */
  function Solo<R, D>(issued: nat, ms: seq<Module<D>>, cache: State<R>): System<R, D>
    requires 0 < issued
  {
    System(WrapU16(issued), map[0 := Unwinder(ms, WrapU16(issued - 1))], cache)
  }

  /** How a run begins: with the given events the system gets from one state to the other, without unwinding. */
  ghost predicate LeadsTo<R, G, D>(arch: Arch<R, G, D>, sys: System<R, D>, lists: Lists<D>, events: seq<Event<G, D>>,
                                   issues: nat, sys': System<R, D>, lists': Lists<D>, rest: seq<Event<G, D>>)
    requires |sys.cache.entries| == CACHE_ENTRY_COUNT && |sys'.cache.entries| == CACHE_ENTRY_COUNT
  {
    && Answers(arch, sys, events + rest) == Answers(arch, sys', rest)
    && IssuedBy(arch, sys, events + rest) == issues + IssuedBy(arch, sys', rest)
    && UncachedAnswers(arch, lists, events + rest) == UncachedAnswers(arch, lists', rest)
  }

  lemma LeadsOn<R, G, D>(arch: Arch<R, G, D>, sys: System<R, D>, lists: Lists<D>, events: seq<Event<G, D>>, issues: nat,
                         sys': System<R, D>, lists': Lists<D>, events': seq<Event<G, D>>, issues': nat,
                         sys'': System<R, D>, lists'': Lists<D>, rest: seq<Event<G, D>>)
    requires |sys.cache.entries| == CACHE_ENTRY_COUNT && |sys'.cache.entries| == CACHE_ENTRY_COUNT
    requires |sys''.cache.entries| == CACHE_ENTRY_COUNT
    requires LeadsTo(arch, sys, lists, events, issues, sys', lists', events' + rest)
    requires LeadsTo(arch, sys', lists', events', issues', sys'', lists'', rest)
    ensures LeadsTo(arch, sys, lists, events + events', issues + issues', sys'', lists'', rest)
  {
    hide Answers, IssuedBy, UncachedAnswers;
    assert events + (events' + rest) == events + events' + rest;
  }

  function Adds<G, D>(added: seq<Module<D>>): seq<Event<G, D>> {
    if added == [] then [] else [AddTo(0, added[0])] + Adds(added[1..])
  }

  lemma AddOne<R, G, D>(arch: Arch<R, G, D>, issued: nat, ms: seq<Module<D>>, cache: State<R>, m: Module<D>,
                        rest: seq<Event<G, D>>)
    requires 0 < issued && |cache.entries| == CACHE_ENTRY_COUNT
    ensures LeadsTo(arch, Solo(issued, ms, cache), map[0 := ms], [AddTo(0, m)], 1,
                    Solo(issued + 1, AddModule(ms, m), cache), map[0 := AddModule(ms, m)], rest)
  {
    hide AddModule;
    var events: seq<Event<G, D>>, sys := [AddTo(0, m)] + rest, Solo(issued, ms, cache);
    assert events[1..] == rest;
    assert Next(arch, sys, events[0]) == Solo(issued + 1, AddModule(ms, m), cache);
    assert NextLists(map[0 := ms], events[0]) == map[0 := AddModule(ms, m)];
  }

  /** Adding modules only leaves a bigger list and a later generation. */
  lemma {:induction false} AddMany<R, G, D>(arch: Arch<R, G, D>, issued: nat, ms: seq<Module<D>>, cache: State<R>,
                                           added: seq<Module<D>>, rest: seq<Event<G, D>>)
    requires 0 < issued && |cache.entries| == CACHE_ENTRY_COUNT
    ensures LeadsTo(arch, Solo(issued, ms, cache), map[0 := ms], Adds(added), |added|,
                    Solo(issued + |added|, AddAll(ms, added), cache), map[0 := AddAll(ms, added)], rest)
    decreases |added|
  {
    hide Answers, IssuedBy, UncachedAnswers, AddModule, Solo;
    SoloCache(issued, ms, cache);
    SoloCache(issued + |added|, AddAll(ms, added), cache);
    if added == [] {
      assert Adds(added) + rest == rest;
    } else {
      assert Adds(added) + rest == [AddTo(0, added[0])] + (Adds(added[1..]) + rest);
      AddOne(arch, issued, ms, cache, added[0], Adds(added[1..]) + rest);
      AddMany(arch, issued + 1, AddModule(ms, added[0]), cache, added[1..], rest);
    }
  }

  lemma SoloCache<R, D>(issued: nat, ms: seq<Module<D>>, cache: State<R>)
    requires 0 < issued
    ensures Solo(issued, ms, cache).cache == cache
  {
  }

  lemma CacheSize<R, G, D>(arch: Arch<R, G, D>, ms: seq<Module<D>>, generation: U16, cache: State<R>,
                           a: FrameAddress, g: G, s: Stack)
    requires a.Valid() && |cache.entries| == CACHE_ENTRY_COUNT
    ensures |WithCache(arch, ms, generation, cache, a, g, s).cache.entries| == CACHE_ENTRY_COUNT
  {
  }

  /** Unwinding one frame adds its answer. */
  lemma UnwindOne<R, G, D>(arch: Arch<R, G, D>, issued: nat, ms: seq<Module<D>>, cache: State<R>,
                           a: FrameAddress, g: G, s: Stack, rest: seq<Event<G, D>>)
    requires 0 < issued && a.Valid() && |cache.entries| == CACHE_ENTRY_COUNT
    ensures var c := WithCache(arch, ms, WrapU16(issued - 1), cache, a, g, s);
      var events, sys := [Unwind(0, a, g, s)] + rest, Solo(issued, ms, cache);
      && |c.cache.entries| == CACHE_ENTRY_COUNT
      && Answers(arch, sys, events) == [c.executed] + Answers(arch, Solo(issued, ms, c.cache), rest)
      && IssuedBy(arch, sys, events) == IssuedBy(arch, Solo(issued, ms, c.cache), rest)
      && UncachedAnswers(arch, map[0 := ms], events)
           == [UnwindUncached(arch, ms, a, g, s)] + UncachedAnswers(arch, map[0 := ms], rest)
  {
    CacheSize(arch, ms, WrapU16(issued - 1), cache, a, g, s);
    hide WithCache, UnwindUncached;
    var events: seq<Event<G, D>>, sys := [Unwind(0, a, g, s)] + rest, Solo(issued, ms, cache);
    assert events[1..] == rest;
    var c := WithCache(arch, ms, WrapU16(issued - 1), cache, a, g, s);
    assert Next(arch, sys, events[0]) == Solo(issued, ms, c.cache);
  }

  /** The first event of a run. */
  lemma CreateOne<R, G, D>(arch: Arch<R, G, D>, rest: seq<Event<G, D>>)
    ensures LeadsTo(arch, Initial(), map[], [New(0)], 1, Solo(1, [], Empty()), map[0 := []], rest)
  {
    var events: seq<Event<G, D>> := [New(0)] + rest;
    assert events[1..] == rest;
    assert Next(arch, Initial<R, D>(), events[0]) == Solo(1, [], Empty());
    assert NextLists(map[], events[0]) == map[0 := []];
  }

  lemma NothingCached<R>(address: U64, generation: U16)
    ensures Lookup(Empty<R>(), address, generation).Miss?
  {
  }

  lemma NothingLeft<R, G, D>(arch: Arch<R, G, D>, issued: nat, ms: seq<Module<D>>, cache: State<R>)
    requires 0 < issued && |cache.entries| == CACHE_ENTRY_COUNT
    ensures var none: seq<Event<G, D>> := [];
      && Answers(arch, Solo(issued, ms, cache), none) == [] && IssuedBy(arch, Solo(issued, ms, cache), none) == 0
      && UncachedAnswers(arch, map[0 := ms], none) == []
  {
  }

  /** Unwinding the last frame of a run. */
  lemma UnwindLast<R, G, D>(arch: Arch<R, G, D>, issued: nat, ms: seq<Module<D>>, cache: State<R>,
                            a: FrameAddress, g: G, s: Stack)
    requires 0 < issued && a.Valid() && |cache.entries| == CACHE_ENTRY_COUNT
    ensures var events: seq<Event<G, D>>, sys := [Unwind(0, a, g, s)], Solo(issued, ms, cache);
      && Answers(arch, sys, events) == [WithCache(arch, ms, WrapU16(issued - 1), cache, a, g, s).executed]
      && IssuedBy(arch, sys, events) == 0
      && UncachedAnswers(arch, map[0 := ms], events) == [UnwindUncached(arch, ms, a, g, s)]
  {
    hide WithCache, UnwindUncached, Answers, UncachedAnswers, IssuedBy;
    var events: seq<Event<G, D>> := [Unwind(0, a, g, s)];
    assert events == events + [];
    UnwindOne(arch, issued, ms, cache, a, g, s, []);
    NothingLeft(arch, issued, ms, WithCache(arch, ms, WrapU16(issued - 1), cache, a, g, s).cache);
  }

  /** Two frames to unwind. */
  function TwoFrames<G, D>(a: FrameAddress, g: G, s: Stack, a': FrameAddress, g': G, s': Stack): seq<Event<G, D>> {
    [Unwind(0, a, g, s)] + [Unwind(0, a', g', s')]
  }

  lemma TwoFramesAnswer<R, G, D>(arch: Arch<R, G, D>, issued: nat, ms: seq<Module<D>>,
                                 a: FrameAddress, g: G, s: Stack, a': FrameAddress, g': G, s': Stack)
    requires 0 < issued && a.Valid() && a'.Valid() && a.AddressForLookup() == a'.AddressForLookup()
    requires Resolve(arch, ms, a, g, s).ByRule?
    ensures var events, sys := TwoFrames(a, g, s, a', g', s'), Solo(issued, ms, Empty());
      && IssuedBy(arch, sys, events) == 0
      && Answers(arch, sys, events) ==
           [UnwindUncached(arch, ms, a, g, s),
            arch.exec(Resolve(arch, ms, a, g, s).rule, !a'.IsReturnAddress(), g', s')]
      && UncachedAnswers(arch, map[0 := ms], events) ==
           [UnwindUncached(arch, ms, a, g, s), UnwindUncached(arch, ms, a', g', s')]
  {
    hide WithCache, Resolve, UnwindUncached, Solo, Answers, UncachedAnswers, IssuedBy, WrapU16;
    var generation := WrapU16(issued - 1);
    NothingCached<R>(a.AddressForLookup(), generation);
    UnwindOne(arch, issued, ms, Empty(), a, g, s, [Unwind(0, a', g', s')]);
    UnwindLast(arch, issued, ms, WithCache(arch, ms, generation, Empty(), a, g, s).cache, a', g', s');
    SecondFrameHits(arch, ms, ms, generation, Empty(), a, g, s, a', g', s');
  }

  /** A run that builds any possible list and then unwinds two frames. */
  lemma TwoFramesTell<R, G, D>(arch: Arch<R, G, D>, ms: seq<Module<D>>, a: FrameAddress, g: G, s: Stack,
                               a': FrameAddress, g': G, s': Stack) returns (events: seq<Event<G, D>>)
    requires Possible(ms) && a.Valid() && a'.Valid() && a.AddressForLookup() == a'.AddressForLookup()
    requires Resolve(arch, ms, a, g, s).ByRule?
    ensures IssuedBy(arch, Initial(), events) <= MANY
    ensures Answers(arch, Initial(), events) ==
      [UnwindUncached(arch, ms, a, g, s), arch.exec(Resolve(arch, ms, a, g, s).rule, !a'.IsReturnAddress(), g', s')]
    ensures UncachedAnswers(arch, map[], events) ==
      [UnwindUncached(arch, ms, a, g, s), UnwindUncached(arch, ms, a', g', s')]
  {
    hide Resolve, UnwindUncached, Solo, AddAll, Adds, SortedModules, Answers, UncachedAnswers, IssuedBy, TwoFrames;
    var added := SortedIsBuilt(ms);
    var tail: seq<Event<G, D>> := TwoFrames(a, g, s, a', g', s');
    events := [New(0)] + (Adds(added) + tail);
    SoloCache<R, D>(1, [], Empty());
    SoloCache<R, D>(1 + |ms|, ms, Empty());
    CreateOne(arch, Adds(added) + tail);
    AddMany(arch, 1, [], Empty(), added, tail);
    TwoFramesAnswer(arch, 1 + |ms|, ms, a, g, s, a', g', s');
  }

  /** The cache is transparent if and only if rules stand in for their frames. */
  lemma TransparentExactly<R(!new), G(!new), D(!new)>(arch: Arch<R, G, D>)
    ensures Transparent(arch) <==> Interchangeable(arch)
  {
    hide Answers, UncachedAnswers, IssuedBy, Resolve, UnwindUncached, Possible;
    if Interchangeable(arch) {
      forall events: seq<Event<G, D>> | IssuedBy(arch, Initial(), events) <= MANY
        ensures Answers(arch, Initial(), events) == UncachedAnswers(arch, map[], events)
      {
        SharedCacheIsTransparent(arch, events);
      }
    }
    if Transparent(arch) {
      forall ms, a: FrameAddress, g, s, a': FrameAddress, g', s' |
        && Possible(ms) && a.Valid() && Resolve(arch, ms, a, g, s).ByRule?
        && a'.Valid() && a'.AddressForLookup() == a.AddressForLookup()
        ensures arch.exec(Resolve(arch, ms, a, g, s).rule, !a'.IsReturnAddress(), g', s')
             == UnwindUncached(arch, ms, a', g', s')
      {
        var events := TwoFramesTell(arch, ms, a, g, s, a', g', s');
        var answers := Answers(arch, Initial(), events);
        assert answers == UncachedAnswers(arch, map[], events);
        assert answers[1] == UnwindUncached(arch, ms, a', g', s');
      }
    }
  }

  /** Two frames of one lookup address, the second of which the rule of the first does not stand in for. */
  lemma NotTransparent<R(!new), G(!new), D(!new)>(arch: Arch<R, G, D>, ms: seq<Module<D>>,
                                                  a: FrameAddress, g: G, s: Stack, a': FrameAddress, g': G, s': Stack)
    requires Possible(ms) && a.Valid() && a'.Valid() && a.AddressForLookup() == a'.AddressForLookup()
    requires Resolve(arch, ms, a, g, s).ByRule?
    requires arch.exec(Resolve(arch, ms, a, g, s).rule, !a'.IsReturnAddress(), g', s')
          != UnwindUncached(arch, ms, a', g', s')
    ensures !Transparent(arch)
  {
    hide Transparent, Resolve, UnwindUncached, Possible;
    TransparentExactly(arch);
    assert !StandsIn(arch, ms, a.AddressForLookup(), Resolve(arch, ms, a, g, s).rule);
  }

  // ----- a simpler condition -----

  /** The rule that will be executed, if there is one. */
  function EffectiveRule<R, G>(called: Called<R, G>, fallback: R): Option<R> {
    match called
    case UseRule(rule, _) => Some(rule)
    case CallFailed(_) => Some(fallback)
    case Uncacheable(_, _) => None
  }

  /** For one module and one lookup address, the callback leads to the same rule whatever the kind of
      address, the registers and the stack, and leaves the registers alone when it does. */
  ghost predicate Steady<R(!new), G(!new), D(!new)>(arch: Arch<R, G, D>) {
    forall m, a: FrameAddress, a': FrameAddress, rel, g, g', s, s' ::
      a.Valid() && a'.Valid() && a.AddressForLookup() == a'.AddressForLookup() ==>
        SameRule(arch, arch.callback(m, a, rel, g, s), g, arch.callback(m, a', rel, g', s'), g')
  }

  ghost predicate SameRule<R, G, D>(arch: Arch<R, G, D>, c: Called<R, G>, g: G, c': Called<R, G>, g': G) {
    EffectiveRule(c, arch.fallback).Some? ==>
      c.regs == g && c'.regs == g' && EffectiveRule(c', arch.fallback) == EffectiveRule(c, arch.fallback)
  }

  /** A steady callback is enough. */
  lemma SteadyIsInterchangeable<R(!new), G(!new), D(!new)>(arch: Arch<R, G, D>)
    requires Steady(arch)
    ensures Interchangeable(arch)
  {
    hide FindModule, Possible;
    forall ms, a: FrameAddress, g, s, a': FrameAddress, g', s' |
      && a.Valid() && Resolve(arch, ms, a, g, s).ByRule?
      && a'.Valid() && a'.AddressForLookup() == a.AddressForLookup()
      ensures Resolve(arch, ms, a', g', s') == ByRule(Resolve(arch, ms, a, g, s).rule, g')
    {
      match FindModule(ms, a.AddressForLookup())
      case None =>
      case Some(f) =>
        assert SameRule(arch, arch.callback(ms[f.0], a, f.1, g, s), g, arch.callback(ms[f.0], a', f.1, g', s'), g');
    }
  }
}
