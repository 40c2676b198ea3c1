/** The fixed-size, direct-mapped cache of unwind rules. */
module RuleCacheModel {
  import opened Words

  const CACHE_ENTRY_COUNT := 509

  datatype Entry<R> = Entry(address: U64, generation: U16, rule: R)

  /** Counters of lookups by their outcome. */
  datatype Stats = Stats(hits: nat, missEmptySlot: nat, missWrongModules: nat, missWrongAddress: nat)
  {
    function Misses(): nat { missEmptySlot + missWrongModules + missWrongAddress }

    function Total(): nat { hits + Misses() }
  }

  /** Where a rule may be inserted after a miss. Only lookups make handles. */
  datatype Handle = Handle(slot: nat, address: U64, generation: U16)
  {
    predicate Valid() { slot == SlotOf(address) }
  }

  datatype CacheResult<R> = Miss(handle: Handle) | Hit(rule: R)

  function SlotOf(address: U64): (s: nat)
    ensures s < CACHE_ENTRY_COUNT
  {
    address % CACHE_ENTRY_COUNT
  }

  /** The contents of the cache. */
  datatype State<R> = State(entries: seq<Option<Entry<R>>>, stats: Stats)
  {
    /** Every entry sits in the slot of its address. */
    ghost predicate WellPlaced() {
      && |entries| == CACHE_ENTRY_COUNT
      && forall s :: 0 <= s < |entries| && entries[s].Some? ==> SlotOf(entries[s].value.address) == s
    }
  }

  function Empty<R>(): State<R> {
    State(seq(CACHE_ENTRY_COUNT, i => None), Stats(0, 0, 0, 0))
  }

  /** Does the slot's entry answer for this address and these modules? */
  function Answer<R>(entry: Option<Entry<R>>, address: U64, generation: U16): Option<R> {
    if entry.Some? && entry.value.generation == generation && entry.value.address == address
    then Some(entry.value.rule) else None
  }

  function Count<R>(stats: Stats, entry: Option<Entry<R>>, address: U64, generation: U16): Stats {
    if entry.None? then stats.(missEmptySlot := stats.missEmptySlot + 1)
    else if entry.value.generation != generation then stats.(missWrongModules := stats.missWrongModules + 1)
    else if entry.value.address == address then stats.(hits := stats.hits + 1)
    else stats.(missWrongAddress := stats.missWrongAddress + 1)
  }

  function Lookup<R>(c: State<R>, address: U64, generation: U16): CacheResult<R>
    requires |c.entries| == CACHE_ENTRY_COUNT
  {
    match Answer(c.entries[SlotOf(address)], address, generation)
    case Some(rule) => Hit(rule)
    case None => Miss(Handle(SlotOf(address), address, generation))
  }

  /** A lookup changes nothing but the statistics. */
  function AfterLookup<R>(c: State<R>, address: U64, generation: U16): State<R>
    requires |c.entries| == CACHE_ENTRY_COUNT
  {
    c.(stats := Count(c.stats, c.entries[SlotOf(address)], address, generation))
  }

  function AfterInsert<R>(c: State<R>, handle: Handle, rule: R): State<R>
    requires |c.entries| == CACHE_ENTRY_COUNT && handle.Valid()
  {
    c.(entries := c.entries[handle.slot := Some(Entry(handle.address, handle.generation, rule))])
  }

  /** The cache as the object that unwinders share. */
  class RuleCache<R> {
    const entries: array<Option<Entry<R>>>
    var stats: Stats

    ghost predicate Valid()
      reads this, entries
    {
      entries.Length == CACHE_ENTRY_COUNT && Value().WellPlaced()
    }

    ghost function Value(): State<R>
      reads this, entries
    {
      State(entries[..], stats)
    }

    constructor ()
      ensures Valid() && fresh(entries) && Value() == Empty()
    {
      entries := new Option<Entry<R>>[CACHE_ENTRY_COUNT](i => None);
      stats := Stats(0, 0, 0, 0);
      new;
      assert entries[..] == Empty<R>().entries;
    }

    method LookUp(address: U64, generation: U16) returns (r: CacheResult<R>)
      requires Valid()
      modifies this`stats
      ensures Valid()
      ensures r == Lookup(old(Value()), address, generation)
      ensures Value() == AfterLookup(old(Value()), address, generation)
      ensures r.Miss? ==> r.handle.Valid()
    {
      var slot := SlotOf(address);
      match entries[slot]
      case None =>
        stats := stats.(missEmptySlot := stats.missEmptySlot + 1);
        return Miss(Handle(slot, address, generation));
      case Some(entry) =>
        if entry.generation == generation {
          if entry.address == address {
            stats := stats.(hits := stats.hits + 1);
            return Hit(entry.rule);
          } else {
            stats := stats.(missWrongAddress := stats.missWrongAddress + 1);
          }
        } else {
          stats := stats.(missWrongModules := stats.missWrongModules + 1);
        }
        return Miss(Handle(slot, address, generation));
    }

    method Insert(handle: Handle, rule: R)
      requires Valid() && handle.Valid()
      modifies entries
      ensures Valid()
      ensures Value() == AfterInsert(old(Value()), handle, rule)
    {
      entries[handle.slot] := Some(Entry(handle.address, handle.generation, rule));
      assert entries[..] == old(entries[..])[handle.slot := Some(Entry(handle.address, handle.generation, rule))];
    }
  }

  // ----- histories -----

  datatype Op<R> =
    | DoLookup(address: U64, generation: U16)
    | DoInsert(address: U64, generation: U16, rule: R)

  function HandleFor(address: U64, generation: U16): Handle { Handle(SlotOf(address), address, generation) }

  /** The cache after a history. */
  function After<R>(ops: seq<Op<R>>): (c: State<R>)
    ensures |c.entries| == CACHE_ENTRY_COUNT
  {
    if ops == [] then Empty()
    else
      var c := After(ops[..|ops| - 1]);
      match ops[|ops| - 1]
      case DoLookup(address, generation) => AfterLookup(c, address, generation)
      case DoInsert(address, generation, rule) => AfterInsert(c, HandleFor(address, generation), rule)
  }

  /** The most recent insertion for an address with this remainder modulo 509. */
  function LatestIn<R>(ops: seq<Op<R>>, remainder: nat): Option<Entry<R>> {
    if ops == [] then None
    else
      match ops[|ops| - 1]
      case DoInsert(address, generation, rule) =>
        if address % 509 == remainder then Some(Entry(address, generation, rule))
        else LatestIn(ops[..|ops| - 1], remainder)
      case DoLookup(_, _) => LatestIn(ops[..|ops| - 1], remainder)
  }

  /** The most recent rule inserted for exactly this address and generation. */
  function LatestFor<R>(ops: seq<Op<R>>, address: U64, generation: U16): Option<R> {
    if ops == [] then None
    else
      var last := ops[|ops| - 1];
      if last.DoInsert? && last.address == address && last.generation == generation then Some(last.rule)
      else LatestFor(ops[..|ops| - 1], address, generation)
  }

  /** After any history, a slot holds the latest insertion for an address with this remainder modulo 509, and
      nothing else. */
  lemma {:induction false} SlotsHoldLatest<R>(ops: seq<Op<R>>, slot: nat)
    requires slot < 509
    ensures After(ops).entries[slot] == LatestIn(ops, slot)
    ensures After(ops).entries[slot].Some? ==> After(ops).entries[slot].value.address % 509 == slot
    decreases |ops|
  {
    if ops != [] {
      SlotsHoldLatest(ops[..|ops| - 1], slot);
    }
  }

  /** The latest insertion for a remainder is the latest one for its own address and generation. */
  lemma {:induction false} LatestInIsLatestFor<R>(ops: seq<Op<R>>, remainder: nat)
    requires LatestIn(ops, remainder).Some?
    ensures var e := LatestIn(ops, remainder).value;
      e.address % 509 == remainder && LatestFor(ops, e.address, e.generation) == Some(e.rule)
    decreases |ops|
  {
    var last := ops[|ops| - 1];
    if !(last.DoInsert? && last.address % 509 == remainder) {
      LatestInIsLatestFor(ops[..|ops| - 1], remainder);
    }
  }

  /** The operation inserts a rule for this address and generation. */
  predicate InsertsFor<R>(op: Op<R>, address: U64, generation: U16) {
    op.DoInsert? && op.address == address && op.generation == generation
  }

  /** Operation number `i` inserts a rule for this address and generation, and no later one inserts a rule for
      anything else whose address is congruent modulo 509. */
  predicate Survives<R>(ops: seq<Op<R>>, i: nat, address: U64, generation: U16) {
    && i < |ops| && InsertsFor(ops[i], address, generation)
    && forall j :: i < j < |ops| && ops[j].DoInsert? && ops[j].address % 509 == address % 509 ==>
         InsertsFor(ops[j], address, generation)
  }

  lemma {:induction false} LatestSurvives<R>(ops: seq<Op<R>>, address: U64, generation: U16)
    ensures var latest := LatestIn(ops, address % 509);
      latest.Some? && latest.value.address == address && latest.value.generation == generation <==>
      exists i :: Survives(ops, i, address, generation)
    decreases |ops|
  {
    if ops != [] {
      var n := |ops| - 1;
      var earlier, last := ops[..n], ops[n];
      LatestSurvives(earlier, address, generation);
      if last.DoInsert? && last.address % 509 == address % 509 {
        if InsertsFor(last, address, generation) {
          assert Survives(ops, n, address, generation);
        }
      } else {
        forall i: nat ensures Survives(ops, i, address, generation) <==> Survives(earlier, i, address, generation) {
          assert forall j :: 0 <= j < n ==> earlier[j] == ops[j];
        }
      }
    }
  }

  /** A lookup hits exactly if a rule was inserted for this very address and generation, and every later
      insertion for an address congruent modulo 509 was for them again; and then gives the latest rule
      inserted for them. */
  lemma HitIsLatest<R>(ops: seq<Op<R>>, address: U64, generation: U16)
    ensures var r := Lookup(After(ops), address, generation);
      && (r.Hit? <==> exists i :: Survives(ops, i, address, generation))
      && (r.Hit? ==> LatestFor(ops, address, generation) == Some(r.rule))
  {
    hide Survives;
    SlotsHoldLatest(ops, address % 509);
    LatestSurvives(ops, address, generation);
    if LatestIn(ops, address % 509).Some? {
      LatestInIsLatestFor(ops, address % 509);
    }
  }

  /** Why a lookup finds nothing, in the order of the checks. */
  datatype Outcome = Hits | FindsNothing | FindsOtherModules | FindsOtherAddress

  function OutcomeOf<R>(latest: Option<Entry<R>>, address: U64, generation: U16): Outcome {
    if latest.None? then FindsNothing
    else if latest.value.generation != generation then FindsOtherModules
    else if latest.value.address != address then FindsOtherAddress
    else Hits
  }

  /** The latest insertion that a lookup of the address may find. */
  function LatestBefore<R>(ops: seq<Op<R>>, address: U64): Option<Entry<R>> { LatestIn(ops, address % 509) }

  /** The lookups of a history which ended like this, by what was inserted before them. */
  function Outcomes<R>(ops: seq<Op<R>>, outcome: Outcome): nat {
    if ops == [] then 0
    else
      var earlier, last := ops[..|ops| - 1], ops[|ops| - 1];
      Outcomes(earlier, outcome) +
      if last.DoLookup? && OutcomeOf(LatestBefore(earlier, last.address), last.address, last.generation) == outcome
      then 1 else 0
  }

  function Lookups<R>(ops: seq<Op<R>>): nat {
    if ops == [] then 0 else Lookups(ops[..|ops| - 1]) + if ops[|ops| - 1].DoLookup? then 1 else 0
  }

  function Counter(stats: Stats, outcome: Outcome): nat {
    match outcome
    case Hits => stats.hits
    case FindsNothing => stats.missEmptySlot
    case FindsOtherModules => stats.missWrongModules
    case FindsOtherAddress => stats.missWrongAddress
  }

  /** A lookup adds one to the counter of its outcome. */
  lemma CountsOutcome<R>(stats: Stats, entry: Option<Entry<R>>, address: U64, generation: U16, outcome: Outcome)
    ensures var counted := Count(stats, entry, address, generation);
      && Counter(counted, outcome)
           == Counter(stats, outcome) + (if OutcomeOf(entry, address, generation) == outcome then 1 else 0)
      && counted.Total() == stats.Total() + 1
  {
  }

  /** What the last operation of a history does to the statistics. */
  lemma StatsAfter<R>(ops: seq<Op<R>>)
    requires ops != []
    ensures var before, last := After(ops[..|ops| - 1]).stats, ops[|ops| - 1];
      After(ops).stats ==
        if last.DoInsert? then before
        else Count(before, LatestBefore(ops[..|ops| - 1], last.address), last.address, last.generation)
  {
    hide Count, LatestIn;
    var last := ops[|ops| - 1];
    SlotsHoldLatest(ops[..|ops| - 1], last.address % 509);
  }

  lemma {:induction false} CounterIsRight<R>(ops: seq<Op<R>>, outcome: Outcome)
    ensures Counter(After(ops).stats, outcome) == Outcomes(ops, outcome)
    ensures After(ops).stats.Total() == Lookups(ops)
    decreases |ops|
  {
    hide Count, Counter, OutcomeOf, LatestBefore, After;
    if ops == [] {
      NothingCounted<R>(outcome);
    } else {
      var earlier, last := ops[..|ops| - 1], ops[|ops| - 1];
      CounterIsRight(earlier, outcome);
      StatsAfter(ops);
      if last.DoLookup? {
        var latest := LatestBefore(earlier, last.address);
        CountsOutcome(After(earlier).stats, latest, last.address, last.generation, outcome);
      }
    }
  }

  lemma NothingCounted<R>(outcome: Outcome)
    ensures var stats := After<R>([]).stats; Counter(stats, outcome) == 0 && stats.Total() == 0
  {
  }

  /** The statistics account for every lookup exactly once, under its own outcome. */
  lemma StatsAddUp<R>(ops: seq<Op<R>>)
    ensures var stats := After(ops).stats;
      && stats.hits == Outcomes(ops, Hits)
      && stats.missEmptySlot == Outcomes(ops, FindsNothing)
      && stats.missWrongModules == Outcomes(ops, FindsOtherModules)
      && stats.missWrongAddress == Outcomes(ops, FindsOtherAddress)
      && stats.hits + stats.Misses() == Lookups(ops)
  {
    hide After, Outcomes, Lookups;
    CounterIsRight(ops, Hits);
    CounterIsRight(ops, FindsNothing);
    CounterIsRight(ops, FindsOtherModules);
    CounterIsRight(ops, FindsOtherAddress);
  }
}
