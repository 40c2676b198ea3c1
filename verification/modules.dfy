/** Binary search as the standard library offers it: any position of the key, or where it would go. */
module Search {
  datatype SearchResult = Found(index: nat) | Missing(insertAt: nat)

  ghost predicate Sorted(keys: seq<int>) {
    forall i, j :: 0 <= i < j < |keys| ==> keys[i] <= keys[j]
  }

  /** The key stands at the index, or everything before it is less and everything from it on greater. */
  ghost predicate Correct(keys: seq<int>, key: int, r: SearchResult) {
    match r
    case Found(i) => i < |keys| && keys[i] == key
    case Missing(i) =>
      && i <= |keys|
      && (forall j :: 0 <= j < i ==> keys[j] < key)
      && (forall j :: i <= j < |keys| ==> key < keys[j])
  }

  function SearchBetween(keys: seq<int>, key: int, lo: nat, hi: nat): (r: SearchResult)
    requires lo <= hi <= |keys|
    ensures if r.Found? then lo <= r.index < hi && keys[r.index] == key else lo <= r.insertAt <= hi
    decreases hi - lo
  {
    if lo == hi then Missing(lo)
    else
      var mid := lo + (hi - lo) / 2;
      if keys[mid] == key then Found(mid)
      else if keys[mid] < key then SearchBetween(keys, key, mid + 1, hi)
      else SearchBetween(keys, key, lo, mid)
  }

  function BinarySearch(keys: seq<int>, key: int): SearchResult {
    SearchBetween(keys, key, 0, |keys|)
  }

  lemma {:induction false} SearchBetweenIsCorrect(keys: seq<int>, key: int, lo: nat, hi: nat)
    requires lo <= hi <= |keys| && Sorted(keys)
    requires forall j :: 0 <= j < lo ==> keys[j] < key
    requires forall j :: hi <= j < |keys| ==> key < keys[j]
    ensures Correct(keys, key, SearchBetween(keys, key, lo, hi))
    decreases hi - lo
  {
    if lo != hi {
      var mid := lo + (hi - lo) / 2;
      if keys[mid] < key {
        SearchBetweenIsCorrect(keys, key, mid + 1, hi);
      } else if keys[mid] != key {
        SearchBetweenIsCorrect(keys, key, lo, mid);
      }
    }
  }

  lemma BinarySearchIsCorrect(keys: seq<int>, key: int)
    requires Sorted(keys)
    ensures Correct(keys, key, BinarySearch(keys, key))
    ensures BinarySearch(keys, key).Missing? ==> key !in keys
  {
    SearchBetweenIsCorrect(keys, key, 0, |keys|);
  }
}

/** The sorted list of the modules loaded in the profiled process. */
module Modules {
  import opened Words
  import opened Search
  import opened PtrAuth

  /** The mapped range, the base address, and whatever unwind data the module has. */
  datatype Module<D> = Module(start: U64, end: U64, base: U64, data: D)

  function Starts<D>(ms: seq<Module<D>>): seq<int> {
    seq(|ms|, i requires 0 <= i < |ms| => ms[i].start)
  }

  ghost predicate SortedModules<D>(ms: seq<Module<D>>) { Sorted(Starts(ms)) }

  function AddModule<D>(ms: seq<Module<D>>, m: Module<D>): seq<Module<D>> {
    var i := InsertionIndex(ms, m.start);
    ms[..i] + [m] + ms[i..]
  }

  /** The list without one module of that start, if there is one. */
  function RemoveModule<D>(ms: seq<Module<D>>, start: U64): seq<Module<D>> {
    match BinarySearch(Starts(ms), start)
    case Found(i) => ms[..i] + ms[i + 1..]
    case Missing(_) => ms
  }

  function MaxKnownCodeAddress<D>(ms: seq<Module<D>>): U64 {
    if ms == [] then 0 else ms[|ms| - 1].end
  }

  /** The address relative to the module's base, if it is not below it and fits u32. */
  function RelativeTo<D>(m: Module<D>, address: U64): Option<U32> {
    if address < m.base || address - m.base >= 0x1_0000_0000 then None else Some(address - m.base)
  }

  /** `find_module_for_address` */
  function FindModule<D>(ms: seq<Module<D>>, address: U64): (r: Option<(nat, U32)>)
    ensures r.Some? ==> r.value.0 < |ms|
  {
    match BinarySearch(Starts(ms), address)
    case Found(i) =>
      var relative :- RelativeTo(ms[i], address);
      Some((i, relative))
    case Missing(at) =>
      if at == 0 || ms[at - 1].end <= address then None
      else
        var relative :- RelativeTo(ms[at - 1], address);
        Some((at - 1, relative))
  }

  // ----- the list stays sorted and holds what was added and not removed -----

  /** Where a module with this start goes. */
  function InsertionIndex<D>(ms: seq<Module<D>>, start: U64): (i: nat)
    ensures i <= |ms|
  {
    match BinarySearch(Starts(ms), start) case Found(i) => i case Missing(i) => i
  }

  lemma InsertKeepsOrder(keys: seq<int>, key: int, i: nat)
    requires Sorted(keys) && i <= |keys|
    requires forall j :: 0 <= j < i ==> keys[j] <= key
    requires forall j :: i <= j < |keys| ==> key <= keys[j]
    ensures Sorted(keys[..i] + [key] + keys[i..])
  {
  }

  lemma DropKeepsOrder(keys: seq<int>, i: nat)
    requires Sorted(keys) && i < |keys|
    ensures Sorted(keys[..i] + keys[i + 1..])
  {
  }

  lemma AddKeepsSorted<D>(ms: seq<Module<D>>, m: Module<D>)
    requires SortedModules(ms)
    ensures SortedModules(AddModule(ms, m))
    ensures multiset(AddModule(ms, m)) == multiset(ms) + multiset{m}
  {
    hide BinarySearch, Sorted, Correct;
    var keys, i := Starts(ms), InsertionIndex(ms, m.start);
    BinarySearchIsCorrect(keys, m.start);
    assert (forall j :: 0 <= j < i ==> keys[j] <= m.start) && (forall j :: i <= j < |keys| ==> m.start <= keys[j]) by {
      SortedBounds(keys, m.start, BinarySearch(keys, m.start));
    }
    InsertKeepsOrder(keys, m.start, i);
    assert Starts(AddModule(ms, m)) == keys[..i] + [m.start as int] + keys[i..];
    assert ms == ms[..i] + ms[i..];
  }

  lemma SortedBounds(keys: seq<int>, key: int, r: SearchResult)
    requires Sorted(keys) && Correct(keys, key, r)
    ensures var i := if r.Found? then r.index else r.insertAt;
      && (forall j :: 0 <= j < i ==> keys[j] <= key)
      && (forall j :: i <= j < |keys| ==> key <= keys[j])
  {
  }

  /** Taking out one module of the given start: any one of them, or nothing if there is none. */
  ghost predicate Removed<D>(before: multiset<Module<D>>, start: U64, after: multiset<Module<D>>) {
    || (after == before && forall m :: m in before ==> m.start != start)
    || exists m :: m in before && m.start == start && after == before - multiset{m}
  }

  lemma RemoveKeepsSorted<D>(ms: seq<Module<D>>, start: U64)
    requires SortedModules(ms)
    ensures SortedModules(RemoveModule(ms, start))
    ensures Removed(multiset(ms), start, multiset(RemoveModule(ms, start)))
  {
    hide BinarySearch, Sorted;
    var keys := Starts(ms);
    BinarySearchIsCorrect(keys, start);
    match BinarySearch(keys, start)
    case Found(i) =>
      DropKeepsOrder(keys, i);
      assert Starts(RemoveModule(ms, start)) == keys[..i] + keys[i + 1..];
      DropTakesOne(ms, i);
    case Missing(_) => NoneStartsThere(ms, start);
  }

  lemma DropTakesOne<D>(ms: seq<Module<D>>, i: nat)
    requires i < |ms|
    ensures ms[i] in multiset(ms) && multiset(ms[..i] + ms[i + 1..]) == multiset(ms) - multiset{ms[i]}
    ensures ms[i].start == Starts(ms)[i]
  {
    assert ms == ms[..i] + [ms[i]] + ms[i + 1..];
  }

  lemma NoneStartsThere<D>(ms: seq<Module<D>>, start: U64)
    requires start !in Starts(ms)
    ensures forall m :: m in multiset(ms) ==> m.start != start
  {
    forall m | m in multiset(ms) ensures m.start != start {
      var i :| 0 <= i < |ms| && ms[i] == m;
      assert Starts(ms)[i] == m.start;
    }
  }

  datatype Op<D> = Add(m: Module<D>) | Remove(start: U64)

  function Apply<D>(op: Op<D>, ms: seq<Module<D>>): seq<Module<D>> {
    if op.Add? then AddModule(ms, op.m) else RemoveModule(ms, op.start)
  }

  function After<D>(ops: seq<Op<D>>): seq<Module<D>> {
    if ops == [] then [] else Apply(ops[|ops| - 1], After(ops[..|ops| - 1]))
  }

  /** What one operation may make of a bag of modules; only a removal among modules of the same start
      has a choice. */
  ghost predicate Steps<D>(op: Op<D>, before: multiset<Module<D>>, after: multiset<Module<D>>) {
    if op.Add? then after == before + multiset{op.m} else Removed(before, op.start, after)
  }

  lemma ApplyIsRight<D>(op: Op<D>, ms: seq<Module<D>>)
    requires SortedModules(ms)
    ensures SortedModules(Apply(op, ms))
    ensures Steps(op, multiset(ms), multiset(Apply(op, ms)))
  {
    match op
    case Add(m) => AddKeepsSorted(ms, m);
    case Remove(start) => RemoveKeepsSorted(ms, start);
  }

  /** The modules after the first `i` operations. */
  ghost function BagAfter<D>(ops: seq<Op<D>>, i: nat): multiset<Module<D>>
    requires i <= |ops|
  {
    multiset(After(ops[..i]))
  }

  /** Over any history of additions and removals, the list stays sorted and each operation adds or
      removes exactly what it should. */
  lemma {:induction false} HistoryKeepsModules<D>(ops: seq<Op<D>>)
    ensures SortedModules(After(ops))
    ensures forall i :: 0 <= i < |ops| ==> Steps(ops[i], BagAfter(ops, i), BagAfter(ops, i + 1))
    decreases |ops|
  {
    hide Steps, Apply, SortedModules;
    if ops == [] {
      EmptyIsSorted<D>();
    } else {
      var n := |ops| - 1;
      var earlier := ops[..n];
      HistoryKeepsModules(earlier);
      ApplyIsRight(ops[n], After(earlier));
      assert ops[..n + 1] == ops;
      forall i | 0 <= i < |ops| ensures Steps(ops[i], BagAfter(ops, i), BagAfter(ops, i + 1)) {
        if i < n {
          assert earlier[..i] == ops[..i] && earlier[..i + 1] == ops[..i + 1];
          assert Steps(earlier[i], BagAfter(earlier, i), BagAfter(earlier, i + 1));
        }
      }
    }
  }

  lemma EmptyIsSorted<D>()
    ensures SortedModules<D>([])
  {
  }

  // ----- every sorted list comes about -----

  /** The list after adding the modules one by one. */
  function AddAll<D>(ms: seq<Module<D>>, added: seq<Module<D>>): seq<Module<D>>
    decreases |added|
  {
    if added == [] then ms else AddAll(AddModule(ms, added[0]), added[1..])
  }

  lemma {:induction false} AddAllThenOne<D>(ms: seq<Module<D>>, added: seq<Module<D>>, m: Module<D>)
    ensures AddAll(ms, added + [m]) == AddModule(AddAll(ms, added), m)
    decreases |added|
  {
    hide AddModule;
    if added == [] {
      assert [m][1..] == [] && added + [m] == [m];
    } else {
      assert (added + [m])[1..] == added[1..] + [m];
      AddAllThenOne(AddModule(ms, added[0]), added[1..], m);
    }
  }

  /** The keys up to a position that the lowest key may be inserted at. */
  lemma LowestKeys(keys: seq<int>, j: nat)
    requires Sorted(keys) && j < |keys|
    requires forall k :: 0 <= k < j ==> keys[1..][k] <= keys[0]
    ensures Sorted(keys[1..])
    ensures forall k :: 0 <= k <= j ==> keys[k] == keys[0]
    ensures keys[..j] + keys[j + 1..] == keys[1..]
  {
    forall k | 0 < k <= j ensures keys[k] == keys[0] {
      assert keys[1..][k - 1] == keys[k];
    }
  }

  /** Where the search for the lowest start ends among the other modules. */
  lemma InsertionOfLowest<D>(ms: seq<Module<D>>)
    requires ms != [] && SortedModules(ms)
    ensures var j := InsertionIndex(ms[1..], ms[0].start);
      && Sorted(Starts(ms)[1..])
      && (forall k :: 0 <= k <= j ==> Starts(ms)[k] == ms[0].start)
      && Starts(ms)[..j] + Starts(ms)[j + 1..] == Starts(ms)[1..]
  {
    var keys, start := Starts(ms), ms[0].start;
    assert keys[1..] == Starts(ms[1..]) && keys[0] == start;
    hide Starts, BinarySearch, Sorted;
    LowestKeys(keys, 0);
    BinarySearchIsCorrect(keys[1..], start);
    SortedBounds(keys[1..], start, BinarySearch(keys[1..], start));
    LowestKeys(keys, InsertionIndex(ms[1..], start));
  }

  lemma StartsWithout<D>(ms: seq<Module<D>>, j: nat)
    requires j < |ms|
    ensures Starts(ms[..j] + ms[j + 1..]) == Starts(ms)[..j] + Starts(ms)[j + 1..]
    ensures Starts(ms)[j] == ms[j].start
  {
  }

  /** Only the starts decide where a module is inserted. */
  lemma InsertWhereItWas<D>(ms: seq<Module<D>>, rest: seq<Module<D>>, j: nat)
    requires j < |ms| && rest == ms[..j] + ms[j + 1..] && ms[j].start == ms[0].start
    requires Starts(rest) == Starts(ms[1..]) && j == InsertionIndex(ms[1..], ms[0].start)
    ensures AddModule(rest, ms[j]) == ms
  {
    hide BinarySearch, Starts;
    assert InsertionIndex(rest, ms[j].start) == j;
    assert rest[..j] == ms[..j] && rest[j..] == ms[j + 1..];
    assert ms[..j] + [ms[j]] + ms[j + 1..] == ms;
  }

  /** Some module of a sorted list may have been the last one added: among the modules of the lowest
      start, the one where the search for that start ends. */
  lemma LastAdded<D>(ms: seq<Module<D>>) returns (rest: seq<Module<D>>, m: Module<D>)
    requires ms != [] && SortedModules(ms)
    ensures |rest| == |ms| - 1 && SortedModules(rest) && AddModule(rest, m) == ms
  {
    InsertionOfLowest(ms);
    var j := InsertionIndex(ms[1..], ms[0].start);
    hide InsertionIndex, Sorted, AddModule;
    rest, m := ms[..j] + ms[j + 1..], ms[j];
    StartsWithout(ms, j);
    StartsWithout(ms, 0);
    assert ms[..0] + ms[1..] == ms[1..] && Starts(ms)[..0] + Starts(ms)[1..] == Starts(ms)[1..];
    hide Starts;
    InsertWhereItWas(ms, rest, j);
  }

  /** Every sorted list can be built by as many additions as it has modules. */
  lemma {:induction false} SortedIsBuilt<D>(ms: seq<Module<D>>) returns (added: seq<Module<D>>)
    requires SortedModules(ms)
    ensures |added| == |ms| && AddAll([], added) == ms
    decreases |ms|
  {
    added := [];
    if ms != [] {
      var rest, m := LastAdded(ms);
      var earlier := SortedIsBuilt(rest);
      AddAllThenOne([], earlier, m);
      added := earlier + [m];
    }
  }

  // ----- the search finds what a linear scan finds -----

  ghost predicate NonEmptyRanges<D>(ms: seq<Module<D>>) {
    forall i :: 0 <= i < |ms| ==> ms[i].start < ms[i].end
  }

  ghost predicate NonOverlapping<D>(ms: seq<Module<D>>) {
    forall i, j :: 0 <= i < j < |ms| ==> ms[i].end <= ms[j].start
  }

  /** The first module whose range contains the address. */
  function LinearScan<D>(ms: seq<Module<D>>, address: U64, from: nat): Option<nat>
    requires from <= |ms|
    decreases |ms| - from
  {
    if from == |ms| then None
    else if ms[from].start <= address < ms[from].end then Some(from)
    else LinearScan(ms, address, from + 1)
  }

  lemma {:induction false} LinearScanFinds<D>(ms: seq<Module<D>>, address: U64, from: nat, i: nat)
    requires from <= i < |ms| && ms[i].start <= address < ms[i].end
    requires forall j :: from <= j < i ==> !(ms[j].start <= address < ms[j].end)
    ensures LinearScan(ms, address, from) == Some(i)
    decreases |ms| - from
  {
    if from != i {
      LinearScanFinds(ms, address, from + 1, i);
    }
  }

  lemma {:induction false} LinearScanMisses<D>(ms: seq<Module<D>>, address: U64, from: nat)
    requires from <= |ms| && forall j :: from <= j < |ms| ==> !(ms[j].start <= address < ms[j].end)
    ensures LinearScan(ms, address, from) == None
    decreases |ms| - from
  {
    if from != |ms| {
      LinearScanMisses(ms, address, from + 1);
    }
  }

  /** The only candidate which a search result leaves. */
  function Candidate<D>(ms: seq<Module<D>>, address: U64): (r: Option<nat>)
    ensures r.Some? ==> r.value < |ms|
  {
    match BinarySearch(Starts(ms), address)
    case Found(i) => Some(i)
    case Missing(at) => if at == 0 || ms[at - 1].end <= address then None else Some(at - 1)
  }

  lemma CandidateIsLinearScan<D>(ms: seq<Module<D>>, address: U64)
    requires NonEmptyRanges(ms) && NonOverlapping(ms)
    ensures Candidate(ms, address) == LinearScan(ms, address, 0)
  {
    assert Sorted(Starts(ms));
    BinarySearchIsCorrect(Starts(ms), address);
    hide BinarySearch, Sorted;
    assert forall j :: 0 <= j < |ms| ==> ms[j].start == Starts(ms)[j];
    if Candidate(ms, address).Some? {
      LinearScanFinds(ms, address, 0, Candidate(ms, address).value);
    } else {
      LinearScanMisses(ms, address, 0);
    }
  }

  /** For non-empty, non-overlapping ranges the binary search finds the module that contains the
      address, if any does, subject to the checks on its base address. */
  lemma FindModuleIsLinearScan<D>(ms: seq<Module<D>>, address: U64)
    requires NonEmptyRanges(ms) && NonOverlapping(ms)
    ensures FindModule(ms, address) ==
      match LinearScan(ms, address, 0)
      case None => None
      case Some(i) =>
        if i < |ms| && RelativeTo(ms[i], address).Some? then Some((i, RelativeTo(ms[i], address).value)) else None
  {
    CandidateIsLinearScan(ms, address);
    hide BinarySearch, Starts, LinearScan, RelativeTo;
  }

  // ----- what the search may find at all -----

  /** Addresses that lead to the module when it is the only one. The search does not look at the end of a
      module whose start it has hit. */
  predicate Covers<D>(m: Module<D>, relative: U32) {
    var address := m.base + relative;
    FitsU64(address) && m.start <= address && (address < m.end || address == m.start)
  }

  lemma FoundIsCovered<D>(ms: seq<Module<D>>, address: U64)
    requires SortedModules(ms) && FindModule(ms, address).Some?
    ensures var (i, relative) := FindModule(ms, address).value;
      Covers(ms[i], relative) && ms[i].base + relative == address
  {
    BinarySearchIsCorrect(Starts(ms), address);
    hide BinarySearch, Sorted;
    assert forall j :: 0 <= j < |ms| ==> ms[j].start == Starts(ms)[j];
  }

  lemma CoveredIsFound<D>(m: Module<D>, relative: U32)
    requires Covers(m, relative)
    ensures SortedModules([m]) && FindModule([m], m.base + relative) == Some((0, relative))
  {
    var address := m.base + relative;
    assert Starts([m]) == [m.start as int];
    assert BinarySearch([m.start as int], address) == if m.start == address then Found(0) else Missing(1);
  }

  // ----- the pointer authentication mask for the known modules -----

  /** The greatest known address is the end of some module, and no module ends above it. */
  lemma MaxIsGreatestEnd<D>(ms: seq<Module<D>>)
    requires NonEmptyRanges(ms) && NonOverlapping(ms)
    ensures ms == [] ==> MaxKnownCodeAddress(ms) == 0
    ensures ms != [] ==> exists i :: 0 <= i < |ms| && ms[i].end == MaxKnownCodeAddress(ms)
    ensures forall i :: 0 <= i < |ms| ==> ms[i].end <= MaxKnownCodeAddress(ms)
  {
    if ms != [] {
      var last := |ms| - 1;
      assert ms[last].end == MaxKnownCodeAddress(ms);
      forall i | 0 <= i < |ms| ensures ms[i].end <= ms[last].end {
        assert i < last ==> ms[i].end <= ms[last].start;
      }
    }
  }

  /** The mask deduced from the last module's end leaves every address of every module alone, and
      removes any hash in the bits above. */
  lemma MaskKeepsModuleAddresses<D>(ms: seq<Module<D>>, i: nat, address: U64, hash: nat, ptr: U64)
    requires NonEmptyRanges(ms) && NonOverlapping(ms)
    requires i < |ms| && ms[i].start <= address < ms[i].end
    ensures FromMaxKnownAddress(MaxKnownCodeAddress(ms)).Some?
    ensures StripPtrAuth(FromMaxKnownAddress(MaxKnownCodeAddress(ms)).value, address) == address
    ensures ptr == hash * Pow2(BitLength(MaxKnownCodeAddress(ms))) + address ==>
      StripPtrAuth(FromMaxKnownAddress(MaxKnownCodeAddress(ms)).value, ptr) == address
  {
    var max := MaxKnownCodeAddress(ms);
    assert i < |ms| - 1 ==> ms[i].end <= ms[|ms| - 1].start;
    if ptr == hash * Pow2(BitLength(max)) + address {
      StripRemovesHash(max, address, hash, ptr);
    }
    StripKeepsExactlyShortAddresses(max, address);
  }
}
