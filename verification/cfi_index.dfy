/** The binary search table for the frame description entries (FDEs) of a module. */
module CfiIndex {
  import opened Words
  import opened Search

  /** Where an FDE's code starts, and where the FDE itself is in its section. */
  datatype Fde = Fde(initialAddress: U64, offset: nat)

  datatype IndexError = CouldNotSubtractBaseAddress | RelativeAddressTooBig | FdeOffsetTooBig

  /** A start relative to the base address, and an FDE offset. */
  datatype Pair = Pair(pc: U32, offset: U32)

  function ToPair(fde: Fde, base: U64): Result<Pair, IndexError> {
    if fde.initialAddress < base then Err(CouldNotSubtractBaseAddress)
    else if fde.initialAddress - base >= 0x1_0000_0000 then Err(RelativeAddressTooBig)
    else if fde.offset >= 0x1_0000_0000 then Err(FdeOffsetTooBig)
    else Ok(Pair(fde.initialAddress - base, fde.offset))
  }

  /** All pairs, or the first error. */
  function ToPairs(fdes: seq<Fde>, base: U64): (r: Result<seq<Pair>, IndexError>)
    ensures r.Ok? ==> |r.value| == |fdes|
  {
    if fdes == [] then Ok([])
    else
      var earlier :- ToPairs(fdes[..|fdes| - 1], base);
      var last :- ToPair(fdes[|fdes| - 1], base);
      Ok(earlier + [last])
  }

  // ----- sorting -----

  ghost predicate SortedPairs(ps: seq<Pair>) {
    forall i, j :: 0 <= i < j < |ps| ==> ps[i].pc <= ps[j].pc
  }

  /** Put `p` after every pair whose start is not greater. */
  function InsertPair(ps: seq<Pair>, p: Pair): seq<Pair> {
    if ps == [] || ps[|ps| - 1].pc <= p.pc then ps + [p]
    else InsertPair(ps[..|ps| - 1], p) + [ps[|ps| - 1]]
  }

  /** A stable sort by start address. */
  function SortByPc(ps: seq<Pair>): seq<Pair> {
    if ps == [] then [] else InsertPair(SortByPc(ps[..|ps| - 1]), ps[|ps| - 1])
  }

  ghost predicate AllUpTo(ps: seq<Pair>, bound: int) {
    forall i :: 0 <= i < |ps| ==> ps[i].pc <= bound
  }

  lemma AppendKeepsSorted(ps: seq<Pair>, p: Pair)
    ensures SortedPairs(ps + [p]) <==> SortedPairs(ps) && AllUpTo(ps, p.pc)
  {
    var all := ps + [p];
    assert all[|ps|] == p && forall i :: 0 <= i < |ps| ==> all[i] == ps[i];
  }

  lemma {:induction false} InsertPairPermutes(ps: seq<Pair>, p: Pair)
    ensures multiset(InsertPair(ps, p)) == multiset(ps) + multiset{p}
    decreases |ps|
  {
    if ps != [] && ps[|ps| - 1].pc > p.pc {
      assert ps == ps[..|ps| - 1] + [ps[|ps| - 1]];
      InsertPairPermutes(ps[..|ps| - 1], p);
    }
  }

  lemma {:induction false} InsertPairUpTo(ps: seq<Pair>, p: Pair, bound: int)
    requires AllUpTo(ps, bound) && p.pc <= bound
    ensures AllUpTo(InsertPair(ps, p), bound)
    decreases |ps|
  {
    if ps != [] && ps[|ps| - 1].pc > p.pc {
      InsertPairUpTo(ps[..|ps| - 1], p, bound);
    }
  }

  lemma {:induction false} InsertPairIsRight(ps: seq<Pair>, p: Pair)
    requires SortedPairs(ps)
    ensures SortedPairs(InsertPair(ps, p))
    ensures multiset(InsertPair(ps, p)) == multiset(ps) + multiset{p}
    decreases |ps|
  {
    InsertPairPermutes(ps, p);
    if ps == [] || ps[|ps| - 1].pc <= p.pc {
      AppendKeepsSorted(ps, p);
    } else {
      var front, last := ps[..|ps| - 1], ps[|ps| - 1];
      assert ps == front + [last];
      AppendKeepsSorted(front, last);
      InsertPairIsRight(front, p);
      InsertPairUpTo(front, p, last.pc);
      AppendKeepsSorted(InsertPair(front, p), last);
    }
  }

  lemma {:induction false} SortByPcIsRight(ps: seq<Pair>)
    ensures SortedPairs(SortByPc(ps))
    ensures multiset(SortByPc(ps)) == multiset(ps)
    decreases |ps|
  {
    if ps != [] {
      var front, last := ps[..|ps| - 1], ps[|ps| - 1];
      SortByPcIsRight(front);
      InsertPairIsRight(SortByPc(front), last);
      assert ps == front + [last];
    }
  }

  /** The pairs of one start address, in order. */
  function WithPc(ps: seq<Pair>, pc: U32): seq<Pair> {
    if ps == [] then []
    else WithPc(ps[..|ps| - 1], pc) + if ps[|ps| - 1].pc == pc then [ps[|ps| - 1]] else []
  }

  lemma {:induction false} InsertPairIsStable(ps: seq<Pair>, p: Pair, pc: U32)
    requires SortedPairs(ps)
    ensures WithPc(InsertPair(ps, p), pc) == WithPc(ps, pc) + if p.pc == pc then [p] else []
    decreases |ps|
  {
    if ps == [] || ps[|ps| - 1].pc <= p.pc {
      assert (ps + [p])[..|ps|] == ps;
    } else {
      var front, last := ps[..|ps| - 1], ps[|ps| - 1];
      InsertPairIsStable(front, p, pc);
      assert (InsertPair(front, p) + [last])[..|InsertPair(front, p)|] == InsertPair(front, p);
    }
  }

  /** FDEs with the same start keep their order. */
  lemma {:induction false} SortByPcIsStable(ps: seq<Pair>, pc: U32)
    ensures WithPc(SortByPc(ps), pc) == WithPc(ps, pc)
    decreases |ps|
  {
    if ps != [] {
      var front, last := ps[..|ps| - 1], ps[|ps| - 1];
      SortByPcIsStable(front, pc);
      SortByPcIsRight(front);
      InsertPairIsStable(SortByPc(front), last, pc);
    }
  }

  // ----- the index -----

  /** Two parallel vectors. */
  datatype Index = Index(pcs: seq<U32>, offsets: seq<U32>)

  function IndexOfPairs(ps: seq<Pair>): Index {
    Index(seq(|ps|, i requires 0 <= i < |ps| => ps[i].pc), seq(|ps|, i requires 0 <= i < |ps| => ps[i].offset))
  }

  /** `try_new`, once the entries of the section are parsed. */
  method TryNew(fdes: seq<Fde>, base: U64) returns (r: Result<Index, IndexError>)
    ensures match ToPairs(fdes, base)
      case Err(e) => r == Err(e)
      case Ok(ps) => r == Ok(IndexOfPairs(SortByPc(ps)))
  {
    var pairs: seq<Pair> := [];
    var i := 0;
    while i < |fdes|
      invariant 0 <= i <= |fdes|
      invariant ToPairs(fdes[..i], base) == Ok(pairs)
    {
      assert fdes[..i + 1][..i] == fdes[..i];
      var p := ToPair(fdes[i], base);
      if p.Err? {
        assert ToPairs(fdes[..i + 1], base) == Err(p.error);
        FirstErrorStays(fdes, base, i + 1);
        return Err(p.error);
      }
      pairs := pairs + [p.value];
      i := i + 1;
    }
    assert fdes[..i] == fdes;
    return Ok(IndexOfPairs(SortByPc(pairs)));
  }

  lemma {:induction false} FirstErrorStays(fdes: seq<Fde>, base: U64, i: nat)
    requires i <= |fdes| && ToPairs(fdes[..i], base).Err?
    ensures ToPairs(fdes, base) == ToPairs(fdes[..i], base)
    decreases |fdes| - i
  {
    if i == |fdes| {
      assert fdes[..i] == fdes;
    } else {
      assert fdes[..i + 1][..i] == fdes[..i];
      FirstErrorStays(fdes, base, i + 1);
    }
  }

  /** `fde_offset_for_relative_address` */
  function LookupOffset(index: Index, address: U32): Option<U32>
    requires |index.pcs| == |index.offsets|
  {
    match BinarySearch(index.pcs, address)
    case Found(i) => Some(index.offsets[i])
    case Missing(at) => if at == 0 then None else Some(index.offsets[at - 1])
  }

  /** An FDE that starts nearest below the address. */
  ghost predicate Nearest(p: Pair, ps: seq<Pair>, address: U32) {
    p in ps && p.pc <= address && forall q :: q in ps && q.pc <= address ==> q.pc <= p.pc
  }

  lemma KeysAreSorted(ps: seq<Pair>, keys: seq<int>)
    requires SortedPairs(ps) && |keys| == |ps| && forall i :: 0 <= i < |ps| ==> keys[i] == ps[i].pc
    ensures Sorted(keys)
  {
  }

  /** On the sorted pairs. */
  lemma LookupInSorted(ps: seq<Pair>, address: U32)
    requires SortedPairs(ps)
    ensures var r := LookupOffset(IndexOfPairs(ps), address);
      && (r.None? <==> forall q :: q in ps ==> address < q.pc)
      && (r.Some? ==> exists p :: Nearest(p, ps, address) && p.offset == r.value)
  {
    hide BinarySearch, Nearest, Sorted;
    var keys: seq<int> := IndexOfPairs(ps).pcs;
    KeysAreSorted(ps, keys);
    BinarySearchIsCorrect(keys, address);
    match BinarySearch(keys, address)
    case Found(i) => NearestInSorted(ps, i, address);
    case Missing(at) =>
      if at != 0 {
        NearestInSorted(ps, at - 1, address);
      }
  }

  lemma NearestInSorted(ps: seq<Pair>, i: nat, address: U32)
    requires SortedPairs(ps) && i < |ps| && ps[i].pc <= address
    requires ps[i].pc == address || forall j :: i < j < |ps| ==> address < ps[j].pc
    ensures Nearest(ps[i], ps, address)
    ensures exists p :: Nearest(p, ps, address) && p.offset == ps[i].offset
    ensures !forall q :: q in ps ==> address < q.pc
  {
    assert ps[i] in ps;
    forall q | q in ps && q.pc <= address ensures q.pc <= ps[i].pc {
      var j :| 0 <= j < |ps| && ps[j] == q;
    }
    assert Nearest(ps[i], ps, address);
  }

  // ----- in terms of the FDEs -----

  /** The base address can be subtracted from the FDE's start, and both numbers then fit u32. */
  predicate Indexable(fde: Fde, base: U64) {
    base <= fde.initialAddress < base + 0x1_0000_0000 && fde.offset < 0x1_0000_0000
  }

  /** The pair stands for the FDE. */
  predicate StandsFor(p: Pair, fde: Fde, base: U64) {
    base + p.pc == fde.initialAddress && p.offset == fde.offset
  }

  lemma PairStandsForFde(fde: Fde, base: U64)
    ensures ToPair(fde, base).Ok? <==> Indexable(fde, base)
    ensures ToPair(fde, base).Ok? ==> StandsFor(ToPair(fde, base).value, fde, base)
    ensures ToPair(fde, base) == Err(CouldNotSubtractBaseAddress) <==> fde.initialAddress < base
    ensures ToPair(fde, base) == Err(RelativeAddressTooBig) <==> fde.initialAddress >= base + 0x1_0000_0000
    ensures ToPair(fde, base) == Err(FdeOffsetTooBig) <==>
      base <= fde.initialAddress < base + 0x1_0000_0000 && fde.offset >= 0x1_0000_0000
  {
  }

  /** All FDEs can be indexed, pair by pair; or the first that cannot decides on the error. */
  lemma {:induction false} PairsStandForFdes(fdes: seq<Fde>, base: U64)
    ensures ToPairs(fdes, base).Ok? ==>
      && |ToPairs(fdes, base).value| == |fdes|
      && forall i :: 0 <= i < |fdes| ==>
           Indexable(fdes[i], base) && StandsFor(ToPairs(fdes, base).value[i], fdes[i], base)
    ensures ToPairs(fdes, base).Err? ==>
      exists i :: 0 <= i < |fdes| && (forall j :: 0 <= j < i ==> Indexable(fdes[j], base))
                  && !Indexable(fdes[i], base) && ToPair(fdes[i], base) == Err(ToPairs(fdes, base).error)
    decreases |fdes|
  {
    if fdes != [] {
      var n := |fdes| - 1;
      var earlier := fdes[..n];
      PairsStandForFdes(earlier, base);
      PairStandsForFde(fdes[n], base);
      hide ToPair, Indexable, StandsFor;
      assert forall i :: 0 <= i < n ==> earlier[i] == fdes[i];
      if ToPairs(earlier, base).Err? {
        var i :| 0 <= i < n && (forall j :: 0 <= j < i ==> Indexable(earlier[j], base))
                 && !Indexable(earlier[i], base) && ToPair(earlier[i], base) == Err(ToPairs(earlier, base).error);
        assert fdes[i] == earlier[i] && forall j :: 0 <= j < i ==> Indexable(fdes[j], base);
      }
    }
  }

  /** Construction succeeds if and only if all FDEs can be indexed. Otherwise its error is that of the first FDE
      which cannot. */
  lemma ConstructionSucceedsExactly(fdes: seq<Fde>, base: U64)
    ensures ToPairs(fdes, base).Ok? <==> forall i :: 0 <= i < |fdes| ==> Indexable(fdes[i], base)
    ensures ToPairs(fdes, base).Err? ==>
      exists i :: 0 <= i < |fdes| && (forall j :: 0 <= j < i ==> Indexable(fdes[j], base))
                  && !Indexable(fdes[i], base) && ToPair(fdes[i], base) == Err(ToPairs(fdes, base).error)
  {
    hide ToPairs, ToPair, Indexable, StandsFor;
    PairsStandForFdes(fdes, base);
  }

  /** The FDE starts at or below the address, and no other starts later and still at or below it. */
  ghost predicate NearestFde(fde: Fde, fdes: seq<Fde>, address: int) {
    && fde in fdes && fde.initialAddress <= address
    && forall other :: other in fdes && other.initialAddress <= address ==> other.initialAddress <= fde.initialAddress
  }

  /** A nearest pair stands for a nearest FDE. */
  lemma NearestPairIsNearestFde(fdes: seq<Fde>, ps: seq<Pair>, base: U64, p: Pair, address: U32)
    requires |ps| == |fdes| && forall i :: 0 <= i < |fdes| ==> StandsFor(ps[i], fdes[i], base)
    requires Nearest(p, ps, address)
    ensures exists fde :: NearestFde(fde, fdes, base + address) && fde.offset == p.offset
  {
    var k :| 0 <= k < |ps| && ps[k] == p;
    assert StandsFor(ps[k], fdes[k], base);
    forall other | other in fdes && other.initialAddress <= base + address
      ensures other.initialAddress <= fdes[k].initialAddress
    {
      var i :| 0 <= i < |fdes| && fdes[i] == other;
      assert StandsFor(ps[i], fdes[i], base) && ps[i] in ps;
    }
    assert NearestFde(fdes[k], fdes, base + address);
  }

  /** The lookup in a constructed index, in terms of the FDEs it was made from: the offset of an FDE with the
      greatest start not above the address, or nothing exactly if all start above it. */
  lemma IndexFindsNearest(fdes: seq<Fde>, base: U64, address: U32)
    requires ToPairs(fdes, base).Ok?
    ensures var r := LookupOffset(IndexOfPairs(SortByPc(ToPairs(fdes, base).value)), address);
      && (r.None? <==> forall fde :: fde in fdes ==> base + address < fde.initialAddress)
      && (r.Some? ==> exists fde :: NearestFde(fde, fdes, base + address) && fde.offset == r.value)
  {
    var ps := ToPairs(fdes, base).value;
    PairsStandForFdes(fdes, base);
    IndexFindsNearestPair(ps, address);
    hide ToPairs, SortByPc, Nearest, NearestFde;
    var r := LookupOffset(IndexOfPairs(SortByPc(ps)), address);
    if r.Some? {
      var p :| Nearest(p, ps, address) && p.offset == r.value;
      NearestPairIsNearestFde(fdes, ps, base, p, address);
    }
    AboveAlike(fdes, ps, base, address);
  }

  lemma AboveAlike(fdes: seq<Fde>, ps: seq<Pair>, base: U64, address: U32)
    requires |ps| == |fdes| && forall i :: 0 <= i < |fdes| ==> StandsFor(ps[i], fdes[i], base)
    ensures (forall q :: q in ps ==> address < q.pc) <==>
      forall fde :: fde in fdes ==> base + address < fde.initialAddress
  {
    if forall q :: q in ps ==> address < q.pc {
      forall fde | fde in fdes ensures base + address < fde.initialAddress {
        var i :| 0 <= i < |fdes| && fdes[i] == fde;
        assert StandsFor(ps[i], fdes[i], base) && ps[i] in ps;
      }
    }
    if forall fde :: fde in fdes ==> base + address < fde.initialAddress {
      forall q | q in ps ensures address < q.pc {
        var i :| 0 <= i < |ps| && ps[i] == q;
        assert StandsFor(ps[i], fdes[i], base) && fdes[i] in fdes;
      }
    }
  }

  /** The same on pairs: the two vectors are a sorted permutation of them. */
  lemma IndexFindsNearestPair(ps: seq<Pair>, address: U32)
    ensures var sorted := SortByPc(ps);
      var r := LookupOffset(IndexOfPairs(sorted), address);
      && SortedPairs(sorted) && multiset(sorted) == multiset(ps)
      && (r.None? <==> forall q :: q in ps ==> address < q.pc)
      && (r.Some? ==> exists p :: Nearest(p, ps, address) && p.offset == r.value)
  {
    var sorted := SortByPc(ps);
    SortByPcIsRight(ps);
    LookupInSorted(sorted, address);
    forall q ensures q in ps <==> q in sorted {
      assert q in multiset(ps) <==> q in multiset(sorted);
    }
    var r := LookupOffset(IndexOfPairs(sorted), address);
    if r.Some? {
      var p :| Nearest(p, sorted, address) && p.offset == r.value;
      assert Nearest(p, ps, address);
    }
  }
}
