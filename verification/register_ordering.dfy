/** The mixed-radix code for the order in which callee-saved registers are popped: the digit of
    weight n(n-1)... is the position of the next register among those not popped yet. */
module RegisterOrdering {
  import opened Words

  function Factorial(n: nat): (f: nat)
    ensures 1 <= f
  {
    if n == 0 then 1 else n * Factorial(n - 1)
  }

  predicate Distinct<T(==)>(s: seq<T>) {
    forall i, j :: 0 <= i < j < |s| ==> s[i] != s[j]
  }

  function IndexOf<T(==)>(s: seq<T>, x: T): (r: Option<nat>)
    ensures r.None? <==> x !in s
    ensures r.Some? ==> r.value < |s| && s[r.value] == x
  {
    if s == [] then None
    else if s[0] == x then Some(0)
    else
      var i :- IndexOf(s[1..], x);
      Some(i + 1)
  }

  /** Exchange the first element with the one at `i`. */
  function SwapToFront<T>(s: seq<T>, i: nat): (r: seq<T>)
    requires i < |s|
    ensures |r| == |s| && r[0] == s[i]
  {
    s[0 := s[i]][i := s[0]]
  }

  /** The elements other than the one at `i`, in the order in which the code leaves them. */
  function Remaining<T>(s: seq<T>, i: nat): (r: seq<T>)
    requires i < |s|
    ensures |r| == |s| - 1
  {
    SwapToFront(s, i)[1..]
  }

  /** A number by its lowest digit in base `n` and the number that its other digits make. */
  function Digits(low: nat, n: nat, high: nat): nat { low + n * high }

  function LowDigit(code: nat, n: nat): (low: nat)
    requires 0 < n
    ensures low < n
  {
    code % n
  }

  function HighDigits(code: nat, n: nat): nat
    requires 0 < n
  {
    code / n
  }

  function EncodeIn<T(==)>(table: seq<T>, list: seq<T>): Option<nat>
    decreases |list|
  {
    if list == [] then Some(0)
    else
      var i :- IndexOf(table, list[0]);
      var rest :- EncodeIn(Remaining(table, i), list[1..]);
      Some(Digits(i, |table|, rest))
  }

  /** `None` is the division by zero which the source runs into once the table is used up. */
  function DecodeIn<T>(table: seq<T>, code: nat): (r: Option<seq<T>>)
    ensures r.Some? ==> |r.value| == |table|
    decreases |table|
  {
    if code == 0 then Some(table)
    else if table == [] then None
    else
      var i := LowDigit(code, |table|);
      var rest :- DecodeIn(Remaining(table, i), HighDigits(code, |table|));
      Some([table[i]] + rest)
  }

  // ----- the table keeps its elements -----

  lemma RemainingElements<T>(s: seq<T>, i: nat, x: T)
    requires i < |s| && Distinct(s)
    ensures Distinct(Remaining(s, i))
    ensures x in Remaining(s, i) <==> x in s && x != s[i]
  {
    var t := SwapToFront(s, i);
    assert Distinct(t);
    assert Remaining(s, i) == t[1..];
    if x in s && x != s[i] {
      var k :| 0 <= k < |s| && s[k] == x;
      if k == 0 {
        assert t[i] == x && Remaining(s, i)[i - 1] == x;
      } else {
        assert t[k] == x && Remaining(s, i)[k - 1] == x;
      }
    }
    if x in Remaining(s, i) {
      var k :| 0 <= k < |s| - 1 && t[k + 1] == x;
      assert x == if k + 1 == i then s[0] else s[k + 1];
      assert x in s;
    }
  }

  lemma IndexInDistinct<T>(s: seq<T>, i: nat)
    requires i < |s| && Distinct(s)
    ensures IndexOf(s, s[i]) == Some(i)
  {
    var j := IndexOf(s, s[i]).value;
    assert s[j] == s[i];
  }

  // ----- main results, for a table of any size -----

  /** A list can be encoded exactly if it repeats nothing and draws on the table only. */
  lemma {:induction false} EncodableExactly<T>(table: seq<T>, list: seq<T>)
    requires Distinct(table)
    ensures EncodeIn(table, list).Some? <==> Distinct(list) && forall x :: x in list ==> x in table
    decreases |list|
  {
    if list != [] {
      var head, tail := list[0], list[1..];
      assert list == [head] + tail;
      if head in table {
        var i := IndexOf(table, head).value;
        RemainingElements(table, i, head);
        EncodableExactly(Remaining(table, i), tail);
        forall x ensures x in Remaining(table, i) <==> x in table && x != head {
          RemainingElements(table, i, x);
        }
        assert Distinct(list) <==> Distinct(tail) && head !in tail;
      } else {
        assert head in list;
      }
    }
  }

  // ----- arithmetic of digits -----

  lemma {:induction false} MulStep(n: nat, a: nat, b: nat)
    ensures a < b ==> n * a + n <= n * b
    decreases b
  {
    if a < b {
      MulStep(n, a, b - 1);
      assert n * b == n * (b - 1) + n;
    }
  }

  /** The digits determine the number and the number its digits. */
  lemma DigitsAreUnique(low: nat, n: nat, high: nat)
    requires low < n
    ensures LowDigit(Digits(low, n, high), n) == low
    ensures HighDigits(Digits(low, n, high), n) == high
    ensures Digits(low, n, high) == 0 <==> low == 0 && high == 0
  {
    var code := Digits(low, n, high);
    assert code == n * (code / n) + code % n;
    MulStep(n, code / n, high);
    MulStep(n, high, code / n);
    MulStep(n, 0, high);
  }

  lemma NumberOfDigits(code: nat, n: nat)
    requires 0 < n
    ensures Digits(LowDigit(code, n), n, HighDigits(code, n)) == code
  {
  }

  lemma DigitsBelowFactorial(low: nat, n: nat, high: nat)
    requires low < n
    ensures Digits(low, n, high) < Factorial(n) <==> high < Factorial(n - 1)
  {
    MulStep(n, high, Factorial(n - 1));
    MulStep(n, Factorial(n - 1), high);
  }

  // ----- codes -----

  /** Codes are below the factorial of the table size. */
  lemma {:induction false} CodeBelowFactorial<T>(table: seq<T>, list: seq<T>)
    requires EncodeIn(table, list).Some?
    ensures EncodeIn(table, list).value < Factorial(|table|)
    decreases |list|
  {
    hide Digits, Factorial;
    if list != [] {
      var i := IndexOf(table, list[0]).value;
      CodeBelowFactorial(Remaining(table, i), list[1..]);
      DigitsBelowFactorial(i, |table|, EncodeIn(Remaining(table, i), list[1..]).value);
    }
  }

  /** Decoding undoes encoding. */
  lemma {:induction false} DecodeUndoesEncode<T>(table: seq<T>, list: seq<T>)
    requires EncodeIn(table, list).Some?
    ensures |list| <= |table|
    ensures DecodeIn(table, EncodeIn(table, list).value).Some?
    ensures DecodeIn(table, EncodeIn(table, list).value).value[..|list|] == list
    decreases |list|
  {
    hide Digits, LowDigit, HighDigits;
    if list != [] {
      var i := IndexOf(table, list[0]).value;
      var rest := EncodeIn(Remaining(table, i), list[1..]).value;
      var code := Digits(i, |table|, rest);
      DecodeUndoesEncode(Remaining(table, i), list[1..]);
      DigitsAreUnique(i, |table|, rest);
      var tail := DecodeIn(Remaining(table, i), rest).value;
      if code == 0 {
        assert tail == table[1..];
      }
      assert DecodeIn(table, code).value == [table[i]] + tail;
      assert ([table[i]] + tail)[..|list|] == [table[i]] + tail[..|list| - 1];
      assert list == [list[0]] + list[1..];
    }
  }

  /** Decoding divides by zero exactly on the codes which no list has. */
  lemma {:induction false} DecodableExactly<T>(table: seq<T>, code: nat)
    ensures DecodeIn(table, code).Some? <==> code < Factorial(|table|)
    decreases |table|
  {
    if code != 0 && table != [] {
      hide LowDigit, HighDigits, Digits;
      var n := |table|;
      var low, high := LowDigit(code, n), HighDigits(code, n);
      DecodableExactly(Remaining(table, low), high);
      NumberOfDigits(code, n);
      DigitsBelowFactorial(low, n, high);
      assert DecodeIn(table, code).Some? <==> high < Factorial(n - 1);
    }
  }

  /** Decoding reorders the table. */
  lemma {:induction false} DecodePermutes<T>(table: seq<T>, code: nat)
    requires DecodeIn(table, code).Some?
    ensures multiset(DecodeIn(table, code).value) == multiset(table)
    decreases |table|
  {
    hide LowDigit, HighDigits;
    if code != 0 {
      var i := LowDigit(code, |table|);
      var swapped := SwapToFront(table, i);
      DecodePermutes(Remaining(table, i), HighDigits(code, |table|));
      assert swapped == [table[i]] + Remaining(table, i);
      assert multiset(swapped) == multiset(table);
    }
  }

  /** Encoding undoes decoding: every code below the factorial is the code of one full ordering. */
  lemma {:induction false} EncodeUndoesDecode<T>(table: seq<T>, code: nat)
    requires Distinct(table) && DecodeIn(table, code).Some?
    ensures EncodeIn(table, DecodeIn(table, code).value) == Some(code)
    decreases |table|
  {
    hide LowDigit, HighDigits, Digits;
    if table != [] {
      var n := |table|;
      var i, rest := LowDigit(code, n), HighDigits(code, n);
      NumberOfDigits(code, n);
      DigitsAreUnique(i, n, rest);
      var list := DecodeIn(table, code).value;
      if code == 0 {
        assert Remaining(table, 0) == table[1..];
      }
      assert list[0] == table[i] && list[1..] == DecodeIn(Remaining(table, i), rest).value;
      IndexInDistinct(table, i);
      RemainingElements(table, i, table[i]);
      EncodeUndoesDecode(Remaining(table, i), rest);
    }
  }

  /** The lowest digit of a code is the position of the first register in the table, and the other digits are
      the code of the rest, in what is left of the table. */
  lemma FirstDigit<T>(table: seq<T>, list: seq<T>, i: nat)
    requires Distinct(table) && list != [] && i < |table| && table[i] == list[0]
    requires EncodeIn(table, list).Some?
    ensures EncodeIn(table, list).value % |table| == i
    ensures EncodeIn(Remaining(table, i), list[1..]) == Some(EncodeIn(table, list).value / |table|)
  {
    IndexInDistinct(table, i);
    DigitsAreUnique(i, |table|, EncodeIn(Remaining(table, i), list[1..]).value);
  }

  // ----- the loops of encoding and decoding -----

  /** What is decoded already, and decoding what is left of the table, make up the whole. */
  ghost predicate DecodesTo<T>(done: seq<T>, table: seq<T>, r: nat, whole: seq<T>) {
    DecodeIn(table, r).Some? && done + DecodeIn(table, r).value == whole
  }

  lemma DecodesNext<T>(done: seq<T>, table: seq<T>, r: nat, whole: seq<T>)
    requires r != 0 && DecodesTo(done, table, r, whole)
    ensures 0 < |table|
    ensures var i := LowDigit(r, |table|);
      DecodesTo(done + [table[i]], Remaining(table, i), HighDigits(r, |table|), whole)
  {
    var i := LowDigit(r, |table|);
    var rest := DecodeIn(Remaining(table, i), HighDigits(r, |table|)).value;
    assert done + ([table[i]] + rest) == done + [table[i]] + rest;
  }

  lemma DecodesEnd<T>(done: seq<T>, table: seq<T>, whole: seq<T>)
    requires DecodesTo(done, table, 0, whole)
    ensures done + table == whole
  {
  }

  /** A product, by name, so that proofs about sequences need not look into it. */
  function Times(a: nat, b: nat): nat { a * b }

  /** Digits found so far, and the number which further digits of the given scale make. */
  function Scaled(r: nat, scale: nat, code: nat): nat { r + scale * code }

  lemma ScaledDigits(r: nat, scale: nat, index: nat, n: nat, high: nat)
    ensures Scaled(r, scale, Digits(index, n, high)) == Scaled(r + Times(index, scale), Times(scale, n), high)
  {
    assert scale * (index + n * high) == index * scale + scale * (n * high);
    assert scale * (n * high) == scale * n * high;
  }

  /** What is left to encode adds its code, scaled, to the digits found so far. */
  ghost predicate EncodesTo(r: nat, scale: nat, rest: Option<nat>, whole: Option<nat>) {
    whole == if rest.Some? then Some(Scaled(r, scale, rest.value)) else None
  }

  lemma EncodesNext(r: nat, scale: nat, index: nat, n: nat, rest: Option<nat>, whole: Option<nat>)
    requires EncodesTo(r, scale, if rest.Some? then Some(Digits(index, n, rest.value)) else None, whole)
    ensures EncodesTo(r + Times(index, scale), Times(scale, n), rest, whole)
  {
    if rest.Some? {
      ScaledDigits(r, scale, index, n, rest.value);
      hide Scaled, Digits, Times;
    }
  }

  lemma EncodeInStep<T>(table: seq<T>, list: seq<T>)
    requires list != []
    ensures var i := IndexOf(table, list[0]);
      EncodeIn(table, list) ==
        if i.None? || EncodeIn(Remaining(table, i.value), list[1..]).None? then None
        else Some(Digits(i.value, |table|, EncodeIn(Remaining(table, i.value), list[1..]).value))
  {
    hide Digits, Remaining, IndexOf;
  }

  lemma DigitFits(r: nat, scale: nat, index: nat, n: nat)
    requires r < scale && index < n
    ensures r + Times(index, scale) < Times(scale, n)
  {
    MulStep(scale, index, n);
  }
}
