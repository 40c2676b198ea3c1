/** Pointer authentication masks for aarch64 return addresses. */
module PtrAuth {
  import opened Words

  /** Bitwise `&` on naturals. */
  function BitAnd(a: nat, b: nat): (r: nat)
    ensures r <= a && r <= b
  {
    if a == 0 || b == 0 then 0
    else 2 * BitAnd(a / 2, b / 2) + (if a % 2 == 1 && b % 2 == 1 then 1 else 0)
  }

  function Pow2(k: nat): (p: nat)
    ensures 1 <= p
  {
    if k == 0 then 1 else 2 * Pow2(k - 1)
  }

  /** Logical `>>` on naturals. */
  function ShiftRight(x: nat, n: nat): (r: nat)
    ensures r <= x
    decreases n
  {
    if n == 0 then x else ShiftRight(x / 2, n - 1)
  }

  /** The number of significant bits. */
  function BitLength(a: nat): (n: nat)
    ensures a < Pow2(n)
    ensures 0 < a ==> 0 < n && Pow2(n - 1) <= a
  {
    if a == 0 then 0 else 1 + BitLength(a / 2)
  }

  lemma {:induction false} BitLengthAtMost(a: nat, n: nat)
    requires a < Pow2(n)
    ensures BitLength(a) <= n
    decreases n
  {
    if a != 0 {
      BitLengthAtMost(a / 2, n - 1);
    }
  }

  lemma {:induction false} Pow2Sum(m: nat, n: nat)
    ensures Pow2(m + n) == Pow2(m) * Pow2(n)
    decreases m
  {
    if m != 0 {
      Pow2Sum(m - 1, n);
      assert 2 * (Pow2(m - 1) * Pow2(n)) == 2 * Pow2(m - 1) * Pow2(n);
    }
  }

  lemma Pow2Of64()
    ensures Pow2(64) == 0x1_0000_0000_0000_0000
  {
    assert Pow2(4) == 16;
    hide Pow2;
    Pow2Sum(4, 4);
    Pow2Sum(8, 8);
    Pow2Sum(16, 16);
    Pow2Sum(32, 32);
  }

  function LeadingZeros(a: U64): (n: nat)
    ensures n <= 64
  {
    Pow2Of64(); BitLengthAtMost(a, 64);
    64 - BitLength(a)
  }

  /** `u64::MAX >> address.leading_zeros()`. The shift amount is 64 for address zero, which is an
      arithmetic overflow in Rust; `None` stands for it. */
  function FromMaxKnownAddress(address: U64): Option<U64> {
    if LeadingZeros(address) == 64 then None
    else Some(ShiftRight(0xffff_ffff_ffff_ffff, LeadingZeros(address)))
  }

  function StripPtrAuth(mask: U64, ptr: U64): U64 {
    BitAnd(ptr, mask)
  }

  lemma {:induction false} ShiftRightOfAllOnes(n: nat, k: nat)
    ensures ShiftRight(Pow2(n + k) - 1, n) == Pow2(k) - 1
    decreases n
  {
    if n != 0 {
      ShiftRightOfAllOnes(n - 1, k);
      assert (Pow2(n + k) - 1) / 2 == Pow2(n + k - 1) - 1;
    }
  }

  /** A mask of `k` low ones keeps exactly the low `k` bits, whatever stands above them. */
  lemma {:induction false} LowMaskKeepsLowBits(hash: nat, low: nat, k: nat)
    requires low < Pow2(k)
    ensures BitAnd(hash * Pow2(k) + low, Pow2(k) - 1) == low
    decreases k
  {
    if k != 0 {
      var p := Pow2(k - 1);
      var x, m := hash * Pow2(k) + low, Pow2(k) - 1;
      assert x == 2 * (hash * p) + low;
      LowMaskKeepsLowBits(hash, low / 2, k - 1);
      assert x / 2 == hash * p + low / 2 && m / 2 == p - 1;
      assert x % 2 == low % 2 && m % 2 == 1;
    }
  }

  /** Stripping twice is stripping once, for every mask. */
  lemma {:induction false} StripIsIdempotent(mask: nat, ptr: nat)
    ensures BitAnd(BitAnd(ptr, mask), mask) == BitAnd(ptr, mask)
    decreases ptr
  {
    if ptr != 0 && mask != 0 {
      StripIsIdempotent(mask / 2, ptr / 2);
    }
  }

  lemma AllOnesStripNothing(x: U64)
    ensures StripPtrAuth(0xffff_ffff_ffff_ffff, x) == x
  {
    Pow2Of64();
    LowMaskKeepsLowBits(0, x, 64);
  }

  /** Bit number `i`. */
  function Bit(a: nat, i: nat): bool
    decreases i
  {
    if i == 0 then a % 2 == 1 else Bit(a / 2, i - 1)
  }

  /** Stripping keeps a bit exactly if the mask has it, for every mask. */
  lemma {:induction false} StripKeepsMaskedBits(mask: nat, ptr: nat, i: nat)
    ensures Bit(BitAnd(ptr, mask), i) <==> Bit(ptr, i) && Bit(mask, i)
    decreases i
  {
    if ptr == 0 || mask == 0 {
      NoBits(i);
    } else if i != 0 {
      StripKeepsMaskedBits(mask / 2, ptr / 2, i - 1);
      assert BitAnd(ptr, mask) / 2 == BitAnd(ptr / 2, mask / 2);
    }
  }

  lemma {:induction false} NoBits(i: nat)
    ensures !Bit(0, i)
    decreases i
  {
    if i != 0 {
      NoBits(i - 1);
    }
  }

  /** The mask deduced from a maximum reserves exactly its leading zero bits: it is 2^n - 1 for the
      n significant bits of the maximum. It exists exactly when the maximum is not zero. */
  lemma MaskFromMaximum(max: U64)
    ensures FromMaxKnownAddress(max).Some? <==> max != 0
    ensures max != 0 ==> FromMaxKnownAddress(max).value == Pow2(BitLength(max)) - 1
  {
    Pow2Of64(); BitLengthAtMost(max, 64);
    ShiftRightOfAllOnes(LeadingZeros(max), BitLength(max));
  }

  /** An address up to the maximum survives any hash placed in the reserved bits above it. */
  lemma StripRemovesHash(max: U64, address: U64, hash: nat, ptr: U64)
    requires max != 0 && address <= max
    requires ptr == hash * Pow2(BitLength(max)) + address
    ensures FromMaxKnownAddress(max).Some?
    ensures StripPtrAuth(FromMaxKnownAddress(max).value, ptr) == address
  {
    hide BitAnd, BitLength, Pow2, FromMaxKnownAddress;
    MaskFromMaximum(max);
    LowMaskKeepsLowBits(hash, address, BitLength(max));
  }

  /** Stripping leaves an address alone exactly when it needs none of the reserved bits. */
  lemma StripKeepsExactlyShortAddresses(max: U64, address: U64)
    requires max != 0
    ensures FromMaxKnownAddress(max).Some?
    ensures StripPtrAuth(FromMaxKnownAddress(max).value, address) == address <==> address < Pow2(BitLength(max))
  {
    MaskFromMaximum(max);
    if address < Pow2(BitLength(max)) {
      LowMaskKeepsLowBits(0, address, BitLength(max));
    }
  }
}
