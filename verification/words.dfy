/** Machine integers as the source uses them: bounded types, wrapping and checked arithmetic.
    Everything is stated over unbounded `int`, so a wrap-around is always written out. */
module Words {
  const TWO64: int := 0x1_0000_0000_0000_0000

  type U8 = x: int | 0 <= x < 0x100
  type U16 = x: int | 0 <= x < 0x1_0000
  type I16 = x: int | -0x8000 <= x < 0x8000
  type U32 = x: int | 0 <= x < 0x1_0000_0000
  type I32 = x: int | -0x8000_0000 <= x < 0x8000_0000
  type U64 = x: int | 0 <= x < 0x1_0000_0000_0000_0000
  type I64 = x: int | -0x8000_0000_0000_0000 <= x < 0x8000_0000_0000_0000

  predicate FitsU16(x: int) { 0 <= x < 0x1_0000 }

  predicate FitsI16(x: int) { -0x8000 <= x < 0x8000 }

  predicate FitsI32(x: int) { -0x8000_0000 <= x < 0x8000_0000 }

  predicate FitsU64(x: int) { 0 <= x < 0x1_0000_0000_0000_0000 }

  predicate FitsI64(x: int) { -0x8000_0000_0000_0000 <= x < 0x8000_0000_0000_0000 }

  /** Rust's `/ 8` on a signed integer: truncation toward zero. */
  function TruncDiv8(a: int): (q: int)
    ensures 0 <= a ==> 8 * q <= a < 8 * q + 8
    ensures a < 0 ==> 8 * q - 8 < a <= 8 * q
    ensures a % 8 == 0 <==> 8 * q == a
  {
    if 0 <= a then a / 8 else -((-a) / 8)
  }

  /** Rust's `/ 16` on a signed integer: truncation toward zero. */
  function TruncDiv16(a: int): (q: int)
    ensures 0 <= a ==> 16 * q <= a < 16 * q + 16
    ensures a < 0 ==> 16 * q - 16 < a <= 16 * q
    ensures a % 16 == 0 <==> 16 * q == a
  {
    if 0 <= a then a / 16 else -((-a) / 16)
  }

  function WrapU16(x: int): U16 { x % 0x1_0000 }

  function WrapU64(x: int): U64 { x % 0x1_0000_0000_0000_0000 }

  /** Two's complement wrap-around of a signed 16-bit value. */
  function WrapI16(x: int): (r: I16)
    ensures FitsI16(x) ==> r == x
  {
    (x + 0x8000) % 0x1_0000 - 0x8000
  }

  /** Two's complement wrap-around of a signed 32-bit value. */
  function WrapI32(x: int): (r: I32)
    ensures FitsI32(x) ==> r == x
  {
    (x + 0x8000_0000) % 0x1_0000_0000 - 0x8000_0000
  }

  /** Two's complement wrap-around of a signed 64-bit value. */
  function WrapI64(x: int): (r: I64)
    ensures FitsI64(x) ==> r == x
  {
    (x + 0x8000_0000_0000_0000) % 0x1_0000_0000_0000_0000 - 0x8000_0000_0000_0000
  }

  datatype Option<+T> = None | Some(value: T) {
    predicate IsFailure() { None? }

    function PropagateFailure<U>(): Option<U>
      requires None?
    {
      None
    }

    function Extract(): T
      requires Some?
    {
      value
    }

    function UnwrapOr(fallback: T): T {
      if Some? then value else fallback
    }
  }

  datatype Result<+T, +E> = Ok(value: T) | Err(error: E) {
    predicate IsFailure() { Err? }

    function PropagateFailure<U>(): Result<U, E>
      requires Err?
    {
      Err(error)
    }

    function Extract(): T
      requires Ok?
    {
      value
    }
  }

  /** `wrapping_add_signed`: the signed operand is cast to u64 and added modulo 2^64. */
  function WrappingAddSigned(lhs: U64, rhs: I64): U64 {
    WrapU64(lhs + WrapU64(rhs))
  }

  /** `checked_add_signed`: the overflow test compares the wrapped sum with the left operand.
      It is exact integer addition, and fails exactly when that sum leaves the u64 range. */
  function CheckedAddSigned(lhs: U64, rhs: I64): (r: Option<U64>)
    ensures r == if FitsU64(lhs + rhs) then Some(lhs + rhs) else None
  {
    var res := WrappingAddSigned(lhs, rhs);
    if (rhs >= 0 && res >= lhs) || (rhs < 0 && res < lhs) then Some(res) else None
  }

  /** Address arithmetic of a 64-bit CPU: addition modulo 2^64. */
  function AddMod64(x: U64, d: I64): (r: U64)
    ensures FitsU64(x + d) ==> r == x + d
  {
    if x + d < 0 then x + d + 0x1_0000_0000_0000_0000
    else if x + d < 0x1_0000_0000_0000_0000 then x + d
    else x + d - 0x1_0000_0000_0000_0000
  }

  lemma AddMod64IsModular(x: U64, d: I64)
    ensures AddMod64(x, d) == WrapU64(x + d)
  {
  }

  lemma AddMod64Associates(x: U64, d: I64, e: I64)
    requires FitsI64(d + e)
    ensures AddMod64(AddMod64(x, d), e) == AddMod64(x, d + e)
  {
  }

  function CheckedAdd(lhs: U64, rhs: U64): Option<U64> {
    if FitsU64(lhs + rhs) then Some(lhs + rhs) else None
  }
}

/** What both architectures share: the readable stack, errors and frame addresses. */
module Frames {
  import opened Words

  datatype Error =
    | CouldNotReadStack(address: U64)
    | FramepointerUnwindingMovedBackwards
    | DidNotAdvance
    | IntegerOverflow
    | ReturnAddressIsNull

  /** The `read_stack` callback: the address space is finite, so a partial function on it is a map.
      An address outside the map is one the callback refuses to read. */
  type Stack = map<U64, U64>

  function ReadStack(stack: Stack, address: U64): Result<U64, Error> {
    if address in stack then Ok(stack[address]) else Err(CouldNotReadStack(address))
  }

  /** A memory in which every slot can be read, and every slot of the lowest quarter holds another value: its
      own address plus 2^62. */
  ghost function FarAddresses(): (stack: Stack)
    ensures forall a: U64 :: a in stack && stack[a] == Far(a)
  {
    map a: U64 | 0 <= a < TWO64 && FitsU64(a) :: Far(a) as U64
  }

  function Far(a: int): int {
    if a < 0x4000_0000_0000_0000 then a + 0x4000_0000_0000_0000 else a
  }

  /** `Ok(Some(ra))` is a caller, `Ok(None)` the end of the stack. */
  type StepResult = Result<Option<U64>, Error>

  function AddOrOverflow(lhs: U64, rhs: U64): Result<U64, Error> {
    match CheckedAdd(lhs, rhs)
    case Some(v) => Ok(v)
    case None => Err(IntegerOverflow)
  }

  function AddSignedOrOverflow(lhs: U64, rhs: I64): Result<U64, Error> {
    match CheckedAddSigned(lhs, rhs)
    case Some(v) => Ok(v)
    case None => Err(IntegerOverflow)
  }

  datatype FrameAddress = InstructionPointer(ip: U64) | ReturnAddress(ra: U64)
  {
    /** The return address of the source is a `NonZeroU64`. */
    predicate Valid() { ReturnAddress? ==> ra != 0 }

    predicate IsReturnAddress() { ReturnAddress? }

    /** A return address is looked up one byte earlier, inside the call instruction. */
    function AddressForLookup(): U64
      requires Valid()
    {
      if ReturnAddress? then ra - 1 else ip
    }
  }

  function FromReturnAddress(ra: U64): Option<FrameAddress> {
    if ra == 0 then None else Some(ReturnAddress(ra))
  }
}
