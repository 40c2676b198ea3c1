/** The x86_64 register file. */
module X86Regs {
  import opened Words

  /** A register by its position in the source's `Reg` enum, which is the DWARF numbering. */
  type Reg = r: int | 0 <= r < 16

  const RAX: Reg := 0
  const RDX: Reg := 1
  const RCX: Reg := 2
  const RBX: Reg := 3
  const RSI: Reg := 4
  const RDI: Reg := 5
  const RBP: Reg := 6
  const RSP: Reg := 7
  const R12: Reg := 12
  const R13: Reg := 13
  const R14: Reg := 14
  const R15: Reg := 15

  /** The values of the sixteen registers, and the instruction pointer. */
  type File = f: seq<U64> | |f| == 16 witness seq(16, i => 0)

  datatype Regs = Regs(ip: U64, file: File)
  {
    function Get(r: Reg): U64 { file[r] }

    function Set(r: Reg, v: U64): Regs { this.(file := file[r := v]) }

    function Sp(): U64 { file[RSP] }

    function Bp(): U64 { file[RBP] }
  }

  /** Registers at which rules can be told apart: all hold the same low address, and ip another one. */
  function WitnessRegs(): Regs { Regs(1, seq(16, i => WITNESS_BASE)) }

  const WITNESS_BASE: U64 := 0x1000_0000

  /** The registers as the object that unwinding updates in place. */
  class UnwindRegs {
    var ip: U64
    const file: array<U64>

    ghost predicate Valid()
      reads this
    {
      file.Length == 16
    }

    constructor (ip: U64, sp: U64, bp: U64)
      ensures Valid() && fresh(file)
      ensures Values() == Regs(ip, seq(16, i => 0)).Set(RSP, sp).Set(RBP, bp)
    {
      this.ip := ip;
      file := new U64[16](i => 0);
      new;
      file[RSP] := sp;
      file[RBP] := bp;
    }

    function Values(): Regs
      requires Valid()
      reads this, file
    {
      Regs(ip, file[..])
    }

    method Get(r: Reg) returns (v: U64)
      requires Valid()
      ensures v == Values().Get(r)
    {
      v := file[r];
    }

    method Set(r: Reg, v: U64)
      requires Valid()
      modifies file
      ensures Values() == old(Values()).Set(r, v)
    {
      file[r] := v;
    }
  }
}

/** The register ordering code on the table of the eight callee-saved registers, with u16 arithmetic. */
module CalleeSaved {
  import opened Words
  import opened X86Regs
  import opened RegisterOrdering

  const ENCODE_REGISTERS: seq<Reg> := [RBX, RBP, RDI, RSI, R12, R13, R14, R15]

  const CODES := 40320

  lemma TableFacts()
    ensures |ENCODE_REGISTERS| == 8 && Distinct(ENCODE_REGISTERS) && RSP !in ENCODE_REGISTERS
    ensures Factorial(8) == CODES
  {
  }

  function Decoded(count: U8, code: U16): seq<Reg>
    requires code < CODES
  {
    TableFacts();
    DecodableExactly(ENCODE_REGISTERS, code);
    DecodeIn(ENCODE_REGISTERS, code).value[..if count < 8 then count else 8]
  }

  /** Swap the register at `index` of the part which begins at `from` to the front of that part. */
  method SwapIn(a: array<Reg>, from: nat, index: nat)
    requires from + index < a.Length
    modifies a
    ensures a[..from + 1] == old(a[..from]) + [old(a[from + index])]
    ensures a[from + 1..] == Remaining(old(a[from..]), index)
  {
    ghost var table := a[from..];
    if index != 0 {
      a[from + index], a[from] := a[from], a[from + index];
    }
    assert a[from..] == SwapToFront(table, index);
  }

  /** `decode`: swap registers to the front of what is left of the table, digit by digit. The division
      never meets a zero, because the table is not used up before the number is. */
  method Decode(count: U8, code: U16) returns (regs: seq<Reg>)
    requires code < CODES
    ensures regs == Decoded(count, code)
  {
    TableFacts();
    DecodableExactly(ENCODE_REGISTERS, code);
    ghost var whole := DecodeIn(ENCODE_REGISTERS, code).value;
    var a := new Reg[8](i requires 0 <= i < 8 => ENCODE_REGISTERS[i]);
    assert a[..0] == [] && a[0..] == ENCODE_REGISTERS;
    var r, n := code, 8;
    assert DecodesTo(a[..8 - n], a[8 - n..], r, whole);
    hide DecodesTo, DecodeIn, Factorial, LowDigit, HighDigits, Remaining;
    while r != 0
      invariant 0 <= n <= 8 && 0 <= r
      invariant DecodesTo(a[..8 - n], a[8 - n..], r, whole)
      decreases n
    {
      ghost var table := a[8 - n..];
      DecodesNext(a[..8 - n], table, r, whole);
      assert |table| == n;
      var from, index := 8 - n, LowDigit(r, n);
      SwapIn(a, from, index);
      r := HighDigits(r, n);
      n := n - 1;
    }
    DecodesEnd(a[..8 - n], a[8 - n..], whole);
    assert a[..8 - n] + a[8 - n..] == a[..];
    regs := a[..if count < 8 then count else 8];
  }

  /** The weight of digit number `i`. */
  function Scale(i: nat): nat
    requires i <= 8
  {
    if i == 0 then 1 else Scale(i - 1) * (9 - i)
  }

  lemma ScaleFits(i: nat)
    requires i <= 8
    ensures Scale(0) == 1 <= Scale(i) <= CODES
    ensures i < 8 ==> Scale(i + 1) == Times(Scale(i), 8 - i)
  {
    assert Scale(0) == 1 && Scale(1) == 8 && Scale(2) == 56 && Scale(3) == 336 && Scale(4) == 1680;
    assert Scale(5) == 6720 && Scale(6) == 20160 && Scale(7) == 40320 && Scale(8) == 40320;
  }

  lemma NothingLeft(r: nat, scale: nat, whole: Option<nat>)
    requires EncodesTo(r, scale, None, whole)
    ensures whole == None
  {
  }

  lemma EncodesEnd(r: nat, scale: nat, table: seq<Reg>, whole: Option<nat>)
    requires EncodesTo(r, scale, EncodeIn(table, []), whole)
    ensures whole == Some(r)
  {
  }

  /** The loop of `encode`: no u16 operation overflows, because the digits so far stay below the
      scale, and the scale divides 8!. */
  method EncodeDigits(registers: seq<Reg>) returns (code: Option<U16>)
    requires |registers| <= 8
    ensures code == EncodeIn(ENCODE_REGISTERS, registers)
  {
    hide EncodeIn, Scale, Times, Remaining, IndexOf, Digits;
    ghost var whole := EncodeIn(ENCODE_REGISTERS, registers);
    ScaleFits(0);
    var r: U16, scale: U16 := 0, 1;
    assert EncodesTo(r, scale, whole, whole);
    hide EncodesTo;
    var order := new Reg[8](i requires 0 <= i < 8 => ENCODE_REGISTERS[i]);
    assert order[0..] == ENCODE_REGISTERS && registers[0..] == registers;
    var i := 0;
    while i < |registers|
      invariant 0 <= i <= |registers|
      invariant scale == Scale(i) && r < scale
      invariant EncodesTo(r, scale, EncodeIn(order[i..], registers[i..]), whole)
    {
      ghost var table, rest := order[i..], registers[i..];
      EncodeInStep(table, rest);
      var position := IndexOf(order[i..], registers[i]);
      if position.None? {
        NothingLeft(r, scale, whole);
        return None;
      }
      var index := position.value;
      EncodesNext(r, scale, index, |table|, EncodeIn(Remaining(table, index), rest[1..]), whole);
      SwapIn(order, i, index);
      ScaleFits(i);
      ScaleFits(i + 1);
      DigitFits(r, scale, index, 8 - i);
      assert rest[1..] == registers[i + 1..] && |table| == 8 - i;
      r := r + Times(index, scale);
      scale := Times(scale, 8 - i);
      i := i + 1;
    }
    assert registers[i..] == [];
    EncodesEnd(r, scale, order[i..], whole);
    return Some(r);
  }

  /** `encode`: the number of registers and the code of their order. */
  method Encode(registers: seq<Reg>) returns (result: Option<(U8, U16)>)
    ensures match EncodeIn(ENCODE_REGISTERS, registers)
      case None => result == None
      case Some(code) => code < CODES && result == Some((|registers|, code))
  {
    hide EncodeIn;
    if EncodeIn(ENCODE_REGISTERS, registers).Some? {
      RoundTrip(registers);
    }
    if |registers| > 8 {
      return None;
    }
    var code := EncodeDigits(registers);
    result := if code.None? then None else Some((|registers|, code.value));
  }

  /** Every code which `encode` yields decodes to the encoded registers. */
  lemma RoundTrip(registers: seq<Reg>)
    requires EncodeIn(ENCODE_REGISTERS, registers).Some?
    ensures |registers| <= 8 && EncodeIn(ENCODE_REGISTERS, registers).value < CODES
    ensures Decoded(|registers|, EncodeIn(ENCODE_REGISTERS, registers).value) == registers
    ensures RSP !in registers
  {
    hide EncodeIn, DecodeIn, Factorial, Distinct;
    TableFacts();
    CodeBelowFactorial(ENCODE_REGISTERS, registers);
    DecodeUndoesEncode(ENCODE_REGISTERS, registers);
    EncodableExactly(ENCODE_REGISTERS, registers);
  }
}
