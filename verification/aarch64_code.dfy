/** The aarch64 instructions that prologues and epilogues are made of: how they are encoded, and
    what the CPU does with them (sections C3.3 and C3.4 of the Arm architecture manual). */
module Aarch64Code {
  import opened Words
  import opened Frames
  import PtrAuth
  import Aarch64Rule

  /** The little-endian instruction word at `i`. */
  function WordAt(bytes: seq<bv8>, i: nat): bv32
    requires i + 4 <= |bytes|
  {
    (bytes[i] as bv32) | (bytes[i + 1] as bv32 << 8) | (bytes[i + 2] as bv32 << 16) | (bytes[i + 3] as bv32 << 24)
  }

  /** The instruction words of a slice; a trailing fraction of a word is ignored. */
  function WordsOf(bytes: seq<bv8>): seq<bv32> {
    seq(|bytes| / 4, i requires 0 <= i < |bytes| / 4 => WordAt(bytes, 4 * i))
  }

  function FirstReg(word: bv32): bv32 { word & 0x1f }

  function BaseReg(word: bv32): bv32 { (word >> 5) & 0x1f }

  function SecondReg(word: bv32): bv32 { (word >> 10) & 0x1f }

  /** The signed, scaled 7-bit immediate of a pair load or store: shifted left by 9 and back by 6
      as an i16, which multiplies the sign-extended field by 8. */
  function Imm7(word: bv32): (r: int)
    ensures -512 <= r <= 504 && r % 8 == 0
  {
    WrapI16((((word >> 15) & 0x7f) as int) * 512) / 64
  }

  /** The unsigned 12-bit immediate, optionally shifted by 12. */
  function Imm12(word: bv32): (r: int)
    ensures 0 <= r <= 0xfff000
  {
    var imm := ((word >> 10) & 0xfff) as int;
    if (word >> 22) & 1 == 1 then imm * 0x1000 else imm
  }

  // ----- the CPU -----

  /** The stack pointer, x29, x30 and the other general registers by number; register 31 of a pair
      is the zero register. */
  datatype Machine = Machine(sp: U64, fp: U64, lr: U64, other: map<int, U64>, mem: Stack)
  {
    function X(r: bv32): U64 {
      if r == 29 then fp
      else if r == 30 then lr
      else if r != 31 && r as int in other then other[r as int]
      else 0
    }

    function SetX(r: bv32, v: U64): Machine {
      if r == 29 then this.(fp := v)
      else if r == 30 then this.(lr := v)
      else if r == 31 then this
      else this.(other := other[r as int := v])
    }
  }

  datatype Indexing = PostIndex | SignedOffset | PreIndex

  datatype Insn =
    | LoadPair(indexing: Indexing)
    | StorePair(indexing: Indexing)
    | AddSp
    | SubSp
    | PacIbSp
    | Unmodelled

  function Decode(word: bv32): Insn {
    if word == 0xd503237f then PacIbSp
    else if BaseReg(word) != 31 then Unmodelled
    else if word >> 22 == 0x2a3 then LoadPair(PostIndex)
    else if word >> 22 == 0x2a5 then LoadPair(SignedOffset)
    else if word >> 22 == 0x2a7 then LoadPair(PreIndex)
    else if word >> 22 == 0x2a2 then StorePair(PostIndex)
    else if word >> 22 == 0x2a4 then StorePair(SignedOffset)
    else if word >> 22 == 0x2a6 then StorePair(PreIndex)
    else if word >> 23 == 0x122 && FirstReg(word) == 31 then AddSp
    else if word >> 23 == 0x1a2 && FirstReg(word) == 31 then SubSp
    else Unmodelled
  }

  /** `ret` and `retab`. */
  predicate IsReturn(word: bv32) { word == 0xd65f03c0 || word == 0xd65f0fff }

  function PairAddress(sp: U64, indexing: Indexing, imm: I64): U64 {
    if indexing.PostIndex? then sp else AddMod64(sp, imm)
  }

  function AfterPair(sp: U64, indexing: Indexing, imm: I64): U64 {
    if indexing.SignedOffset? then sp else AddMod64(sp, imm)
  }

  /** One instruction, other than a return and other than `pacibsp`. `None` is a fault or an
      instruction outside this model. */
  function Step(word: bv32, m: Machine): Option<Machine> {
    match Decode(word)
    case LoadPair(indexing) =>
      var a := PairAddress(m.sp, indexing, Imm7(word));
      var b := AddMod64(a, 8);
      if a !in m.mem || b !in m.mem then None
      else Some(m.SetX(FirstReg(word), m.mem[a]).SetX(SecondReg(word), m.mem[b])
                 .(sp := AfterPair(m.sp, indexing, Imm7(word))))
    case StorePair(indexing) =>
      var a := PairAddress(m.sp, indexing, Imm7(word));
      var b := AddMod64(a, 8);
      if a !in m.mem || b !in m.mem then None
      else Some(m.(mem := m.mem[a := m.X(FirstReg(word))][b := m.X(SecondReg(word))],
                   sp := AfterPair(m.sp, indexing, Imm7(word))))
    case AddSp => Some(m.(sp := AddMod64(m.sp, Imm12(word))))
    case SubSp => Some(m.(sp := AddMod64(m.sp, -Imm12(word))))
    case PacIbSp => None
    case Unmodelled => None
  }

  /** The registers given to the unwinder for an interrupted machine. */
  function RegsOf(m: Machine, mask: U64): Aarch64Rule.Regs {
    Aarch64Rule.Regs(mask, PtrAuth.StripPtrAuth(mask, m.lr), m.sp, m.fp)
  }
}
