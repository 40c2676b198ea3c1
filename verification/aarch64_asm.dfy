/** An assembler for the aarch64 instructions of prologues and epilogues, which builds words from their fields
    (sections C3.3 and C3.4 of the Arm architecture manual), and the decoder proved against it. */
module Aarch64Asm {
  import opened Words
  import opened Aarch64Code
  import opened Aarch64Epilogue

  /** The value of a seven-bit field in two's complement. */
  function Signed7(field: bv32): int {
    if field < 64 then field as int else field as int - 128
  }

  /** opc = 10, 101, V = 0, the indexing, and L. */
  function PairOpcode(load: bool, indexing: Indexing): bv32 {
    var mode: bv32 := match indexing case PostIndex => 1 case SignedOffset => 2 case PreIndex => 3;
    0xa800_0000 | (mode << 23) | (if load then 0x0040_0000 else 0)
  }

  function PairOf(opcode: bv32, field: bv32, r2: bv32, base: bv32, r1: bv32): bv32 {
    opcode | (field << 15) | (r2 << 10) | (base << 5) | r1
  }

  /** `ldp` or `stp` of two 64-bit registers, with the offset from the base in units of eight bytes. */
  function PairWord(load: bool, indexing: Indexing, r1: bv32, r2: bv32, base: bv32, field: bv32): bv32 {
    PairOf(PairOpcode(load, indexing), field, r2, base, r1)
  }

  /** Whether the immediate is subtracted, and whether it is shifted by twelve. */
  function ImmediateOpcode(sub: bool, shifted: bool): bv32 {
    (if sub then 0xd100_0000 else 0x9100_0000) | (if shifted then 0x0040_0000 else 0)
  }

  function ImmediateOf(opcode: bv32, n: bv32, rn: bv32, rd: bv32): bv32 {
    opcode | (n << 10) | (rn << 5) | rd
  }

  /** `add` or `sub` of an immediate on 64-bit registers. */
  function ImmediateWord(sub: bool, shifted: bool, n: bv32, rd: bv32, rn: bv32): bv32 {
    ImmediateOf(ImmediateOpcode(sub, shifted), n, rn, rd)
  }

  predicate IsRegister(r: bv32) { r < 32 }

  // ----- fields -----

  lemma PairFields(opcode: bv32, imm: bv32, r1: bv32, r2: bv32, base: bv32)
    requires opcode & 0x003f_ffff == 0 && imm < 128 && IsRegister(r1) && IsRegister(r2) && IsRegister(base)
    ensures var w := PairOf(opcode, imm, r2, base, r1);
      && w >> 22 == opcode >> 22 && (w >> 15) & 0x7f == imm
      && FirstReg(w) == r1 && SecondReg(w) == r2 && BaseReg(w) == base
  {
  }

  lemma SmallField(field: bv32)
    requires field < 128
    ensures 0 <= field as int < 128 && (field < 64 <==> field as int < 64)
  {
  }

  lemma NextField(field: bv32)
    requires field < 127
    ensures field + 1 < 128 && (field + 1) as int == field as int + 1
  {
  }

  /** The field that holds a number. */
  lemma {:induction false} FieldOfNumber(x: nat) returns (field: bv32)
    requires x < 128
    ensures field < 128 && field as int == x
    decreases x
  {
    field := 0;
    if x != 0 {
      var previous := FieldOfNumber(x - 1);
      SmallField(previous);
      BelowByNumber(previous, x - 1);
      NextField(previous);
      field := previous + 1;
    }
  }

  lemma BelowByNumber(field: bv32, x: nat)
    requires field as int == x < 127
    ensures field < 127
  {
  }

  /** Every offset from -64 to 63 has its field. */
  lemma FieldOfOffset(k: int) returns (field: bv32)
    requires -64 <= k < 64
    ensures field < 128 && Signed7(field) == k
  {
    field := FieldOfNumber(if k < 0 then k + 128 else k);
    SmallField(field);
  }

  lemma ScaledField(x: int)
    requires 0 <= x < 128
    ensures WrapI16(x * 512) / 64 == 8 * if x < 64 then x else x - 128
  {
  }

  lemma Imm7OfField(w: bv32, field: bv32)
    requires field < 128 && (w >> 15) & 0x7f == field
    ensures Imm7(w) == 8 * Signed7(field)
  {
    SmallField(field);
    ScaledField(field as int);
  }

  lemma PairOpcodes(load: bool, indexing: Indexing)
    ensures PairOpcode(load, indexing) & 0x003f_ffff == 0
    ensures PairOpcode(load, indexing) >> 22 ==
      match indexing
      case PostIndex => if load then 0x2a3 else 0x2a2
      case SignedOffset => if load then 0x2a5 else 0x2a4
      case PreIndex => if load then 0x2a7 else 0x2a6
  {
  }

  lemma DecodeByOpcode(w: bv32)
    requires BaseReg(w) == 31
    ensures w >> 22 == 0x2a3 ==> Decode(w) == LoadPair(PostIndex) && !IsReturn(w)
    ensures w >> 22 == 0x2a5 ==> Decode(w) == LoadPair(SignedOffset) && !IsReturn(w)
    ensures w >> 22 == 0x2a7 ==> Decode(w) == LoadPair(PreIndex) && !IsReturn(w)
    ensures w >> 22 == 0x2a2 ==> Decode(w) == StorePair(PostIndex) && !IsReturn(w)
    ensures w >> 22 == 0x2a4 ==> Decode(w) == StorePair(SignedOffset) && !IsReturn(w)
    ensures w >> 22 == 0x2a6 ==> Decode(w) == StorePair(PreIndex) && !IsReturn(w)
    ensures FirstReg(w) == 31 && w >> 22 in {0x244, 0x245} ==> Decode(w) == AddSp && !IsReturn(w)
    ensures FirstReg(w) == 31 && w >> 22 in {0x344, 0x345} ==> Decode(w) == SubSp && !IsReturn(w)
  {
  }

  lemma PairWordFields(load: bool, indexing: Indexing, r1: bv32, r2: bv32, field: bv32)
    requires IsRegister(r1) && IsRegister(r2) && field < 128
    ensures var w := PairWord(load, indexing, r1, r2, 31, field);
      && w >> 22 == PairOpcode(load, indexing) >> 22 && (w >> 15) & 0x7f == field
      && FirstReg(w) == r1 && SecondReg(w) == r2 && BaseReg(w) == 31
  {
    hide PairOpcode, FirstReg, SecondReg, BaseReg, PairOf;
    PairOpcodes(load, indexing);
    PairFields(PairOpcode(load, indexing), field, r1, r2, 31);
  }

  /** Whatever the registers, the indexing and the offset: the decoder gets back the kind of instruction, both
      registers, the base and the offset in bytes. */
  lemma PairDecodes(load: bool, indexing: Indexing, r1: bv32, r2: bv32, field: bv32)
    requires IsRegister(r1) && IsRegister(r2) && field < 128
    ensures var w := PairWord(load, indexing, r1, r2, 31, field);
      && Decode(w) == (if load then LoadPair(indexing) else StorePair(indexing)) && !IsReturn(w)
      && FirstReg(w) == r1 && SecondReg(w) == r2 && BaseReg(w) == 31 && Imm7(w) == 8 * Signed7(field)
  {
    hide *;
    var w := PairWord(load, indexing, r1, r2, 31, field);
    PairWordFields(load, indexing, r1, r2, field);
    PairOpcodes(load, indexing);
    Imm7OfField(w, field);
    DecodeByOpcode(w);
  }

  lemma ImmediateFields(opcode: bv32, n: bv32, rd: bv32, rn: bv32)
    requires opcode & 0x003f_ffff == 0 && n < 4096 && IsRegister(rd) && IsRegister(rn)
    ensures var w := ImmediateOf(opcode, n, rn, rd);
      w >> 22 == opcode >> 22 && (w >> 10) & 0xfff == n && FirstReg(w) == rd && BaseReg(w) == rn
  {
  }

  lemma ImmediateOpcodes(sub: bool, shifted: bool)
    ensures ImmediateOpcode(sub, shifted) & 0x003f_ffff == 0
    ensures ImmediateOpcode(sub, shifted) >> 22 ==
      if sub then (if shifted then 0x345 else 0x344) else (if shifted then 0x245 else 0x244)
  {
  }

  lemma ImmediateWordFields(sub: bool, shifted: bool, n: bv32)
    requires n < 4096
    ensures var w := ImmediateWord(sub, shifted, n, 31, 31);
      && w >> 22 == ImmediateOpcode(sub, shifted) >> 22 && (w >> 10) & 0xfff == n
      && FirstReg(w) == 31 && BaseReg(w) == 31
  {
    hide ImmediateOpcode, FirstReg, BaseReg, ImmediateOf;
    ImmediateOpcodes(sub, shifted);
    ImmediateFields(ImmediateOpcode(sub, shifted), n, 31, 31);
  }

  lemma Imm12OfField(w: bv32, n: bv32)
    requires (w >> 10) & 0xfff == n
    ensures w >> 22 in {0x245, 0x345} ==> Imm12(w) == 0x1000 * (n as int)
    ensures w >> 22 in {0x244, 0x344} ==> Imm12(w) == n as int
  {
  }

  /** The same for `add sp, sp, #n` and `sub sp, sp, #n`. */
  lemma ImmediateDecodes(sub: bool, shifted: bool, n: bv32)
    requires n < 4096
    ensures var w := ImmediateWord(sub, shifted, n, 31, 31);
      && Decode(w) == (if sub then SubSp else AddSp) && !IsReturn(w)
      && Imm12(w) == if shifted then 0x1000 * (n as int) else n as int
  {
    hide *;
    var w := ImmediateWord(sub, shifted, n, 31, 31);
    ImmediateWordFields(sub, shifted, n);
    ImmediateOpcodes(sub, shifted);
    Imm12OfField(w, n);
    DecodeByOpcode(w);
  }

  // ----- nothing else is decoded as such -----

  lemma PairIsMadeOfFields(w: bv32)
    requires BaseReg(w) == 31
    ensures w == ((w >> 22) << 22) | (((w >> 15) & 0x7f) << 15) | (SecondReg(w) << 10) | (31 << 5) | FirstReg(w)
  {
  }

  lemma OpcodeOfPair(w: bv32, load: bool, indexing: Indexing)
    requires Decode(w) == (if load then LoadPair(indexing) else StorePair(indexing))
    ensures BaseReg(w) == 31 && (w >> 22) << 22 == PairOpcode(load, indexing)
  {
    PairOpcodes(load, indexing);
    assert (w >> 22) << 22 == w & 0xffc0_0000;
    var o := PairOpcode(load, indexing);
    assert (o >> 22) << 22 == o;
  }

  /** Every word that is decoded as a pair load or store is what the assembler makes of its fields. */
  lemma DecodedPairIsAssembled(w: bv32, load: bool, indexing: Indexing)
    requires Decode(w) == (if load then LoadPair(indexing) else StorePair(indexing))
    ensures w == PairWord(load, indexing, FirstReg(w), SecondReg(w), 31, (w >> 15) & 0x7f)
  {
    hide Decode, PairOpcode, FirstReg, SecondReg;
    OpcodeOfPair(w, load, indexing);
    PairIsMadeOfFields(w);
  }

  lemma ImmediateIsMadeOfFields(w: bv32)
    requires FirstReg(w) == 31 && BaseReg(w) == 31
    ensures w == ((w >> 22) << 22) | (((w >> 10) & 0xfff) << 10) | (31 << 5) | 31
  {
  }

  lemma OpcodeOfImmediate(w: bv32, sub: bool)
    requires Decode(w) == if sub then SubSp else AddSp
    ensures FirstReg(w) == 31 && BaseReg(w) == 31
    ensures (w >> 22) << 22 == ImmediateOpcode(sub, (w >> 22) & 1 == 1)
  {
    assert w >> 22 == ((w >> 23) << 1) | ((w >> 22) & 1);
  }

  /** Every word that is decoded as a change of sp is what the assembler makes of its fields. */
  lemma DecodedImmediateIsAssembled(w: bv32, sub: bool)
    requires Decode(w) == if sub then SubSp else AddSp
    ensures w == ImmediateWord(sub, (w >> 22) & 1 == 1, (w >> 10) & 0xfff, 31, 31)
  {
    hide Decode, ImmediateOpcode, FirstReg, BaseReg;
    OpcodeOfImmediate(w, sub);
    ImmediateIsMadeOfFields(w);
  }

  // ----- bytes -----

  /** The four bytes of a word, the lowest first. */
  function LittleEndian(w: bv32): seq<bv8> {
    [(w & 0xff) as bv8, ((w >> 8) & 0xff) as bv8, ((w >> 16) & 0xff) as bv8, (w >> 24) as bv8]
  }

  function Assembled(words: seq<bv32>): seq<bv8> {
    if words == [] then [] else Assembled(words[..|words| - 1]) + LittleEndian(words[|words| - 1])
  }

  lemma WordOfBytes(w: bv32)
    ensures WordAt(LittleEndian(w), 0) == w
  {
  }

  /** The word at an address is the one whose bytes are there. */
  lemma WordAtFinds(before: seq<bv8>, w: bv32, after: seq<bv8>)
    ensures WordAt(before + LittleEndian(w) + after, |before|) == w
  {
    WordOfBytes(w);
    var bytes, n := before + LittleEndian(w) + after, |before|;
    assert bytes[n] == LittleEndian(w)[0] && bytes[n + 1] == LittleEndian(w)[1];
    assert bytes[n + 2] == LittleEndian(w)[2] && bytes[n + 3] == LittleEndian(w)[3];
  }

  /** Reading assembled code gives back the words, whatever fraction of a word comes after them. */
  lemma {:induction false} WordsOfAssembled(words: seq<bv32>, tail: seq<bv8>)
    requires |tail| < 4
    ensures |Assembled(words)| == 4 * |words| && WordsOf(Assembled(words) + tail) == words
    decreases |words|
  {
    hide WordAt, LittleEndian;
    if words != [] {
      var n := |words| - 1;
      WordsOfAssembled(words[..n], []);
      var bytes, earlier, last := Assembled(words) + tail, Assembled(words[..n]), LittleEndian(words[n]);
      FourBytes(words[n]);
      WordAtFinds(earlier, words[n], tail);
      assert earlier + last + tail == bytes && earlier + [] == earlier;
      forall i | 0 <= i < n ensures WordAt(bytes, 4 * i) == words[i] {
        assert WordsOf(earlier)[i] == WordAt(earlier, 4 * i);
        SameWord(earlier, bytes, 4 * i);
      }
    }
  }

  lemma FourBytes(w: bv32)
    ensures |LittleEndian(w)| == 4
  {
  }

  lemma SameWord(a: seq<bv8>, b: seq<bv8>, i: nat)
    requires i + 4 <= |a| <= |b| && b[..|a|] == a
    ensures WordAt(a, i) == WordAt(b, i)
  {
    assert a[i] == b[i] && a[i + 1] == b[i + 1] && a[i + 2] == b[i + 2] && a[i + 3] == b[i + 3];
  }

  // ----- the words that the analysis knows by heart -----

  /** `b` with a word offset. */
  function BranchWord(imm26: bv32): bv32 { 0x1400_0000 | imm26 }

  /** `br`, `ret` and their relatives: the operation, two flags for authentication, and two registers. */
  function RegisterBranchWord(opc: bv32, authentication: bv32, rn: bv32, rm: bv32): bv32 {
    0xd61f_0000 | (opc << 21) | (authentication << 10) | (rn << 5) | rm
  }

  /** `hint #n` */
  function HintWord(n: bv32): bv32 { 0xd503_201f | (n << 5) }

  /** `eor rd, rn, rm, lsl #shift` on 64-bit registers. */
  function EorWord(rd: bv32, rn: bv32, rm: bv32, shift: bv32): bv32 {
    0xca00_0000 | (rm << 16) | (shift << 10) | (rn << 5) | rd
  }

  /** `tbz rt, #bit, words` for a bit of the upper half. */
  function TbzWord(rt: bv32, bit: bv32, words: bv32): bv32 {
    0xb600_0000 | ((bit - 32) << 19) | (words << 5) | rt
  }

  /** `brk #n` */
  function BrkWord(n: bv32): bv32 { 0xd420_0000 | (n << 5) }

  const RET := RegisterBranchWord(2, 0, 30, 0)
  const RETAB := RegisterBranchWord(2, 3, 31, 31)
  const PACIBSP := HintWord(27)
  const AUTIBSP := HintWord(31)

  /** The check before an authenticated tail call: `eor x16, lr, lr, lsl #1; tbz x16, #62, $+8; brk #0xc471`. */
  const CHECK := [EorWord(16, 30, 30, 1), TbzWord(16, 62, 2), BrkWord(0xc471)]

  lemma KnownWords(word: bv32)
    ensures IsReturn(word) <==> word == RET || word == RETAB
    ensures Decode(word).PacIbSp? <==> word == PACIBSP
    ensures AUTIBSP == 0xd50323ff && CHECK == [0xca1e07d0, 0xb6f00050, 0xd4388e20]
  {
  }

  /** `movz rd, #n, lsl #(16 * hw)` */
  function MovzWord(rd: bv32, n: bv32, hw: bv32): bv32 { 0xd280_0000 | (hw << 21) | (n << 5) | rd }

  /** `braa rn, rm` */
  function BraaWord(rn: bv32, rm: bv32): bv32 { RegisterBranchWord(8, 2, rn, rm) }

  /** A `movz x16`; the test for it does not look at bits 26 to 28. */
  predicate IsMovzX16(word: bv32) {
    (word & 0xe3ff_ffff) | 0x1000_0000 == MovzWord(16, (word >> 5) & 0xffff, (word >> 21) & 3)
  }

  predicate IsBranch(word: bv32) { word == BranchWord(word & 0x03ff_ffff) }

  predicate IsBraaX16(word: bv32) { word == BraaWord(BaseReg(word), 16) }

  lemma TailCallTests(word: bv32)
    ensures word >> 26 == 5 <==> IsBranch(word)
    ensures (word >> 23) & 0x1c7 == 0x185 && FirstReg(word) == 16 <==> IsMovzX16(word)
    ensures word & 0xffff_fc00 == 0xd71f_0800 && FirstReg(word) == 16 <==> IsBraaX16(word)
  {
  }

  /** The last word or two: `b`, or `movz x16` and `braa` with x16. */
  predicate EndsTailCall(bytes: seq<bv8>, i: nat) {
    && i + 4 <= |bytes|
    && (|| IsBranch(WordAt(bytes, i))
        || (i + 8 <= |bytes| && IsMovzX16(WordAt(bytes, i)) && IsBraaX16(WordAt(bytes, i + 4))))
  }

  lemma EndOfTailCall(bytes: seq<bv8>, i: nat)
    requires i + 16 <= |bytes|
    ensures IsAuthTailCall(bytes, i) <==>
      && WordAt(bytes, i) == 0xca1e07d0 && WordAt(bytes, i + 4) == 0xb6f00050 && WordAt(bytes, i + 8) == 0xd4388e20
      && EndsTailCall(bytes, i + 12)
  {
    hide WordAt, IsMovzX16, IsBranch, IsBraaX16, FirstReg;
    TailCallTests(WordAt(bytes, i + 12));
    if i + 20 <= |bytes| {
      TailCallTests(WordAt(bytes, i + 16));
    }
  }

  /** What is taken for the rest of an authenticated tail call, for all bytes: the check, and then `b`, or `movz x16`
      and `braa` with x16. */
  lemma AuthTailCallExactly(bytes: seq<bv8>, i: nat)
    requires i <= |bytes|
    ensures IsAuthTailCall(bytes, i) <==>
      && i + 16 <= |bytes|
      && WordAt(bytes, i) == CHECK[0] && WordAt(bytes, i + 4) == CHECK[1] && WordAt(bytes, i + 8) == CHECK[2]
      && EndsTailCall(bytes, i + 12)
  {
    if i + 16 <= |bytes| {
      hide WordAt, EndsTailCall, IsAuthTailCall;
      KnownWords(0);
      EndOfTailCall(bytes, i);
    }
  }
}
