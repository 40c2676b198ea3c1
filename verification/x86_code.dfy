/** The x86_64 instructions that prologues and epilogues are made of: `push`, `pop`, and what the CPU
    does with them. */
module X86Code {
  import opened Words
  import opened Frames
  import opened X86Regs

  /** A one-byte `push` or `pop`, or one with a REX prefix (0x40, or 0x41 for r8 to r15). */
  datatype Insn = Plain(op: bv8) | Prefixed(rex: bv8, op: bv8)
  {
    predicate WellFormed() { Prefixed? ==> rex & 0xfe == 0x40 }

    predicate IsPush() { WellFormed() && op & 0xf8 == 0x50 }

    predicate IsPop() { WellFormed() && op & 0xf8 == 0x58 }

    function Bytes(): seq<bv8> {
      if Plain? then [op] else [rex, op]
    }

    /** The low three bits of the opcode name one of the first eight registers, REX.B the others. */
    function Register(): Reg {
      var low := op & 7;
      if Prefixed? && rex & 1 == 1 then
        if low == 0 then 8 else if low == 1 then 9 else if low == 2 then 10 else if low == 3 then 11
        else if low == 4 then 12 else if low == 5 then 13 else if low == 6 then 14 else 15
      else
        if low == 0 then RAX else if low == 1 then RCX else if low == 2 then RDX else if low == 3 then RBX
        else if low == 4 then RSP else if low == 5 then RBP else if low == 6 then RSI else RDI
    }
  }

  /** The number by which instructions name a register. */
  function HardwareNumber(r: Reg): int {
    if r == RAX then 0 else if r == RCX then 1 else if r == RDX then 2 else if r == RBX then 3
    else if r == RSP then 4 else if r == RBP then 5 else if r == RSI then 6 else if r == RDI then 7
    else r as int
  }

  /** `push` and `pop` of a register: the low three bits of its number go into the opcode, the fourth into the
      prefix. */
  predicate Names(insn: Insn, r: Reg) {
    var n := HardwareNumber(r);
    if n < 8 then (insn.Plain? || insn.rex & 1 == 0) && (insn.op & 7) as int == n
    else insn.Prefixed? && insn.rex & 1 == 1 && (insn.op & 7) as int == n - 8
  }

  /** The register of an instruction is the one that it names, and no other. */
  lemma RegisterIsNamed(insn: Insn, r: Reg)
    ensures Names(insn, r) <==> insn.Register() == r
  {
    var low := insn.op & 7;
    assert low == 0 || low == 1 || low == 2 || low == 3 || low == 4 || low == 5 || low == 6 || low == 7;
  }

  function EncodeAll(insns: seq<Insn>): seq<bv8> {
    if insns == [] then [] else insns[0].Bytes() + EncodeAll(insns[1..])
  }

  lemma {:induction false} EncodeAllLast(insns: seq<Insn>)
    requires insns != []
    ensures EncodeAll(insns) == EncodeAll(insns[..|insns| - 1]) + insns[|insns| - 1].Bytes()
    decreases |insns|
  {
    var n := |insns| - 1;
    if n == 0 {
      assert insns[1..] == [] && insns[..0] == [];
    } else {
      EncodeAllLast(insns[1..]);
      assert insns[1..][..n - 1] == insns[..n][1..];
      assert insns[..n][0] == insns[0] && insns[1..][n - 1] == insns[n];
    }
  }

  /** The registers and the memory. */
  datatype Cpu = Cpu(regs: Regs, mem: Stack)

  function Push(cpu: Cpu, r: Reg): Option<Cpu> {
    var sp := AddMod64(cpu.regs.Sp(), -8);
    if sp !in cpu.mem then None
    else Some(Cpu(cpu.regs.Set(RSP, sp), cpu.mem[sp := cpu.regs.Get(r)]))
  }

  /** `pop rsp` leaves the popped value in rsp. */
  function Pop(cpu: Cpu, r: Reg): Option<Cpu> {
    var sp := cpu.regs.Sp();
    if sp !in cpu.mem then None
    else Some(cpu.(regs := cpu.regs.Set(RSP, AddMod64(sp, 8)).Set(r, cpu.mem[sp])))
  }

  /** `mov rbp, rsp` */
  function MovRbpRsp(cpu: Cpu): Cpu {
    cpu.(regs := cpu.regs.Set(RBP, cpu.regs.Sp()))
  }
}
