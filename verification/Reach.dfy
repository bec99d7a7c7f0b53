/** What the encodings reach: every constant by MHI and OR_I, every aligned
    displacement by the relative jumps (exec.c:121-123, 160-174, 198-212,
    369-371). */
module Reach {
  import opened Words
  import opened Interrupts
  import opened Decode
  import opened Exec
  import opened Precise
  import opened Runs
  import CallStack

  lemma MhiExecutes(c: Cpu, rd: nat, imm18: nat)
    requires 0 < rd < 32 && imm18 < 0x4_0000
    ensures Execute(c, EncodeMhi(rd, imm18)) == Ok(Fall(c.(regs := c.regs[rd := imm18 * 0x4000])))
  {
    hide EncodeMhi, Opcode, Rd, Imm18;
    MhiFields(rd, imm18);
    assert AluOf(OP_MHI).NotAlu? && LoadWidth(OP_MHI).None? && StoreWidth(OP_MHI).None?;
    hide AluOf, LoadWidth, StoreWidth;
  }

  lemma OrIExecutes(c: Cpu, rd: nat, imm14: nat)
    requires 0 < rd < 32 && imm14 < 0x4000
    ensures Execute(c, EncodeOrI(rd, rd, imm14)) == Ok(Fall(c.(regs := c.regs[rd := Or(c.regs[rd], imm14)])))
  {
    hide EncodeOrI, Opcode, Rd, Rs1, Imm14, Or;
    OrIFields(rd, rd, imm14);
  }

  lemma MhiRetires(c: Cpu, c': Cpu, rd: nat, imm18: nat)
    requires 0 < rd < 32 && imm18 < 0x4_0000
    requires Retires(c, c') && Fetched(c) == Some(EncodeMhi(rd, imm18))
    ensures c'.regs == c.regs[rd := imm18 * 0x4000] && c'.pc == Wrap(c.pc + 4)
  {
    hide Step, Fetched, Execute, EncodeMhi, TscClk;
    TickKeepsRest(c);
    var ins, n := RetiringStep(c, c');
    MhiExecutes(Tick(c), rd, imm18);
  }

  lemma OrIRetires(c: Cpu, c': Cpu, rd: nat, imm14: nat)
    requires 0 < rd < 32 && imm14 < 0x4000
    requires Retires(c, c') && Fetched(c) == Some(EncodeOrI(rd, rd, imm14))
    ensures c'.regs == c.regs[rd := Or(c.regs[rd], imm14)] && c'.pc == Wrap(c.pc + 4)
  {
    hide Step, Fetched, Execute, EncodeOrI, TscClk, Or;
    TickKeepsRest(c);
    var ins, n := RetiringStep(c, c');
    OrIExecutes(Tick(c), rd, imm14);
  }

  /** For every 32-bit constant, two retired steps of MHI and OR_I with its
      halves load it, touching no other register. */
  lemma MhiOrILoads(c: Cpu, c1: Cpu, c2: Cpu, rd: nat, v: Word)
    requires 0 < rd < 32 && v / 0x4000 < 0x4_0000
    requires Retires(c, c1) && Fetched(c) == Some(EncodeMhi(rd, v / 0x4000))
    requires Retires(c1, c2) && Fetched(c1) == Some(EncodeOrI(rd, rd, v % 0x4000))
    ensures c2.regs == c.regs[rd := v] && c2.pc == Wrap(c.pc + 8)
  {
    hide Retires, Fetched, EncodeMhi, EncodeOrI, Or, Wrap;
    MhiRetires(c, c1, rd, v / 0x4000);
    OrIRetires(c1, c2, rd, v % 0x4000);
    HalvesJoin(v);
    assert c2.regs == c.regs[rd := v];
    NextTwice(c.pc);
  }

  lemma NextTwice(pc: Word)
    ensures Wrap(Wrap(pc + 4) + 4) == Wrap(pc + 8)
  {
  }

  lemma RelExecutes(c: Cpu, op: nat, d: int, n: Next)
    requires op in {OP_JMP_I, OP_JMP_I_LNK, OP_BT, OP_BF} && d % 4 == 0 && -0x800_0000 <= d < 0x800_0000
    requires Execute(c, EncodeRel(op, d)) == Ok(n)
    ensures var taken := (op == OP_BT ==> c.msr.psr.cc) && (op == OP_BF ==> !c.msr.psr.cc);
            Finish(n).cpu.pc == Wrap(c.pc + if taken then d else 4)
  {
    hide EncodeRel, Opcode, Rel26, Displacement, ExecAlu, ExecLoad, ExecStore, CallStack.Jmp;
    RelFields(op, d);
    assert PcRelative(c, EncodeRel(op, d)) == Wrap(c.pc + d);
  }

  /** Every 4-byte-aligned displacement in [-2^27, 2^27) is reached: the jumps
      arrive at pc + d modulo 2^32, the branches exactly when their condition
      holds, and at the next instruction otherwise. */
  lemma JumpArrives(c: Cpu, c': Cpu, op: nat, d: int)
    requires op in {OP_JMP_I, OP_JMP_I_LNK, OP_BT, OP_BF} && d % 4 == 0 && -0x800_0000 <= d < 0x800_0000
    requires Retires(c, c') && Fetched(c) == Some(EncodeRel(op, d))
    ensures var taken := (op == OP_BT ==> c.msr.psr.cc) && (op == OP_BF ==> !c.msr.psr.cc);
            c'.pc == Wrap(c.pc + if taken then d else 4)
  {
    hide Step, Fetched, Execute, EncodeRel, TscClk;
    var ins, n := RetiringStep(c, c');
    TickFrame(c.msr);
    RelExecutes(Tick(c), op, d, n);
  }
}
