/** The instruction set as a reference: for every opcode, when a step that
    fetches it retires and what it leaves behind, in terms of the old
    registers and the fields of the instruction (exec.c:98-376). */
module Isa {
  import opened Words
  import opened Msr
  import opened Interrupts
  import opened Mmu
  import opened Memory
  import opened Mmio
  import opened Decode
  import opened Exec
  import opened Precise
  import opened Runs
  import AluLaws
  import CallStack
  import Ata

  /** A step that fetched an instruction is the execution of it. */
  lemma StepOfFetched(c: Cpu, ins: Word)
    requires Fetched(c) == Some(ins)
    ensures Step(c) == match Execute(Tick(c), ins)
                       case Ok(n) => Ok(Finish(n))
                       case Panic => Panic
                       case Undefined => Undefined
  {
    var m := TscClk(c.msr);
    var pa := Immu(m, c.pc).pa;
    hide TscClk, IrqPending, Immu, BusLoad, Execute, LoadRam, RaiseException;
    WordLoadIsRam(Tick(c), pa);
  }

  /** The step retires and its next state is `c'`, exactly if `ok`. */
  predicate RetiresIff(c: Cpu, ok: bool) {
    (Step(c).Ok? <==> ok) && (ok ==> !Traps(c))
  }

  /** The registers after writing `v` to register `rd`. */
  function Put(regs: Regs, rd: nat, v: Word): Regs
    requires rd < 32
  {
    if rd == 0 then regs else regs[rd := v]
  }

  // ---------- arithmetic ----------

  predicate TwoRegisters(op: nat) {
    op in {OP_AND, OP_OR, OP_XOR, OP_LSL, OP_LSR, OP_ASR, OP_ADD, OP_SUB, OP_MUL, OP_DIV, OP_DIVU, OP_MOD, OP_MODU}
  }

  predicate ZeroExtends(op: nat) {
    op in {OP_AND_I, OP_OR_I, OP_LSL_I, OP_LSR_I, OP_ASR_I}
  }

  predicate SignExtends(op: nat) {
    op in {OP_XOR_I, OP_ADD_I}
  }

  predicate Arithmetic(op: nat) {
    TwoRegisters(op) || ZeroExtends(op) || SignExtends(op)
  }

  /** The immediate field read as a signed 14-bit number. */
  function SignedImm(ins: Word): int {
    if ins / 0x4_0000 < 0x2000 then ins / 0x4_0000 else ins / 0x4_0000 - 0x4000
  }

  /** Every register field the instruction uses names a register. */
  predicate FieldsNameRegisters(ins: Word) {
    Rs1(ins) < 32 && Rd(ins) < 32 && (TwoRegisters(Opcode(ins)) ==> Rs2(ins) < 32)
  }

  /** The right operand: a register, or the immediate extended as the opcode
      says. */
  function Right(c: Cpu, ins: Word): Word
    requires FieldsNameRegisters(ins)
  {
    var op := Opcode(ins);
    if TwoRegisters(op) then RegValue(c, Rs2(ins))
    else if ZeroExtends(op) then ins / 0x4_0000
    else Wrap(SignedImm(ins))
  }

  /** When C defines the operation. */
  predicate Defined(op: nat, a: Word, b: Word) {
    if op in {OP_LSL, OP_LSL_I, OP_LSR, OP_LSR_I, OP_ASR, OP_ASR_I} then b < 32
    else if op in {OP_DIV, OP_DIVU, OP_MOD, OP_MODU} then
      Signed(b) != 0 && !(Signed(a) == -0x8000_0000 && Signed(b) == -1)
    else true
  }

  predicate BitAt(v: Word, i: int) {
    0 <= i < 32 && Bit(v, i)
  }

  function Magnitude(x: int): nat {
    if x < 0 then -x else x
  }

  /** The remainder of a division that truncates. */
  predicate IsRemainder(r: int, x: int, y: int) {
    Magnitude(r) < Magnitude(y) && (r != 0 ==> (r < 0) == (x < 0))
  }

  predicate IsMultiple(x: int, q: int, y: int) {
    x == q * y
  }

  ghost predicate Divides(y: int, x: int) {
    exists q :: IsMultiple(x, q, y)
  }

  /** What each opcode computes from its left operand `a` and its right operand
      `b`: bits, signed numbers modulo 2^32, quotients and remainders. */
  ghost predicate Computes(op: nat, a: Word, b: Word, v: Word) {
    if op in {OP_AND, OP_AND_I} then forall i: nat | i < 32 :: Bit(v, i) == (Bit(a, i) && Bit(b, i))
    else if op in {OP_OR, OP_OR_I} then forall i: nat | i < 32 :: Bit(v, i) == (Bit(a, i) || Bit(b, i))
    else if op in {OP_XOR, OP_XOR_I} then forall i: nat | i < 32 :: Bit(v, i) == (Bit(a, i) != Bit(b, i))
    else if op in {OP_LSL, OP_LSL_I} then forall i: nat | i < 32 :: Bit(v, i) == BitAt(a, i - b)
    else if op in {OP_LSR, OP_LSR_I} then forall i: nat | i < 32 :: Bit(v, i) == BitAt(a, i + b)
    else if op in {OP_ASR, OP_ASR_I} then Signed(v) * Pow2(b) <= Signed(a) < (Signed(v) + 1) * Pow2(b)
    else if op in {OP_ADD, OP_ADD_I} then v == Wrap(Signed(a) + Signed(b))
    else if op == OP_SUB then v == Wrap(Signed(a) - Signed(b))
    else if op == OP_MUL then v == Wrap(Signed(a) * Signed(b))
    else if op in {OP_DIV, OP_DIVU} then IsRemainder(Signed(a) - Signed(v) * Signed(b), Signed(a), Signed(b))
    else if op in {OP_MOD, OP_MODU} then
      IsRemainder(Signed(v), Signed(a), Signed(b)) && Divides(Signed(b), Signed(a) - Signed(v))
    else false
  }

  lemma LogicMeets(op: nat, a: Word, b: Word)
    requires op in {OP_AND, OP_AND_I, OP_OR, OP_OR_I, OP_XOR, OP_XOR_I}
    ensures AluOf(op).AluForm?
    ensures var r := AluValue(AluOf(op).alu, a, b); r.Ok? && Computes(op, a, b, r.value)
  {
    hide Bit, And, Or, Xor;
    forall i: nat | i < 32
      ensures Bit(And(a, b), i) == (Bit(a, i) && Bit(b, i))
      ensures Bit(Or(a, b), i) == (Bit(a, i) || Bit(b, i))
      ensures Bit(Xor(a, b), i) == (Bit(a, i) != Bit(b, i))
    {
      AluLaws.BitwiseOperations(a, b, i);
    }
  }

  lemma ShiftMeets(op: nat, a: Word, b: Word)
    requires op in {OP_LSL, OP_LSL_I, OP_LSR, OP_LSR_I, OP_ASR, OP_ASR_I}
    ensures AluOf(op).AluForm?
    ensures var r := AluValue(AluOf(op).alu, a, b);
            !r.Panic? && (r.Ok? <==> b < 32) && (r.Ok? ==> Computes(op, a, b, r.value))
  {
    if b < 32 {
      ShiftsByBits(a, b);
      AluLaws.ArithmeticShiftRight(a, b);
      var alu := AluOf(op).alu;
      assert alu == if op in {OP_LSL, OP_LSL_I} then AluLsl else if op in {OP_LSR, OP_LSR_I} then AluLsr else AluAsr;
      hide AluValue, Bit, Pow2, Signed, AluOf;
    } else {
      hide Computes, Bit, Pow2;
    }
  }

  lemma ShiftsByBits(a: Word, b: Word)
    requires b < 32
    ensures AluValue(AluLsl, a, b).Ok? && AluValue(AluLsr, a, b).Ok?
    ensures forall i: nat | i < 32 :: Bit(AluValue(AluLsl, a, b).value, i) == BitAt(a, i - b)
    ensures forall i: nat | i < 32 :: Bit(AluValue(AluLsr, a, b).value, i) == BitAt(a, i + b)
  {
    hide AluValue, Bit;
    AluLaws.ShiftLeft(a, b, 0);
    AluLaws.LogicalShiftRight(a, b, 0);
    forall i: nat | i < 32
      ensures Bit(AluValue(AluLsl, a, b).value, i) == BitAt(a, i - b)
      ensures Bit(AluValue(AluLsr, a, b).value, i) == BitAt(a, i + b)
    {
      AluLaws.ShiftLeft(a, b, i);
      AluLaws.LogicalShiftRight(a, b, i);
    }
  }

  lemma SumMeets(op: nat, a: Word, b: Word)
    requires op in {OP_ADD, OP_ADD_I, OP_SUB, OP_MUL}
    ensures AluOf(op).AluForm?
    ensures var r := AluValue(AluOf(op).alu, a, b); r.Ok? && Computes(op, a, b, r.value)
  {
    AluLaws.ModularArithmetic(a, b);
    var alu := AluOf(op).alu;
    assert alu == if op == OP_SUB then AluSub else if op == OP_MUL then AluMul else AluAdd;
    hide AluValue, Wrap, Signed, AluOf;
  }

  lemma DivisionMeets(op: nat, a: Word, b: Word)
    requires op in {OP_DIV, OP_DIVU, OP_MOD, OP_MODU}
    ensures AluOf(op).AluForm?
    ensures var r := AluValue(AluOf(op).alu, a, b);
            !r.Panic? && (r.Ok? <==> Defined(op, a, b)) && (r.Ok? ==> Computes(op, a, b, r.value))
  {
    AluLaws.DivisionLaw(a, b);
    var alu := AluOf(op).alu;
    assert alu == if op in {OP_DIV, OP_DIVU} then AluDiv else AluMod;
    assert Signed(b) != 0 <==> b != 0;
    assert !AluValue(alu, a, b).Panic?;
    hide AluValue, Signed, AluOf;
    if AluValue(alu, a, b).Ok? {
      var q, r := Signed(AluValue(AluDiv, a, b).value), Signed(AluValue(AluMod, a, b).value);
      assert IsMultiple(Signed(a) - r, q, Signed(b));
      assert IsRemainder(r, Signed(a), Signed(b));
    }
  }

  lemma OperandMeets(c: Cpu, ins: Word)
    requires Arithmetic(Opcode(ins)) && Rs1(ins) < 32 && Rd(ins) < 32
    ensures AluOf(Opcode(ins)).AluForm?
    ensures SecondOperand(c, AluOf(Opcode(ins)).second, ins)
         == if FieldsNameRegisters(ins) then Ok(Right(c, ins)) else Panic
  {
    hide Opcode, Rs1, Rs2, Rd;
    var op := Opcode(ins);
    assert AluOf(op) == AluForm(AluOf(op).alu, if TwoRegisters(op) then Register
                                                     else if ZeroExtends(op) then Zimm else Simm);
    hide AluOf;
  }

  lemma OperationMeets(op: nat, a: Word, b: Word)
    requires Arithmetic(op)
    ensures AluOf(op).AluForm?
    ensures var r := AluValue(AluOf(op).alu, a, b);
            !r.Panic? && (r.Ok? <==> Defined(op, a, b)) && (r.Ok? ==> Computes(op, a, b, r.value))
  {
    hide AluValue, Computes, AluOf;
    if op in {OP_AND, OP_AND_I, OP_OR, OP_OR_I, OP_XOR, OP_XOR_I} {
      LogicMeets(op, a, b);
    } else if op in {OP_LSL, OP_LSL_I, OP_LSR, OP_LSR_I, OP_ASR, OP_ASR_I} {
      ShiftMeets(op, a, b);
    } else if op in {OP_ADD, OP_ADD_I, OP_SUB, OP_MUL} {
      SumMeets(op, a, b);
    } else {
      DivisionMeets(op, a, b);
    }
  }

  /** The state after a step that only writes `v` to register `rd` and goes on
      to the next instruction. */
  function WroteRegister(c: Cpu, rd: nat, v: Word): Cpu
    requires rd < 32
  {
    c.(pc := Wrap(c.pc + 4), regs := Put(c.regs, rd, v), msr := TscClk(c.msr))
  }

  /** Arithmetic: a step that fetches such an instruction retires exactly when
      its fields name registers and C defines the operation; it then writes
      what the opcode computes of rs1 and the right operand to rd, and changes
      nothing else but pc and the timer. */
  lemma ArithmeticInsn(c: Cpu, ins: Word)
    requires Fetched(c) == Some(ins) && Arithmetic(Opcode(ins))
    ensures RetiresIff(c, FieldsNameRegisters(ins)
                          && Defined(Opcode(ins), RegValue(c, Rs1(ins)), Right(c, ins)))
    ensures Step(c).Ok? ==>
              exists v :: Computes(Opcode(ins), RegValue(c, Rs1(ins)), Right(c, ins), v)
                          && Step(c).value.cpu == WroteRegister(c, Rd(ins), v)
  {
    hide Step, Execute, Fetched, TscClk, Opcode, Rs1, Rs2, Rd, AluValue, Computes, Defined, SecondOperand, Right, AluOf,
         Arithmetic, TwoRegisters;
    StepOfFetched(c, ins);
    AluExecutes(Tick(c), ins);
    if Rs1(ins) < 32 && Rd(ins) < 32 {
      OperandMeets(Tick(c), ins);
    }
    if FieldsNameRegisters(ins) {
      RightOfTick(c, ins);
      OperationMeets(Opcode(ins), RegValue(c, Rs1(ins)), Right(c, ins));
      var r := AluValue(AluOf(Opcode(ins)).alu, RegValue(c, Rs1(ins)), Right(c, ins));
      if r.Ok? {
        assert Step(c) == Ok(Stepped(WroteRegister(c, Rd(ins), r.value), false));
      }
    }
  }

  lemma RightOfTick(c: Cpu, ins: Word)
    requires FieldsNameRegisters(ins)
    ensures Right(Tick(c), ins) == Right(c, ins) && RegValue(Tick(c), Rs1(ins)) == RegValue(c, Rs1(ins))
  {
    hide TscClk, Opcode, Rs1, Rs2, Rd;
  }

  lemma AluExecutes(c: Cpu, ins: Word)
    requires Arithmetic(Opcode(ins))
    ensures AluOf(Opcode(ins)).AluForm? && Execute(c, ins) == ExecAlu(c, AluOf(Opcode(ins)), ins)
  {
    hide Opcode, ExecAlu;
  }

  // ---------- comparison and moves ----------

  /** CMP sets CC to one of three orders of its operands and changes nothing
      else; any other attribute is an undefined instruction. */
  lemma CmpInsn(c: Cpu, ins: Word)
    requires Fetched(c) == Some(ins) && Opcode(ins) == OP_CMP
    ensures Attr(ins) > 2 ==> Step(c) == Ok(Stepped(Entry(c, Trap(VECT_EINSN, c.pc, false)), true))
    ensures Attr(ins) <= 2 ==>
              && RetiresIff(c, Rs1(ins) < 32 && Rs2(ins) < 32)
              && (Step(c).Ok? ==>
                    var a, b, m := RegValue(c, Rs1(ins)), RegValue(c, Rs2(ins)), TscClk(c.msr);
                    var cc := if Attr(ins) == 0 then a == b
                              else if Attr(ins) == 1 then Signed(a) > Signed(b)
                              else a > b;
                    Step(c).value.cpu == c.(pc := Wrap(c.pc + 4), msr := m.(psr := c.msr.psr.(cc := cc))))
  {
    hide Step, Execute, Fetched, TscClk, Opcode, Rs1, Rs2, Attr, Signed;
    StepOfFetched(c, ins);
    TickFrame(c.msr);
    ControlExecutes(Tick(c), ins);
    RaisedIsEntry(c, Trap(VECT_EINSN, c.pc, false));
    hide RaiseException, Entry;
  }

  /** Which function executes each opcode that is neither arithmetic nor an
      access to memory. */
  lemma ControlExecutes(c: Cpu, ins: Word)
    ensures Opcode(ins) == OP_CMP ==> Execute(c, ins) == ExecCmp(c, ins)
    ensures Opcode(ins) == OP_JMP ==> Execute(c, ins) == ExecJmp(c, ins)
    ensures Opcode(ins) == OP_JMP_I_LNK ==> Execute(c, ins) == ExecJmpLnk(c, ins)
    ensures Opcode(ins) == OP_RET ==> Execute(c, ins) == Ok(ExecRet(c))
    ensures Opcode(ins) == OP_WMSR ==> Execute(c, ins) == ExecWmsr(c, ins)
    ensures Opcode(ins) == OP_RMSR ==> Execute(c, ins) == ExecRmsr(c, ins)
    ensures Opcode(ins) == OP_MHI ==> Execute(c, ins) == SetRegNext(c, Rd(ins), Wrap(Imm18(ins) * 0x4000))
    ensures Opcode(ins) in {OP_BARR, OP_VENTER, OP_VLEAVE} ==> Execute(c, ins) == Ok(Fall(c))
    ensures Opcode(ins) in {OP_JMP_I, OP_BT, OP_BF} ==>
              var taken := (Opcode(ins) == OP_BT ==> c.msr.psr.cc) && (Opcode(ins) == OP_BF ==> !c.msr.psr.cc);
              Execute(c, ins) == Ok(if taken then Flush(c.(pc := PcRelative(c, ins))) else Fall(c))
  {
    hide Opcode, Rd, Imm18, PcRelative, ExecCmp, ExecJmp, ExecJmpLnk, ExecRet, ExecWmsr, ExecRmsr, SetRegNext;
    ControlOpcode(Opcode(ins));
    hide AluOf, LoadWidth, StoreWidth;
  }

  lemma ControlOpcode(op: nat)
    ensures op in {OP_CMP, OP_JMP, OP_JMP_I, OP_JMP_I_LNK, OP_BT, OP_BF, OP_RET, OP_WMSR, OP_RMSR, OP_MHI,
                   OP_BARR, OP_VENTER, OP_VLEAVE}
         ==> AluOf(op).NotAlu? && LoadWidth(op).None? && StoreWidth(op).None?
  {
  }

  /** MHI puts its 18-bit immediate above 14 zero bits. */
  lemma MhiInsn(c: Cpu, ins: Word)
    requires Fetched(c) == Some(ins) && Opcode(ins) == OP_MHI
    ensures RetiresIff(c, Rd(ins) < 32)
    ensures Step(c).Ok? ==> Step(c).value.cpu == WroteRegister(c, Rd(ins), ins / 0x1000 % 0x4_0000 * 0x4000)
  {
    hide Step, Execute, Fetched, TscClk, Opcode, Rd;
    StepOfFetched(c, ins);
    ControlExecutes(Tick(c), ins);
  }

  /** BARR, VENTER and VLEAVE do nothing. */
  lemma IdleInsn(c: Cpu, ins: Word)
    requires Fetched(c) == Some(ins) && Opcode(ins) in {OP_BARR, OP_VENTER, OP_VLEAVE}
    ensures Step(c) == Ok(Stepped(c.(pc := Wrap(c.pc + 4), msr := TscClk(c.msr)), false))
  {
    hide Step, Execute, Fetched, TscClk, Opcode;
    StepOfFetched(c, ins);
    ControlExecutes(Tick(c), ins);
  }

  // ---------- jumps ----------

  /** The call stack after a call or a return. */
  function Pushed(t: CallStack.Trace, f: CallStack.Frame): CallStack.Trace {
    t.(frames := t.frames + [f])
  }

  function Popped(t: CallStack.Trace): CallStack.Trace {
    if |t.frames| == 0 then t.(damaged := true) else t.(frames := t.frames[..|t.frames| - 1])
  }

  predicate Full(t: CallStack.Trace) {
    |t.frames| >= CallStack.MAX_STACK_TRACE_DEPTH
  }

  /** Where a JMP goes: to what rs1 held before, unless it links in that very
      register. */
  function JmpTarget(c: Cpu, ins: Word): Word
    requires Rs1(ins) < 32
  {
    if Rd(ins) == Rs1(ins) && Rd(ins) != 0 then Wrap(c.pc + 4) else RegValue(c, Rs1(ins))
  }

  /** JMP links in rd and goes to its target; through r1 it is a return, else
      linking in r1 a call, recorded with that target. */
  lemma JmpInsn(c: Cpu, ins: Word)
    requires Fetched(c) == Some(ins) && Opcode(ins) == OP_JMP
    ensures RetiresIff(c, Rs1(ins) < 32 && Rd(ins) < 32 && !(Rs1(ins) != 1 && Rd(ins) == 1 && Full(c.trace)))
    ensures Step(c).Ok? ==>
              var link, target := Wrap(c.pc + 4), JmpTarget(c, ins);
              Step(c).value.cpu
              == c.(pc := target, regs := Put(c.regs, Rd(ins), link), msr := TscClk(c.msr),
                    trace := if Rs1(ins) == 1 then Popped(c.trace)
                             else if Rd(ins) == 1 then Pushed(c.trace, CallStack.Frame(c.pc, link, target))
                             else c.trace)
  {
    hide Step, Execute, Fetched, TscClk, Opcode, Rs1, Rd;
    StepOfFetched(c, ins);
    ControlExecutes(Tick(c), ins);
  }

  /** The signed 26-bit displacement, in instructions. */
  function SignedRel(ins: Word): int {
    if ins / 0x40 < 0x200_0000 then ins / 0x40 else ins / 0x40 - 0x400_0000
  }

  lemma RelativeTarget(c: Cpu, ins: Word)
    ensures PcRelative(c, ins) == Wrap(c.pc + 4 * SignedRel(ins))
  {
  }

  /** The pc-relative jumps always retire, and move pc alone. */
  lemma RelativeInsn(c: Cpu, ins: Word)
    requires Fetched(c) == Some(ins) && Opcode(ins) in {OP_JMP_I, OP_BT, OP_BF}
    ensures var taken := (Opcode(ins) == OP_BT ==> c.msr.psr.cc) && (Opcode(ins) == OP_BF ==> !c.msr.psr.cc);
            Step(c) == Ok(Stepped(c.(pc := Wrap(c.pc + if taken then 4 * SignedRel(ins) else 4), msr := TscClk(c.msr)),
                                  false))
  {
    hide Step, Execute, PcRelative, SignedRel, Fetched, Opcode;
    StepOfFetched(c, ins);
    TickFrame(c.msr);
    hide TscClk;
    ControlExecutes(Tick(c), ins);
    RelativeTarget(Tick(c), ins);
    TickKeepsRest(c);
    hide Tick;
  }

  /** JMP_I_LNK is the call among them: it links in r1 and is recorded. */
  lemma CallInsn(c: Cpu, ins: Word)
    requires Fetched(c) == Some(ins) && Opcode(ins) == OP_JMP_I_LNK
    ensures RetiresIff(c, !Full(c.trace))
    ensures Step(c).Ok? ==>
              var link, target := Wrap(c.pc + 4), Wrap(c.pc + 4 * SignedRel(ins));
              Step(c).value.cpu
              == c.(pc := target, regs := c.regs[1 := link], msr := TscClk(c.msr),
                    trace := Pushed(c.trace, CallStack.Frame(c.pc, link, target)))
  {
    hide Step, Execute, PcRelative, SignedRel, Fetched, TscClk, Opcode;
    StepOfFetched(c, ins);
    ControlExecutes(Tick(c), ins);
    RelativeTarget(Tick(c), ins);
  }

  // ---------- system instructions ----------

  /** RET always retires, in either mode, and moves pc and PSR alone. */
  lemma RetInsn(c: Cpu, ins: Word)
    requires Fetched(c) == Some(ins) && Opcode(ins) == OP_RET
    ensures Step(c) == Ok(Stepped(c.(pc := c.msr.epc, msr := TscClk(c.msr).(psr := c.msr.epsr)), false))
  {
    hide Step, Execute, Fetched, Opcode;
    StepOfFetched(c, ins);
    TickFrame(c.msr);
    hide TscClk;
    ControlExecutes(Tick(c), ins);
  }

  /** SYSCALL and the undefined encodings take their exceptions. */
  lemma RaisingInsn(c: Cpu, ins: Word)
    requires Fetched(c) == Some(ins) && (Opcode(ins) == OP_SYSCALL || !ValidEncoding(ins))
    ensures var t := if Opcode(ins) == OP_SYSCALL then Trap(VECT_ESYSCALL, 0, true)
                     else Trap(VECT_EINSN, c.pc, false);
            Step(c) == Ok(Stepped(Entry(c, t), true))
  {
    hide Step, Fetched, Opcode, Entry, Attr, Simm14, Rs1, Rd, TscClk, Cause;
    CauseOfFetched(c);
    PreciseExceptions(c);
  }

  /** The bits of an MSR index: those of the register or of the immediate. */
  ghost predicate IndexIs(reg: Word, ins: Word, i: Half) {
    forall k: nat | k < 16 :: Bit(i, k) == (Bit(reg, k) || Bit(ins / 0x4_0000, k))
  }

  lemma IndexFound(reg: Word, ins: Word)
    ensures IndexIs(reg, ins, MsrIndex(reg, ins))
  {
    var x := Or(reg, Imm14(ins));
    Pow2Of32();
    assert Pow2(8) == 256;
    assert Pow2(16) == 256 * Pow2(8);
    AluLaws.LowIsRemainder(x, 16);
    hide Pow2, Low, Bit, Combine;
    forall k: nat | k < 16
      ensures Bit(MsrIndex(reg, ins), k) == (Bit(reg, k) || Bit(ins / 0x4_0000, k))
    {
      CombineBit(OrGate, reg, Imm14(ins), 32, k);
      AluLaws.LowBit(x, 16, k);
    }
  }

  lemma IndexUnique(reg: Word, ins: Word, i: Half)
    requires IndexIs(reg, ins, i)
    ensures i == MsrIndex(reg, ins)
  {
    IndexFound(reg, ins);
    assert Pow2(8) == 256;
    assert Pow2(16) == 256 * Pow2(8);
    hide Pow2, MsrIndex, Bit;
    SameBits(i, MsrIndex(reg, ins), 16);
  }

  /** WMSR writes rs1 to the register whose index is rd or the immediate. */
  lemma WmsrInsn(c: Cpu, ins: Word, i: Half)
    requires Fetched(c) == Some(ins) && Opcode(ins) == OP_WMSR
    requires Rd(ins) < 32 ==> IndexIs(RegValue(c, Rd(ins)), ins, i)
    ensures RetiresIff(c, Rd(ins) < 32 && Rs1(ins) < 32 && Wmsr(TscClk(c.msr), i, RegValue(c, Rs1(ins))).Ok?)
    ensures Step(c).Ok? ==>
              Step(c).value.cpu
              == c.(pc := Wrap(c.pc + 4), msr := Wmsr(TscClk(c.msr), i, RegValue(c, Rs1(ins))).value)
  {
    hide Step, Execute, Fetched, TscClk, Opcode, Rs1, Rd, Wmsr, MsrIndex, IndexIs;
    StepOfFetched(c, ins);
    ControlExecutes(Tick(c), ins);
    if Rd(ins) < 32 {
      IndexUnique(RegValue(c, Rd(ins)), ins, i);
    }
  }

  /** RMSR reads into rd the register whose index is rs1 or the immediate. */
  lemma RmsrInsn(c: Cpu, ins: Word, i: Half)
    requires Fetched(c) == Some(ins) && Opcode(ins) == OP_RMSR
    requires Rs1(ins) < 32 ==> IndexIs(RegValue(c, Rs1(ins)), ins, i)
    ensures RetiresIff(c, Rd(ins) < 32 && Rs1(ins) < 32 && Rmsr(TscClk(c.msr), i).Ok?)
    ensures Step(c).Ok? ==> Step(c).value.cpu == WroteRegister(c, Rd(ins), Rmsr(TscClk(c.msr), i).value)
  {
    hide Step, Execute, Fetched, TscClk, Opcode, Rs1, Rd, Rmsr, MsrIndex, IndexIs;
    StepOfFetched(c, ins);
    ControlExecutes(Tick(c), ins);
    if Rs1(ins) < 32 {
      IndexUnique(RegValue(c, Rs1(ins)), ins, i);
    }
  }

  // ---------- loads and stores ----------

  predicate Loading(op: nat) {
    op in {OP_LDWU, OP_LDH, OP_LDHU, OP_LDB, OP_LDBU}
  }

  predicate Storing(op: nat) {
    op in {OP_STW, OP_STH, OP_STB}
  }

  /** The bytes each opcode moves. */
  function AccessBytes(op: nat): (n: nat)
    ensures n in {1, 2, 4}
  {
    if op in {OP_LDWU, OP_STW} then 4 else if op in {OP_LDH, OP_LDHU, OP_STH} then 2 else 1
  }

  function WidthOf(n: nat): Width
    requires n in {1, 2, 4}
  {
    if n == 4 then W32 else if n == 2 then W16 else W8
  }

  /** The little-endian number in `n` bytes of memory. */
  function Bytes(ram: seq<Byte>, a: nat, n: nat): nat
    requires a + n <= |ram|
    decreases n
  {
    if n == 0 then 0 else ram[a] + 0x100 * Bytes(ram, a + 1, n - 1)
  }

  /** 2 to the power of the bits in `n` bytes. */
  function Span(n: nat): nat
    requires n in {1, 2, 4}
  {
    if n == 1 then 0x100 else if n == 2 then 0x1_0000 else 0x1_0000_0000
  }

  lemma BytesAre(ram: seq<Byte>, a: nat, n: nat)
    requires n in {1, 2, 4} && a + n <= |ram|
    ensures LoadRam(ram, a, WidthOf(n)) == Bytes(ram, a, n)
  {
    if n == 4 {
      assert Bytes(ram, a + 3, 1) == ram[a + 3] as int;
      assert Bytes(ram, a + 2, 2) == ram[a + 2] + 0x100 * Bytes(ram, a + 3, 1);
      assert Bytes(ram, a + 1, 3) == ram[a + 1] + 0x100 * Bytes(ram, a + 2, 2);
    } else if n == 2 {
      assert Bytes(ram, a + 1, 1) == ram[a + 1] as int;
    }
  }

  lemma MemoryExecutes(c: Cpu, ins: Word)
    ensures Loading(Opcode(ins)) ==> Execute(c, ins) == ExecLoad(c, WidthOf(AccessBytes(Opcode(ins))), ins)
    ensures Storing(Opcode(ins)) ==> Execute(c, ins) == ExecStore(c, WidthOf(AccessBytes(Opcode(ins))), ins)
  {
    hide Opcode, ExecLoad, ExecStore;
    MemoryOpcode(Opcode(ins));
    hide AluOf, LoadWidth, StoreWidth, AccessBytes;
  }

  lemma MemoryOpcode(op: nat)
    ensures Loading(op) || Storing(op) ==> AluOf(op).NotAlu?
    ensures Loading(op) ==> LoadWidth(op) == Some(WidthOf(AccessBytes(op)))
    ensures Storing(op) ==> LoadWidth(op).None? && StoreWidth(op) == Some(WidthOf(AccessBytes(op)))
  {
  }

  /** The physical addresses of the disk. */
  predicate OnDisk(pa: Word) {
    0x8100_0000 <= pa <= 0x8100_0fff
  }

  /** The device access a physical read of `n` bytes is, with the value it
      returns. */
  function DeviceRead(b: Ata.Bus, pa: Word, n: nat): Res<Ata.ReadOut> {
    if !OnDisk(pa) || n == 4 then Panic else if n == 1 then Ata.ReadReg8(b, pa) else Ata.ReadReg16(b, pa)
  }

  lemma BusLoadMeets(c: Cpu, pa: Word, n: nat)
    requires n in {1, 2, 4}
    ensures pa < MMIO_PHY_BASE ==>
              BusLoad(c, pa, WidthOf(n)) == if pa + n <= |c.ram| then Ok(Loaded(c, Bytes(c.ram, pa, n))) else Undefined
    ensures pa >= MMIO_PHY_BASE ==>
              BusLoad(c, pa, WidthOf(n)) == match DeviceRead(AtaBus(c), pa, n)
                                            case Ok(r) => Ok(Loaded(WithBus(c, r.bus), r.value))
                                            case Panic => Panic
                                            case Undefined => Undefined
  {
    hide LoadRam, Bytes, Match, Ata.ReadReg8, Ata.ReadReg16;
    if pa < MMIO_PHY_BASE {
      if pa + n <= |c.ram| {
        BytesAre(c.ram, pa, n);
      }
    } else {
      DiskHandles(WidthOf(n), pa);
      if OnDisk(pa) {
        HandlerFits(WidthOf(n), pa, false);
      }
    }
  }

  lemma DiskHandles(w: Width, pa: Word)
    ensures Match(Domain(w), pa, false).Some? <==> OnDisk(pa)
    ensures Match(Domain(w), pa, true).Some? <==> OnDisk(pa) && w != W16
  {
    MatchIsFirst(Domain(w), pa, false);
    MatchIsFirst(Domain(w), pa, true);
    hide Match;
    if OnDisk(pa) {
      match w {
        case W8 => assert DOMAIN8[0].Covers(pa, false) && DOMAIN8[1].Covers(pa, true);
        case W16 => assert DOMAIN16[0].Covers(pa, false);
        case W32 => assert DOMAIN32[0].Covers(pa, false) && DOMAIN32[1].Covers(pa, true);
      }
    }
  }

  /** The exception of a data access that translation refuses. */
  function Refused(t: Translation, va: Word): Trap
    requires !t.Hit?
  {
    Trap(if t.Miss? then 0x20 else 0x18, va, false)
  }

  /** A load: refused, or from memory, or from the disk; the value is
      zero-extended whatever the opcode. */
  lemma LoadInsn(c: Cpu, ins: Word)
    requires Fetched(c) == Some(ins) && Loading(Opcode(ins))
    ensures Rs1(ins) >= 32 ==> !Step(c).Ok?
    ensures Rs1(ins) < 32 ==>
              var va, n := Wrap(RegValue(c, Rs1(ins)) + SignedImm(ins)), AccessBytes(Opcode(ins));
              var t := Dmmu(TscClk(c.msr), va, false);
              if !t.Hit? then Step(c) == Ok(Stepped(Entry(c, Refused(t, va)), true))
              else if t.pa < MMIO_PHY_BASE then
                && RetiresIff(c, t.pa + n <= |c.ram| && Rd(ins) < 32)
                && (Step(c).Ok? ==> Step(c).value.cpu == WroteRegister(c, Rd(ins), Bytes(c.ram, t.pa, n)))
              else
                var r := DeviceRead(AtaBus(Tick(c)), t.pa, n);
                && RetiresIff(c, r.Ok? && Rd(ins) < 32)
                && (Step(c).Ok? ==>
                      Step(c).value.cpu == WithBus(WroteRegister(c, Rd(ins), r.value.value), r.value.bus))
  {
    hide Step, Execute, Fetched, TscClk, Opcode, Rs1, Rd, Dmmu, BusLoad, Bytes, DeviceRead, SignedImm, Entry,
         RaiseException, AccessBytes;
    StepOfFetched(c, ins);
    MemoryExecutes(Tick(c), ins);
    SimmMeets(ins);
    if Rs1(ins) < 32 {
      var base, n := RegValue(c, Rs1(ins)), AccessBytes(Opcode(ins));
      var va := Wrap(base + SignedImm(ins));
      WrapOfSum(base, ins);
      var t := Dmmu(TscClk(c.msr), va, false);
      if t.Hit? {
        BusLoadMeets(Tick(c), t.pa, n);
      } else {
        RaisedIsEntry(c, Refused(t, va));
      }
    }
  }

  lemma SimmMeets(ins: Word)
    ensures Simm14(ins) == Wrap(SignedImm(ins))
  {
  }

  lemma WrapOfSum(base: Word, ins: Word)
    ensures Wrap(base + Simm14(ins)) == Wrap(base + SignedImm(ins))
  {
  }

  /** `ram` with the bytes of `v` at `pa`: they read back as `v` cut to `n`
      bytes, and every other byte is as before. */
  ghost predicate Stored(ram: seq<Byte>, ram': seq<Byte>, pa: nat, n: nat, v: Word)
    requires n in {1, 2, 4}
  {
    && |ram'| == |ram| && pa + n <= |ram|
    && Bytes(ram', pa, n) == v % Span(n)
    && forall k | 0 <= k < |ram| && !(pa <= k < pa + n) :: ram'[k] == ram[k]
  }

  lemma StoreMeets(ram: seq<Byte>, pa: nat, n: nat, v: Word)
    requires n in {1, 2, 4} && pa + n <= |ram|
    ensures Stored(ram, StoreRam(ram, pa, WidthOf(n), v), pa, n, v)
  {
    var ram' := StoreRam(ram, pa, WidthOf(n), v);
    LoadAfterStore(ram, pa, WidthOf(n), v);
    BytesAre(ram', pa, n);
    hide LoadRam, Bytes;
  }

  /** The state after a step that only stores. */
  function WroteMemory(c: Cpu, ram: seq<Byte>): Cpu {
    c.(pc := Wrap(c.pc + 4), ram := ram, msr := TscClk(c.msr))
  }

  function DeviceWrite(b: Ata.Bus, pa: Word, n: nat, v: Word): Res<Ata.Bus> {
    if !OnDisk(pa) || n != 1 then Panic else Ata.WriteReg8(b, pa, v % 0x100)
  }

  lemma BusStoreMeets(c: Cpu, pa: Word, n: nat, v: Word)
    requires n in {1, 2, 4}
    ensures pa < MMIO_PHY_BASE ==>
              && (BusStore(c, pa, WidthOf(n), v).Ok? <==> pa + n <= |c.ram|)
              && (BusStore(c, pa, WidthOf(n), v).Ok? ==>
                    var c' := BusStore(c, pa, WidthOf(n), v).value;
                    c' == c.(ram := c'.ram) && Stored(c.ram, c'.ram, pa, n, v))
    ensures pa >= MMIO_PHY_BASE ==>
              BusStore(c, pa, WidthOf(n), v) == match DeviceWrite(AtaBus(c), pa, n, v)
                                                case Ok(b) => Ok(WithBus(c, b))
                                                case Panic => Panic
                                                case Undefined => Undefined
  {
    hide StoreRam, Stored, Match, Ata.WriteReg8;
    if pa < MMIO_PHY_BASE {
      if pa + n <= |c.ram| {
        StoreMeets(c.ram, pa, n, v);
      }
    } else {
      DiskHandles(WidthOf(n), pa);
      if Match(Domain(WidthOf(n)), pa, true).Some? {
        HandlerFits(WidthOf(n), pa, true);
      }
    }
  }

  /** A store: refused, or to memory, or a byte to the disk; rd is the base
      register and rs1 the value. */
  lemma StoreInsn(c: Cpu, ins: Word)
    requires Fetched(c) == Some(ins) && Storing(Opcode(ins))
    ensures Rd(ins) >= 32 ==> !Step(c).Ok?
    ensures Rd(ins) < 32 ==>
              var va, n := Wrap(RegValue(c, Rd(ins)) + SignedImm(ins)), AccessBytes(Opcode(ins));
              var t := Dmmu(TscClk(c.msr), va, true);
              if !t.Hit? then Step(c) == Ok(Stepped(Entry(c, Refused(t, va)), true))
              else if Rs1(ins) >= 32 then !Step(c).Ok?
              else if t.pa < MMIO_PHY_BASE then
                && RetiresIff(c, t.pa + n <= |c.ram|)
                && (Step(c).Ok? ==>
                      var c' := Step(c).value.cpu;
                      Stored(c.ram, c'.ram, t.pa, n, RegValue(c, Rs1(ins))) && c' == WroteMemory(c, c'.ram))
              else
                var b := DeviceWrite(AtaBus(Tick(c)), t.pa, n, RegValue(c, Rs1(ins)));
                && RetiresIff(c, b.Ok?)
                && (Step(c).Ok? ==> Step(c).value.cpu == WithBus(WroteMemory(c, c.ram), b.value))
  {
    hide Step, Execute, Fetched, TscClk, Opcode, Rs1, Rd, Dmmu, BusStore, Stored, DeviceWrite, SignedImm, Entry,
         RaiseException, AccessBytes;
    StepOfFetched(c, ins);
    MemoryExecutes(Tick(c), ins);
    SimmMeets(ins);
    if Rd(ins) < 32 {
      var base, n := RegValue(c, Rd(ins)), AccessBytes(Opcode(ins));
      var va := Wrap(base + SignedImm(ins));
      WrapOfSum(base, ins);
      var t := Dmmu(TscClk(c.msr), va, true);
      if t.Hit? {
        if Rs1(ins) < 32 {
          BusStoreMeets(Tick(c), t.pa, n, RegValue(c, Rs1(ins)));
        }
      } else {
        RaisedIsEntry(c, Refused(t, va));
      }
    }
  }

  /** The laws above cover every instruction word. */
  lemma EveryInstruction(ins: Word)
    ensures var op := Opcode(ins);
            || Arithmetic(op) || Loading(op) || Storing(op) || !ValidEncoding(ins)
            || op in {OP_CMP, OP_MHI, OP_BARR, OP_VENTER, OP_VLEAVE, OP_JMP, OP_JMP_I, OP_JMP_I_LNK, OP_BT, OP_BF,
                      OP_RET, OP_SYSCALL, OP_WMSR, OP_RMSR}
  {
    hide Opcode;
  }
}
