/** The processor (exec.c) as a value and one iteration of its loop as a
    function: clock the timer, poll interrupts, fetch, decode, execute. */
module Exec {
  import opened Words
  import opened Msr
  import opened Interrupts
  import opened Mmu
  import opened Memory
  import opened Mmio
  import opened Decode
  import Ata
  import CallStack

  const VECT_EINSN: Word := 0x04
  const VECT_EIRQ: Word := 0x08
  const VECT_ESYSCALL: Word := 0x0c
  const VECT_EIPF: Word := 0x14
  const VECT_EDPF: Word := 0x18
  const VECT_EITM: Word := 0x1c
  const VECT_EDTM: Word := 0x20

  type Regs = s: seq<Word> | |s| == 32 witness seq(32, _ => 0)

  datatype Cpu = Cpu(
    pc: Word, regs: Regs, msr: MsrFile, ram: seq<Byte>, ata: Ata.Device, trace: CallStack.Trace)

  /** Where an instruction leaves the loop body: `break`, `goto flush_pc` or,
      with an exception raised, `goto handle_exception`. */
  datatype Next = Fall(cpu: Cpu) | Flush(cpu: Cpu) | Raised(cpu: Cpu)

  function Reset(c: Cpu, vector: Word): Cpu {
    c.(pc := vector, regs := seq(32, _ => 0), msr := MSR_RESET)
  }

  function GetReg(c: Cpu, n: nat): Res<Word> {
    if n >= 32 then Panic else Ok(if n == 0 then 0 else c.regs[n])
  }

  function SetReg(c: Cpu, n: nat, v: Word): Res<Cpu> {
    if n >= 32 then Panic else Ok(if n == 0 then c else c.(regs := c.regs[n := v]))
  }

  function SetRegNext(c: Cpu, n: nat, v: Word): Res<Next> {
    var c' :- SetReg(c, n, v);
    Ok(Fall(c'))
  }

  /** `cpu_raise_exception`. */
  function RaiseException(c: Cpu, vector: Word, lsa: Word, syscall: bool): Cpu {
    var m := c.msr;
    c.(pc := Wrap(vector - 4),
       msr := m.(epc := Wrap(c.pc + (if syscall then 4 else 0)),
                 elsa := lsa,
                 epsr := m.psr,
                 psr := m.psr.(rm := true, imme := false, dmme := false, ire := false)))
  }

  // ---------- physical accesses ----------

  function Domain(w: Width): seq<Node> {
    match w
    case W8 => DOMAIN8
    case W16 => DOMAIN16
    case W32 => DOMAIN32
  }

  function AtaBus(c: Cpu): Ata.Bus {
    Ata.Bus(c.ata, c.msr.irr)
  }

  function WithBus(c: Cpu, b: Ata.Bus): Cpu {
    c.(ata := b.dev, msr := c.msr.(irr := b.irr))
  }

  datatype Loaded = Loaded(cpu: Cpu, value: Word)

  /** `phy_readm8/16/32`; the device's 32-bit callbacks panic. */
  function BusLoad(c: Cpu, pa: Word, w: Width): Res<Loaded> {
    var node :- Dispatch(Domain(w), pa, false);
    if node.None? then
      if pa + w.Bytes() <= |c.ram| then Ok(Loaded(c, LoadRam(c.ram, pa, w))) else Undefined
    else
      match node.value.handler
      case AtaRead8 => var r :- Ata.ReadReg8(AtaBus(c), pa); Ok(Loaded(WithBus(c, r.bus), r.value))
      case AtaRead16 => var r :- Ata.ReadReg16(AtaBus(c), pa); Ok(Loaded(WithBus(c, r.bus), r.value))
      case _ => Panic
  }

  /** `phy_writem8/16/32`. */
  function BusStore(c: Cpu, pa: Word, w: Width, v: Word): Res<Cpu> {
    var node :- Dispatch(Domain(w), pa, true);
    if node.None? then
      if pa + w.Bytes() <= |c.ram| then Ok(c.(ram := StoreRam(c.ram, pa, w, v))) else Undefined
    else
      match node.value.handler
      case AtaWrite8 => var b :- Ata.WriteReg8(AtaBus(c), pa, v % 0x100); Ok(WithBus(c, b))
      case _ => Panic
  }

  // ---------- arithmetic ----------

  datatype AluOp = AluAnd | AluOr | AluXor | AluLsl | AluLsr | AluAsr | AluAdd | AluSub | AluMul | AluDiv | AluMod

  datatype Operand = Register | Zimm | Simm

  datatype AluForm = NotAlu | AluForm(alu: AluOp, second: Operand)

  function AluOf(op: nat): AluForm {
    if op == OP_AND then AluForm(AluAnd, Register)
    else if op == OP_AND_I then AluForm(AluAnd, Zimm)
    else if op == OP_OR then AluForm(AluOr, Register)
    else if op == OP_OR_I then AluForm(AluOr, Zimm)
    else if op == OP_XOR then AluForm(AluXor, Register)
    else if op == OP_XOR_I then AluForm(AluXor, Simm)
    else if op == OP_LSL then AluForm(AluLsl, Register)
    else if op == OP_LSL_I then AluForm(AluLsl, Zimm)
    else if op == OP_LSR then AluForm(AluLsr, Register)
    else if op == OP_LSR_I then AluForm(AluLsr, Zimm)
    else if op == OP_ASR then AluForm(AluAsr, Register)
    else if op == OP_ASR_I then AluForm(AluAsr, Zimm)
    else if op == OP_ADD then AluForm(AluAdd, Register)
    else if op == OP_ADD_I then AluForm(AluAdd, Simm)
    else if op == OP_SUB then AluForm(AluSub, Register)
    else if op == OP_MUL then AluForm(AluMul, Register)
    else if op == OP_DIV || op == OP_DIVU then AluForm(AluDiv, Register)
    else if op == OP_MOD || op == OP_MODU then AluForm(AluMod, Register)
    else NotAlu
  }

  /** C division of ints: truncation toward zero. */
  function TruncDiv(a: int, b: int): int
    requires b != 0
  {
    if (a < 0) == (b < 0) then Abs(a) / Abs(b) else -(Abs(a) / Abs(b))
  }

  function Abs(x: int): nat {
    if x < 0 then -x else x
  }

  /** The operators on 32-bit words.  A shift by 32 or more and a quotient C
      does not define are Undefined. */
  function AluValue(alu: AluOp, a: Word, b: Word): Res<Word> {
    match alu
    case AluAnd => Ok(And(a, b))
    case AluOr => Ok(Or(a, b))
    case AluXor => Ok(Xor(a, b))
    case AluLsl => if b >= 32 then Undefined else Ok(Wrap(a * Pow2(b)))
    case AluLsr => if b >= 32 then Undefined else Ok(Wrap(a / Pow2(b)))
    case AluAsr => if b >= 32 then Undefined else Ok(Wrap(Signed(a) / Pow2(b)))
    case AluAdd => Ok(Wrap(a + b))
    case AluSub => Ok(Wrap(a - b))
    case AluMul => Ok(Wrap(a * b))
    case AluDiv =>
      if b == 0 || (a == 0x8000_0000 && b == 0xffff_ffff) then Undefined
      else Ok(Wrap(TruncDiv(Signed(a), Signed(b))))
    case AluMod =>
      if b == 0 || (a == 0x8000_0000 && b == 0xffff_ffff) then Undefined
      else Ok(Wrap(Signed(a) - TruncDiv(Signed(a), Signed(b)) * Signed(b)))
  }

  function SecondOperand(c: Cpu, second: Operand, ins: Word): Res<Word> {
    match second
    case Register => GetReg(c, Rs2(ins))
    case Zimm => Ok(Imm14(ins))
    case Simm => Ok(Simm14(ins))
  }

  function ExecAlu(c: Cpu, form: AluForm, ins: Word): Res<Next>
    requires form.AluForm?
  {
    var a :- GetReg(c, Rs1(ins));
    var b :- SecondOperand(c, form.second, ins);
    var v :- AluValue(form.alu, a, b);
    SetRegNext(c, Rd(ins), v)
  }

  // ---------- control flow ----------

  function PcRelative(c: Cpu, ins: Word): Word {
    Wrap(c.pc + Displacement(Rel26(ins)))
  }

  /** JMP links before it reads its target, so JMP rd, rd goes to the link. */
  function ExecJmp(c: Cpu, ins: Word): Res<Next> {
    var lnk := Wrap(c.pc + 4);
    var c1 :- SetReg(c, Rd(ins), lnk);
    var target :- GetReg(c1, Rs1(ins));
    var c2 := c1.(pc := target);
    if Rs1(ins) == RLNK then Ok(Flush(c2.(trace := CallStack.Return(c2.trace))))
    else if Rd(ins) == RLNK then
      var t :- CallStack.Jmp(c2.trace, CallStack.Frame(c.pc, lnk, target));
      Ok(Flush(c2.(trace := t)))
    else Ok(Flush(c2))
  }

  function ExecJmpLnk(c: Cpu, ins: Word): Res<Next> {
    var lnk := Wrap(c.pc + 4);
    var c1 := SetReg(c, RLNK, lnk).value;
    var target := PcRelative(c, ins);
    var t :- CallStack.Jmp(c1.trace, CallStack.Frame(c.pc, lnk, target));
    Ok(Flush(c1.(pc := target, trace := t)))
  }

  function SetCc(c: Cpu, cc: bool): Cpu {
    c.(msr := c.msr.(psr := c.msr.psr.(cc := cc)))
  }

  function Illegal(c: Cpu): Next {
    Raised(RaiseException(c, VECT_EINSN, c.pc, false))
  }

  /** The three comparisons: equal, signed greater, unsigned greater. */
  predicate Compare(attr: nat, a: Word, b: Word) {
    if attr == ATTR_CMPEQ then a == b else if attr == ATTR_CMPGT then Signed(a) > Signed(b) else a > b
  }

  function ExecCmp(c: Cpu, ins: Word): Res<Next> {
    if Attr(ins) > ATTR_CMPGTU then Ok(Illegal(c))
    else
      var a :- GetReg(c, Rs1(ins));
      var b :- GetReg(c, Rs2(ins));
      Ok(Fall(SetCc(c, Compare(Attr(ins), a, b))))
  }

  // ---------- loads and stores ----------

  function LoadWidth(op: nat): Option<Width> {
    if op == OP_LDWU then Some(W32)
    else if op == OP_LDH || op == OP_LDHU then Some(W16)
    else if op == OP_LDB || op == OP_LDBU then Some(W8)
    else None
  }

  function StoreWidth(op: nat): Option<Width> {
    if op == OP_STW then Some(W32)
    else if op == OP_STH then Some(W16)
    else if op == OP_STB then Some(W8)
    else None
  }

  /** `dmmu_translate_vma`, raising its exceptions. */
  function TranslateData(c: Cpu, va: Word, store: bool): Translation {
    Dmmu(c.msr, va, store)
  }

  function DataVector(t: Translation): Word
    requires !t.Hit?
  {
    if t.Miss? then VECT_EDTM else VECT_EDPF
  }

  /** Every load zero-extends: the physical readers return unsigned types. */
  function ExecLoad(c: Cpu, w: Width, ins: Word): Res<Next> {
    var base :- GetReg(c, Rs1(ins));
    var va := Wrap(base + Simm14(ins));
    var t := TranslateData(c, va, false);
    if !t.Hit? then Ok(Raised(RaiseException(c, DataVector(t), va, false)))
    else
      var l :- BusLoad(c, t.pa, w);
      SetRegNext(l.cpu, Rd(ins), l.value)
  }

  function ExecStore(c: Cpu, w: Width, ins: Word): Res<Next> {
    var base :- GetReg(c, Rd(ins));
    var va := Wrap(base + Simm14(ins));
    var t := TranslateData(c, va, true);
    if !t.Hit? then Ok(Raised(RaiseException(c, DataVector(t), va, false)))
    else
      var v :- GetReg(c, Rs1(ins));
      var c' :- BusStore(c, t.pa, w, v);
      Ok(Fall(c'))
  }

  // ---------- system instructions ----------

  function MsrIndex(reg: Word, ins: Word): Half {
    Or(reg, Imm14(ins)) % 0x1_0000
  }

  function ExecWmsr(c: Cpu, ins: Word): Res<Next> {
    var base :- GetReg(c, Rd(ins));
    var v :- GetReg(c, Rs1(ins));
    var m :- Wmsr(c.msr, MsrIndex(base, ins), v);
    Ok(Fall(c.(msr := m)))
  }

  function ExecRmsr(c: Cpu, ins: Word): Res<Next> {
    var base :- GetReg(c, Rs1(ins));
    var v :- Rmsr(c.msr, MsrIndex(base, ins));
    SetRegNext(c, Rd(ins), v)
  }

  function ExecRet(c: Cpu): Next {
    Flush(c.(pc := c.msr.epc, msr := c.msr.(psr := c.msr.epsr)))
  }

  // ---------- the loop body ----------

  function Execute(c: Cpu, ins: Word): Res<Next> {
    var op := Opcode(ins);
    if AluOf(op).AluForm? then ExecAlu(c, AluOf(op), ins)
    else if LoadWidth(op).Some? then ExecLoad(c, LoadWidth(op).value, ins)
    else if StoreWidth(op).Some? then ExecStore(c, StoreWidth(op).value, ins)
    else if op == OP_MHI then SetRegNext(c, Rd(ins), Wrap(Imm18(ins) * 0x4000))
    else if op == OP_JMP then ExecJmp(c, ins)
    else if op == OP_JMP_I then Ok(Flush(c.(pc := PcRelative(c, ins))))
    else if op == OP_JMP_I_LNK then ExecJmpLnk(c, ins)
    else if op == OP_BT then Ok(if c.msr.psr.cc then Flush(c.(pc := PcRelative(c, ins))) else Fall(c))
    else if op == OP_BF then Ok(if !c.msr.psr.cc then Flush(c.(pc := PcRelative(c, ins))) else Fall(c))
    else if op == OP_CMP then ExecCmp(c, ins)
    else if op == OP_BARR || op == OP_VENTER || op == OP_VLEAVE then Ok(Fall(c))
    else if op == OP_SYSCALL then Ok(Raised(RaiseException(c, VECT_ESYSCALL, 0, true)))
    else if op == OP_RET then Ok(ExecRet(c))
    else if op == OP_WMSR then ExecWmsr(c, ins)
    else if op == OP_RMSR then ExecRmsr(c, ins)
    else Ok(Illegal(c))
  }

  datatype Stepped = Stepped(cpu: Cpu, trapped: bool)

  function Advance(c: Cpu): Cpu {
    c.(pc := Wrap(c.pc + 4))
  }

  function Finish(n: Next): Stepped {
    match n
    case Fall(c) => Stepped(Advance(c), false)
    case Flush(c) => Stepped(c, false)
    case Raised(c) => Stepped(Advance(c), true)
  }

  function Tick(c: Cpu): Cpu {
    c.(msr := TscClk(c.msr))
  }

  /** One iteration of the loop in `cpu_exec`. */
  function Step(c: Cpu): Res<Stepped> {
    var c1 := Tick(c);
    if IrqPending(c1.msr) then Ok(Finish(Raised(RaiseException(c1, VECT_EIRQ, 0, false))))
    else
      match Immu(c1.msr, c1.pc)
      case Miss => Ok(Finish(Raised(RaiseException(c1, VECT_EITM, c1.pc, false))))
      case Denied => Ok(Finish(Raised(RaiseException(c1, VECT_EIPF, c1.pc, false))))
      case Hit(pa) =>
        var l :- BusLoad(c1, pa, W32);
        var n :- Execute(l.cpu, l.value);
        Ok(Finish(n))
  }

  /** The instruction word this step executes, if it gets that far. */
  function Fetched(c: Cpu): Option<Word> {
    var c1 := Tick(c);
    if IrqPending(c1.msr) then None
    else
      match Immu(c1.msr, c1.pc)
      case Hit(pa) => if BusLoad(c1, pa, W32).Ok? then Some(BusLoad(c1, pa, W32).value.value) else None
      case _ => None
  }
}
