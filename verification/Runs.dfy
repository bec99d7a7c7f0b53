/** Runs of the processor, and what one step does to the registers of msr.c. */
module Runs {
  import opened Words
  import opened Msr
  import opened Interrupts
  import opened Mmu
  import opened Memory
  import opened Mmio
  import opened Decode
  import opened Exec
  import opened Precise
  import Ata
  import CallStack

  /** The state after `n` steps. */
  function After(c: Cpu, n: nat): Res<Cpu> {
    if n == 0 then Ok(c)
    else
      var s :- After(c, n - 1);
      var r :- Step(s);
      Ok(r.cpu)
  }

  function At(c: Cpu, n: nat): Cpu
    requires After(c, n).Ok?
  {
    After(c, n).value
  }

  lemma {:induction false} PrefixRuns(c: Cpu, k: nat, n: nat)
    requires k <= n && After(c, n).Ok?
    ensures After(c, k).Ok?
    ensures k < n ==> Step(After(c, k).value).Ok?
    decreases n
  {
    hide Step;
    if k < n {
      PrefixRuns(c, k, n - 1);
    }
  }

  lemma {:induction false} AfterAfter(c: Cpu, m: nat, n: nat)
    requires After(c, m).Ok?
    ensures After(c, m + n) == After(At(c, m), n)
    decreases n
  {
    hide Step;
    if n > 0 {
      AfterAfter(c, m, n - 1);
    }
  }

  predicate Traps(c: Cpu) {
    Step(c).Ok? && Step(c).value.trapped
  }

  /** The next state of a step that retires an instruction. */
  predicate Retires(c: Cpu, c': Cpu) {
    Step(c) == Ok(Stepped(c', false))
  }

  lemma RetiresUnlessTraps(c: Cpu)
    requires Step(c).Ok? && !Traps(c)
    ensures Retires(c, Step(c).value.cpu)
  {
    hide Step;
  }

  predicate Executes(c: Cpu, op: nat) {
    Fetched(c).Some? && Opcode(Fetched(c).value) == op
  }

  datatype Request = Load(va: Word, width: Width) | Store(va: Word, width: Width, value: Word)

  /** The data access of the instruction a step executes. */
  function DataAccess(c: Cpu): Option<Request> {
    if Fetched(c).None? then None else InsnAccess(c, Fetched(c).value)
  }

  function InsnAccess(c: Cpu, ins: Word): Option<Request> {
    var op := Opcode(ins);
    if LoadWidth(op).Some? && Rs1(ins) < 32 then
      Some(Load(Wrap(RegValue(c, Rs1(ins)) + Simm14(ins)), LoadWidth(op).value))
    else if StoreWidth(op).Some? && Rd(ins) < 32 && Rs1(ins) < 32 then
      Some(Store(Wrap(RegValue(c, Rd(ins)) + Simm14(ins)), StoreWidth(op).value, RegValue(c, Rs1(ins))))
    else None
  }

  datatype MsrWrite = MsrWrite(index: Half, value: Word)

  /** The write a step's WMSR instruction asks for. */
  function WmsrOf(c: Cpu): Option<MsrWrite> {
    if Executes(c, OP_WMSR) && Rd(Fetched(c).value) < 32 && Rs1(Fetched(c).value) < 32 then
      var ins := Fetched(c).value;
      Some(MsrWrite(MsrIndex(RegValue(c, Rd(ins)), ins), RegValue(c, Rs1(ins))))
    else None
  }

  /** The step's instruction stores to register `i`. */
  predicate Writes(c: Cpu, i: Half) {
    WmsrOf(c).Some? && WmsrOf(c).value.index == i && c.msr.psr.rm
  }

  predicate WritesValue(c: Cpu, i: Half, v: Word) {
    WmsrOf(c) == Some(MsrWrite(i, v)) && c.msr.psr.rm
  }

  /** How a retiring step moves the register file, after its clock edge. */
  ghost predicate MsrMoves(c: Cpu, m: MsrFile, m': MsrFile) {
    if Executes(c, OP_RET) then m' == m.(psr := m.epsr)
    else if Executes(c, OP_WMSR) then
      WmsrOf(c).Some? && Wmsr(m, WmsrOf(c).value.index, WmsrOf(c).value.value) == Ok(m')
    else if Executes(c, OP_CMP) then m' == m.(psr := m.psr.(cc := m'.psr.cc))
    else
      m' == m || exists raised :: m' == m.(irr := SetLine(m.irr, Ata.IRQ_ATA, raised))
  }

  /** The device moves its own interrupt line at most. */
  ghost predicate LineMoves(w: Word, w': Word) {
    w' == w || exists raised :: w' == SetLine(w, Ata.IRQ_ATA, raised)
  }

  lemma DeviceLine(b: Ata.Bus, h: Ata.Access)
    requires Ata.Do(b, h).Ok?
    ensures LineMoves(b.irr, Ata.Do(b, h).value.irr)
  {
    hide SetLine;
  }

  /** The three shapes of bus access and what each may change. */
  ghost predicate BusFrame(c: Cpu, c': Cpu) {
    && c' == c.(ram := c'.ram, ata := c'.ata, msr := c.msr.(irr := c'.msr.irr))
    && |c'.ram| == |c.ram|
    && LineMoves(c.msr.irr, c'.msr.irr)
    && (Ata.StatusInv(c.ata) ==> Ata.StatusInv(c'.ata))
  }

  lemma LoadFrame(c: Cpu, pa: Word, w: Width)
    requires BusLoad(c, pa, w).Ok?
    ensures BusFrame(c, BusLoad(c, pa, w).value.cpu) && BusLoad(c, pa, w).value.cpu.ram == c.ram
  {
    var b := AtaBus(c);
    var r := BusLoad(c, pa, w).value.cpu;
    hide LoadRam, SetLine, Match;
    if r != c {
      var h := if w == W8 then Ata.Read8(pa) else Ata.Read16(pa);
      HandlerFits(w, pa, false);
      assert Ata.Do(b, h).Ok? && r == WithBus(c, Ata.Do(b, h).value);
      hide Ata.ReadReg8, Ata.ReadReg16;
      DeviceLine(b, h);
      if Ata.StatusInv(c.ata) {
        Ata.DoKeepsStatus(b, h);
      }
    }
  }

  /** The registered callbacks have the width of their list. */
  lemma HandlerFits(w: Width, pa: Word, write: bool)
    requires Match(Domain(w), pa, write).Some?
    ensures var h := Match(Domain(w), pa, write).value.handler;
            match w
            case W8 => h == (if write then AtaWrite8 else AtaRead8)
            case W16 => h == AtaRead16 && !write
            case W32 => h == (if write then AtaWrite32 else AtaRead32)
  {
    MatchIsFirst(Domain(w), pa, write);
    var r := Match(Domain(w), pa, write).value;
    assert r in Domain(w) && r.Covers(pa, write);
    hide Match;
  }

  lemma StoreFrame(c: Cpu, pa: Word, w: Width, v: Word)
    requires BusStore(c, pa, w, v).Ok?
    ensures BusFrame(c, BusStore(c, pa, w, v).value)
  {
    var b := AtaBus(c);
    var r := BusStore(c, pa, w, v).value;
    hide StoreRam, SetLine, Match;
    var node := Dispatch(Domain(w), pa, true).value;
    if node.Some? {
      var h := Ata.Write8(pa, v % 0x100);
      HandlerFits(w, pa, true);
      assert Ata.Do(b, h).Ok? && r == WithBus(c, Ata.Do(b, h).value);
      hide Ata.WriteReg8;
      DeviceLine(b, h);
      if Ata.StatusInv(c.ata) {
        Ata.DoKeepsStatus(b, h);
      }
    }
  }

  /** What holds of every state the machine reaches apart from its registers
      of msr.c. */
  predicate Sound(c: Cpu) {
    && c.regs[0] == 0
    && Ata.StatusInv(c.ata)
    && |c.trace.frames| <= CallStack.MAX_STACK_TRACE_DEPTH
  }

  /** How executing an instruction moves the register file, given the value of
      its opcode. */
  ghost predicate ExecMoves(c: Cpu, ins: Word, m': MsrFile) {
    var m := c.msr;
    if Opcode(ins) == OP_RET then m' == m.(psr := m.epsr)
    else if Opcode(ins) == OP_WMSR then
      && Rd(ins) < 32 && Rs1(ins) < 32
      && Wmsr(m, MsrIndex(RegValue(c, Rd(ins)), ins), RegValue(c, Rs1(ins))) == Ok(m')
    else if Opcode(ins) == OP_CMP then m' == m.(psr := m.psr.(cc := m'.psr.cc))
    else m' == m.(irr := m'.irr) && LineMoves(m.irr, m'.irr)
  }

  /** The frame of an executed instruction that raises nothing. */
  ghost predicate ExecFrame(c: Cpu, ins: Word, c': Cpu) {
    && ExecMoves(c, ins, c'.msr)
    && (Sound(c) ==> Sound(c'))
    && |c'.ram| == |c.ram|
    && (StoreWidth(Opcode(ins)).None? ==> c'.ram == c.ram)
  }

  lemma ExecLoadFrame(c: Cpu, w: Width, ins: Word, n: Next)
    requires ExecLoad(c, w, ins) == Ok(n) && !n.Raised? && LoadWidth(Opcode(ins)).Some?
    ensures ExecFrame(c, ins, n.cpu)
  {
    hide BusLoad, Dmmu, Simm14, RaiseException, SetLine, Ata.StatusInv, Opcode, Rd, Rs1, LineMoves;
    var base := GetReg(c, Rs1(ins)).value;
    var t := TranslateData(c, Wrap(base + Simm14(ins)), false);
    LoadFrame(c, t.pa, w);
  }

  lemma ExecStoreFrame(c: Cpu, w: Width, ins: Word, n: Next)
    requires ExecStore(c, w, ins) == Ok(n) && !n.Raised? && StoreWidth(Opcode(ins)).Some?
    ensures ExecFrame(c, ins, n.cpu)
  {
    hide BusStore, Dmmu, Simm14, RaiseException, SetLine, Ata.StatusInv, Opcode, Rd, Rs1, LineMoves;
    var base := GetReg(c, Rd(ins)).value;
    var t := TranslateData(c, Wrap(base + Simm14(ins)), true);
    StoreFrame(c, t.pa, w, GetReg(c, Rs1(ins)).value);
  }

  lemma ExecAluFrame(c: Cpu, ins: Word, n: Next)
    requires AluOf(Opcode(ins)).AluForm? && ExecAlu(c, AluOf(Opcode(ins)), ins) == Ok(n)
    ensures !n.Raised? && ExecFrame(c, ins, n.cpu)
  {
    hide AluValue, SecondOperand, Ata.StatusInv, Opcode, Rd, Rs1;
    AluOpcodes(Opcode(ins));
    hide AluOf;
    assert n.cpu == c.(regs := n.cpu.regs) && n.cpu.regs[0] == c.regs[0];
  }

  lemma AluOpcodes(op: nat)
    requires AluOf(op).AluForm?
    ensures op !in {OP_RET, OP_WMSR, OP_CMP}
  {
  }

  lemma ExecJumpFrame(c: Cpu, ins: Word, n: Next)
    requires (Opcode(ins) == OP_JMP && ExecJmp(c, ins) == Ok(n))
          || (Opcode(ins) == OP_JMP_I_LNK && ExecJmpLnk(c, ins) == Ok(n))
    ensures !n.Raised? && ExecFrame(c, ins, n.cpu)
  {
    hide PcRelative, Ata.StatusInv, Opcode, Rd, Rs1;
  }

  lemma ExecOtherFrame(c: Cpu, ins: Word, n: Next)
    requires var op := Opcode(ins);
             LoadWidth(op).None? && StoreWidth(op).None? && AluOf(op).NotAlu? && op != OP_JMP && op != OP_JMP_I_LNK
    requires Execute(c, ins) == Ok(n) && !n.Raised?
    ensures ExecFrame(c, ins, n.cpu)
  {
    hide Wmsr, Rmsr, RaiseException, Ata.StatusInv, Opcode, Rd, Rs1, Rs2, Attr, PcRelative, MsrIndex, Signed,
         ExecAlu, ExecLoad, ExecStore, ExecJmp, ExecJmpLnk, AluOf, LoadWidth, StoreWidth;
  }

  lemma ExecuteFrame(c: Cpu, ins: Word, n: Next)
    requires Execute(c, ins) == Ok(n) && !n.Raised?
    ensures ExecFrame(c, ins, n.cpu)
  {
    hide ExecFrame, Opcode, ExecAlu, ExecLoad, ExecStore, ExecJmp, ExecJmpLnk, ExecCmp, ExecWmsr, ExecRmsr, SetRegNext;
    var op := Opcode(ins);
    if AluOf(op).AluForm? {
      ExecAluFrame(c, ins, n);
    } else if LoadWidth(op).Some? {
      ExecLoadFrame(c, LoadWidth(op).value, ins, n);
    } else if StoreWidth(op).Some? {
      ExecStoreFrame(c, StoreWidth(op).value, ins, n);
    } else if op == OP_JMP || op == OP_JMP_I_LNK {
      ExecJumpFrame(c, ins, n);
    } else {
      ExecOtherFrame(c, ins, n);
    }
  }

  /** A retiring step is a clock edge, a fetch and one executed instruction. */
  lemma RetiringStep(c: Cpu, c': Cpu) returns (ins: Word, n: Next)
    requires Retires(c, c')
    ensures Fetched(c) == Some(ins) && Execute(Tick(c), ins) == Ok(n) && !n.Raised? && Finish(n).cpu == c'
    ensures !IrqPending(TscClk(c.msr)) && Immu(TscClk(c.msr), c.pc).Hit?
    ensures var pa := Immu(TscClk(c.msr), c.pc).pa;
            pa < MMIO_PHY_BASE && pa + 4 <= |c.ram| && ins == LoadRam(c.ram, pa, W32)
  {
    hide TscClk, IrqPending, Immu, BusLoad, Execute, RaiseException, LoadRam;
    var c1 := Tick(c);
    var pa := Immu(c1.msr, c1.pc).pa;
    WordLoadIsRam(c1, pa);
    ins := BusLoad(c1, pa, W32).value.value;
    n := Execute(c1, ins).value;
  }

  lemma TickKeepsRest(c: Cpu)
    ensures Tick(c) == c.(msr := TscClk(c.msr))
  {
  }

  /** The frame of a retiring step. */
  lemma StepFrame(c: Cpu, c': Cpu)
    requires Retires(c, c')
    ensures MsrMoves(c, TscClk(c.msr), c'.msr)
    ensures |c'.ram| == |c.ram|
    ensures Fetched(c).Some? && StoreWidth(Opcode(Fetched(c).value)).None? ==> c'.ram == c.ram
    ensures Sound(c) ==> Sound(c')
  {
    hide Execute, TscClk, Wmsr, SetLine, Fetched, MsrIndex, Opcode, Rd, Rs1, Step, Ata.StatusInv;
    var ins, n := RetiringStep(c, c');
    ExecuteFrame(Tick(c), ins, n);
  }
}
