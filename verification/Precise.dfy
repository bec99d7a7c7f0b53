/** Exceptions are precise: which steps take one, and the whole state they
    leave behind (exec.c:84-96, 191-193, 214-249, 373-406). */
module Precise {
  import opened Words
  import opened Msr
  import opened Interrupts
  import opened Mmu
  import opened Memory
  import opened Mmio
  import opened Decode
  import opened Exec
  import CallStack

  datatype Trap = Trap(vector: Word, lsa: Word, syscall: bool)

  /** Encodings that neither `switch` in the loop sends to its default case. */
  predicate ValidEncoding(ins: Word) {
    && Opcode(ins) <= OP_MHI && Opcode(ins) != 0x19
    && (Opcode(ins) == OP_CMP ==> Attr(ins) <= ATTR_CMPGTU)
  }

  function DataTrap(t: Translation, va: Word): Option<Trap> {
    match t
    case Hit(_) => None
    case Miss => Some(Trap(VECT_EDTM, va, false))
    case Denied => Some(Trap(VECT_EDPF, va, false))
  }

  /** The exception an instruction raises, by the architecture's rules. */
  function InsnTrap(c: Cpu, ins: Word): Option<Trap> {
    var op := Opcode(ins);
    if !ValidEncoding(ins) then Some(Trap(VECT_EINSN, c.pc, false))
    else if op == OP_SYSCALL then Some(Trap(VECT_ESYSCALL, 0, true))
    else if LoadWidth(op).Some? && Rs1(ins) < 32 then
      var va := Wrap(RegValue(c, Rs1(ins)) + Simm14(ins));
      DataTrap(Dmmu(c.msr, va, false), va)
    else if StoreWidth(op).Some? && Rd(ins) < 32 then
      var va := Wrap(RegValue(c, Rd(ins)) + Simm14(ins));
      DataTrap(Dmmu(c.msr, va, true), va)
    else None
  }

  function RegValue(c: Cpu, n: nat): Word
    requires n < 32
  {
    if n == 0 then 0 else c.regs[n]
  }

  /** The exception a step takes: interrupts first, then the fetch, then the
      instruction. */
  function Cause(c: Cpu): Option<Trap> {
    var m := TscClk(c.msr);
    if IrqPending(m) then Some(Trap(VECT_EIRQ, 0, false))
    else
      match Immu(m, c.pc)
      case Miss => Some(Trap(VECT_EITM, c.pc, false))
      case Denied => Some(Trap(VECT_EIPF, c.pc, false))
      case Hit(pa) =>
        if pa < MMIO_PHY_BASE && pa + 4 <= |c.ram| then InsnTrap(c.(msr := m), LoadRam(c.ram, pa, W32)) else None
  }

  /** The state an exception leaves: everything but pc, the shadow registers
      and four mode bits is what the clock edge left. */
  function Entry(c: Cpu, t: Trap): Cpu {
    c.(pc := t.vector,
       msr := TscClk(c.msr).(
         epc := if t.syscall then Wrap(c.pc + 4) else c.pc,
         elsa := t.lsa,
         epsr := c.msr.psr,
         psr := c.msr.psr.(rm := true, imme := false, dmme := false, ire := false)))
  }

  lemma EntryKeeps(c: Cpu, t: Trap)
    ensures var h := Entry(c, t);
            h.regs == c.regs && h.ram == c.ram && h.ata == c.ata && h.trace == c.trace
  {
  }

  /** A clock edge touches TSR, TCR.P and the timer line, nothing else. */
  lemma TickFrame(m: MsrFile)
    ensures var m' := TscClk(m);
            && m' == m.(tsr := m'.tsr, tcr := m'.tcr, irr := m'.irr)
            && m'.tcr == m.tcr.(p := m'.tcr.p)
            && (m.tcr.p ==> m'.tcr.p)
  {
    hide SetLine;
  }

  /** 32-bit loads reach RAM or do not return. */
  lemma WordLoadIsRam(c: Cpu, pa: Word)
    ensures BusLoad(c, pa, W32).Ok? <==> pa < MMIO_PHY_BASE && pa + 4 <= |c.ram|
    ensures BusLoad(c, pa, W32).Ok? ==> BusLoad(c, pa, W32).value == Loaded(c, LoadRam(c.ram, pa, W32))
  {
    if pa >= MMIO_PHY_BASE {
      MatchIsFirst(DOMAIN32, pa, false);
      var r := Match(DOMAIN32, pa, false);
      if r.Some? {
        assert r.value in DOMAIN32;
      }
    }
    hide LoadRam, Match;
  }

  /** The word a fetch from a physical address returns, if it returns. */
  function RamWord(ram: seq<Byte>, pa: Word): Option<Word> {
    if pa < MMIO_PHY_BASE && pa + 4 <= |ram| then Some(LoadRam(ram, pa, W32)) else None
  }

  /** A step executes the word in memory at the translated pc, unless an
      interrupt or a fetch exception comes first. */
  lemma FetchIsRam(c: Cpu)
    ensures var m := TscClk(c.msr);
            Fetched(c) == if IrqPending(m) || !Immu(m, c.pc).Hit? then None else RamWord(c.ram, Immu(m, c.pc).pa)
  {
    hide TscClk, IrqPending, Immu, BusLoad, LoadRam;
    var t := Immu(TscClk(c.msr), c.pc);
    if t.Hit? {
      WordLoadIsRam(Tick(c), t.pa);
    }
  }

  /** The exception of a step is its instruction's, or one that came before
      the instruction. */
  lemma CauseOfFetched(c: Cpu)
    ensures Fetched(c).Some? ==> Cause(c) == InsnTrap(Tick(c), Fetched(c).value)
    ensures Fetched(c).None? && Cause(c).Some? ==> Cause(c).value.vector in {VECT_EIRQ, VECT_EITM, VECT_EIPF}
  {
    FetchIsRam(c);
    hide TscClk, IrqPending, Immu, LoadRam, InsnTrap, Fetched;
  }

  /** An instruction that raises an exception leaves the registers, memory,
      device and call stack alone. */
  lemma InsnTrapExactly(c: Cpu, ins: Word)
    ensures (Execute(c, ins).Ok? && Execute(c, ins).value.Raised?) <==> InsnTrap(c, ins).Some?
    ensures InsnTrap(c, ins).Some? ==>
              var t := InsnTrap(c, ins).value;
              Execute(c, ins) == Ok(Raised(RaiseException(c, t.vector, t.lsa, t.syscall)))
  {
    hide AluValue, SecondOperand, BusLoad, BusStore, Wmsr, Rmsr, Dmmu, Simm14, RaiseException, PcRelative, MsrIndex,
         Signed, Rd, Rs1, Rs2, Attr, CallStack.Jmp, CallStack.Return;
  }

  lemma RaisedIsEntry(c: Cpu, t: Trap)
    ensures Finish(Raised(RaiseException(Tick(c), t.vector, t.lsa, t.syscall))) == Stepped(Entry(c, t), true)
  {
    TickFrame(c.msr);
    hide TscClk;
  }

  /** A step takes an exception exactly when it has a cause, and the cause
      determines the whole resulting state. */
  lemma PreciseExceptions(c: Cpu)
    ensures (Step(c).Ok? && Step(c).value.trapped) <==> Cause(c).Some?
    ensures Cause(c).Some? ==> Step(c) == Ok(Stepped(Entry(c, Cause(c).value), true))
  {
    var c1 := Tick(c);
    TickFrame(c.msr);
    if IrqPending(c1.msr) {
      RaisedIsEntry(c, Trap(VECT_EIRQ, 0, false));
    } else {
      match Immu(c1.msr, c1.pc)
      case Miss => RaisedIsEntry(c, Trap(VECT_EITM, c.pc, false));
      case Denied => RaisedIsEntry(c, Trap(VECT_EIPF, c.pc, false));
      case Hit(pa) =>
        WordLoadIsRam(c1, pa);
        if BusLoad(c1, pa, W32).Ok? {
          var ins := BusLoad(c1, pa, W32).value.value;
          InsnTrapExactly(c1, ins);
          if InsnTrap(c1, ins).Some? {
            RaisedIsEntry(c, InsnTrap(c1, ins).value);
          }
        }
    }
    hide TscClk, IrqPending, Immu, BusLoad, Execute, InsnTrap, RaiseException, Entry, LoadRam;
  }
}
