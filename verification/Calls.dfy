/** Calls and returns (exec.c:146-174, trace-runtime-stack.c:23-48): the link
    protocol, and the shadow call stack of any run. */
module Calls {
  import opened Words
  import opened Interrupts
  import opened Decode
  import opened Exec
  import opened Precise
  import opened Runs
  import opened Msr
  import Mmu
  import Memory
  import Ata
  import CallStack

  /** The call or return a retiring step from `c` to `c'` is, if it is one. */
  function CallEvent(c: Cpu, c': Cpu): Option<CallStack.Event> {
    var frame := CallStack.Frame(c.pc, Wrap(c.pc + 4), c'.pc);
    if Executes(c, OP_JMP_I_LNK) then Some(CallStack.Called(frame))
    else if Executes(c, OP_JMP) && Rs1(Fetched(c).value) == RLNK then Some(CallStack.Returned)
    else if Executes(c, OP_JMP) && Rd(Fetched(c).value) == RLNK then Some(CallStack.Called(frame))
    else None
  }

  lemma JumpInsns(c: Cpu, ins: Word)
    ensures Opcode(ins) == OP_JMP ==> Execute(c, ins) == ExecJmp(c, ins)
    ensures Opcode(ins) == OP_JMP_I_LNK ==> Execute(c, ins) == ExecJmpLnk(c, ins)
  {
    hide Opcode, ExecJmp, ExecJmpLnk;
    JumpOpcode(Opcode(ins));
    hide AluOf, LoadWidth, StoreWidth;
  }

  lemma JumpOpcode(op: nat)
    ensures op in {OP_JMP, OP_JMP_I_LNK} ==> AluOf(op).NotAlu? && LoadWidth(op).None? && StoreWidth(op).None?
  {
  }

  lemma LoadKeepsTrace(c: Cpu, w: Memory.Width, ins: Word, n: Next)
    requires ExecLoad(c, w, ins) == Ok(n) && !n.Raised?
    ensures n.cpu.trace == c.trace
  {
    hide BusLoad, Simm14, RaiseException, Rd, Rs1, Mmu.Dmmu, Ata.StatusInv, LineMoves;
    var base := GetReg(c, Rs1(ins)).value;
    LoadFrame(c, TranslateData(c, Wrap(base + Simm14(ins)), false).pa, w);
  }

  lemma StoreKeepsTrace(c: Cpu, w: Memory.Width, ins: Word, n: Next)
    requires ExecStore(c, w, ins) == Ok(n) && !n.Raised?
    ensures n.cpu.trace == c.trace
  {
    hide BusStore, Simm14, RaiseException, Rd, Rs1, Mmu.Dmmu, Ata.StatusInv, LineMoves;
    var base := GetReg(c, Rd(ins)).value;
    StoreFrame(c, TranslateData(c, Wrap(base + Simm14(ins)), true).pa, w, GetReg(c, Rs1(ins)).value);
  }

  /** Only the two linking jumps touch the shadow stack. */
  lemma OthersKeepTrace(c: Cpu, ins: Word, n: Next)
    requires Execute(c, ins) == Ok(n) && !n.Raised? && Opcode(ins) !in {OP_JMP, OP_JMP_I_LNK}
    ensures n.cpu.trace == c.trace
  {
    hide Wmsr, Rmsr, RaiseException, Opcode, Rd, Rs1, Rs2, Attr, PcRelative, MsrIndex, Signed, ExecLoad, ExecStore,
         ExecJmp, ExecJmpLnk, AluValue, SecondOperand, Simm14;
    var op := Opcode(ins);
    if AluOf(op).AluForm? {
      hide Execute, AluOf;
    } else if LoadWidth(op).Some? {
      LoadKeepsTrace(c, LoadWidth(op).value, ins, n);
    } else if StoreWidth(op).Some? {
      StoreKeepsTrace(c, StoreWidth(op).value, ins, n);
    }
  }

  lemma TraceStep(c: Cpu, c': Cpu)
    requires Retires(c, c')
    ensures match CallEvent(c, c')
            case None => c'.trace == c.trace
            case Some(e) => CallStack.Apply(c.trace, e) == Ok(c'.trace)
  {
    hide Step, Execute, Fetched, Opcode, Rd, Rs1, PcRelative, CallStack.Jmp, CallStack.Return, TscClk;
    var ins, n := RetiringStep(c, c');
    TickKeepsRest(c);
    JumpInsns(Tick(c), ins);
    if Opcode(ins) !in {OP_JMP, OP_JMP_I_LNK} {
      OthersKeepTrace(Tick(c), ins, n);
    }
  }

  /** The calls and returns of the first `n` steps. */
  function EventsOf(c: Cpu, n: nat): seq<CallStack.Event> {
    if n == 0 then []
    else
      match After(c, n - 1)
      case Ok(s) =>
        (match Step(s)
         case Ok(r) =>
           if r.trapped || CallEvent(s, r.cpu).None? then EventsOf(c, n - 1)
           else EventsOf(c, n - 1) + [CallEvent(s, r.cpu).value]
         case _ => EventsOf(c, n - 1))
      case _ => EventsOf(c, n - 1)
  }

  lemma TrapKeepsTrace(c: Cpu, c': Cpu)
    requires Step(c) == Ok(Stepped(c', true))
    ensures c'.trace == c.trace
  {
    hide Step, Cause, TscClk;
    PreciseExceptions(c);
  }

  lemma WalkSnoc(t0: CallStack.Trace, es: seq<CallStack.Event>, e: CallStack.Event, t: CallStack.Trace)
    requires CallStack.WalkFrom(t0, es) == Ok(t)
    ensures CallStack.WalkFrom(t0, es + [e]) == CallStack.Apply(t, e)
  {
    assert (es + [e])[..|es|] == es;
  }

  /** The shadow stack of any run is the walk of the run's calls and returns
      from the stack it starts with; from reset, the reflected walk. */
  lemma {:induction false} TraceOfRun(c: Cpu, n: nat)
    requires After(c, n).Ok?
    ensures CallStack.WalkFrom(c.trace, EventsOf(c, n)) == Ok(At(c, n).trace)
    ensures c.trace == CallStack.EMPTY ==> CallStack.Walk(EventsOf(c, n)) == Ok(At(c, n).trace)
  {
    hide Step, CallEvent;
    if n > 0 {
      TraceOfRun(c, n - 1);
      var s := At(c, n - 1);
      var r := Step(s).value;
      if r.trapped {
        TrapKeepsTrace(s, r.cpu);
      } else {
        TraceStep(s, r.cpu);
        if CallEvent(s, r.cpu).Some? {
          WalkSnoc(c.trace, EventsOf(c, n - 1), CallEvent(s, r.cpu).value, s.trace);
        }
      }
    }
  }

  /** The step is a call: JMP_I_LNK, or a JMP that links in r1 and does not go
      through it. */
  predicate Calling(c: Cpu) {
    || Executes(c, OP_JMP_I_LNK)
    || (Executes(c, OP_JMP) && Rd(Fetched(c).value) == RLNK && Rs1(Fetched(c).value) != RLNK)
  }

  /** The step is a return: a JMP through r1. */
  predicate Returning(c: Cpu) {
    Executes(c, OP_JMP) && Rs1(Fetched(c).value) == RLNK
  }

  lemma CallStep(c: Cpu, c': Cpu)
    requires Retires(c, c') && Calling(c)
    ensures c'.regs[RLNK] == Wrap(c.pc + 4)
    ensures c'.trace == c.trace.(frames := c.trace.frames + [CallStack.Frame(c.pc, Wrap(c.pc + 4), c'.pc)])
  {
    hide Step, Execute, Fetched, Opcode, Rd, Rs1, PcRelative, TscClk;
    var ins, n := RetiringStep(c, c');
    TickKeepsRest(c);
    JumpInsns(Tick(c), ins);
    hide Tick;
  }

  lemma ReturnStep(d: Cpu, d': Cpu)
    requires Retires(d, d') && Returning(d)
    ensures var rd := Rd(Fetched(d).value);
            && rd < 32
            && d'.regs == (if rd == 0 then d.regs else d.regs[rd := Wrap(d.pc + 4)])
            && (rd != RLNK ==> d'.pc == d.regs[RLNK])
            && d'.trace == CallStack.Return(d.trace)
  {
    hide Step, Execute, Fetched, Opcode, Rd, Rs1, TscClk, CallStack.Jmp, CallStack.Return;
    var ins, n := RetiringStep(d, d');
    TickKeepsRest(d);
    JumpInsns(Tick(d), ins);
    hide Tick;
  }

  /** Call and return over a run: after a call, `n` steps of any kind whose
      calls and returns are balanced, and a return that finds the link in r1
      and does not overwrite it, control is after the call and the shadow stack
      is the one before the call.  The stack is back for any link register. */
  lemma CallThenReturn(c: Cpu, c1: Cpu, n: nat, d: Cpu, d': Cpu)
    requires Retires(c, c1) && Calling(c)
    requires After(c1, n) == Ok(d) && CallStack.Balanced(EventsOf(c1, n))
    requires Retires(d, d') && Returning(d)
    ensures After(c, n + 2) == Ok(d')
    ensures d'.trace == c.trace
    ensures var rd := Rd(Fetched(d).value);
            && rd < 32 && d'.regs == (if rd == 0 then d.regs else d.regs[rd := Wrap(d.pc + 4)])
            && (d.regs[RLNK] == c1.regs[RLNK] && rd != RLNK ==> d'.pc == Wrap(c.pc + 4))
  {
    hide Step, Calling, Returning, Executes, Fetched, Rd, CallStack.Balanced, EventsOf, CallStack.WalkFrom;
    CallStep(c, c1);
    TraceOfRun(c1, n);
    CallStack.BalancedRestores(c1.trace, EventsOf(c1, n), d.trace);
    ReturnStep(d, d');
    assert c1.trace.frames[..|c1.trace.frames| - 1] == c.trace.frames;
    assert After(c, 1) == Ok(c1);
    AfterAfter(c, 1, n);
  }

  /** JMP writes its link before it reads its target: through one register it
      falls through to the next instruction. */
  lemma JmpThroughItsLink(c: Cpu, c': Cpu)
    requires Retires(c, c') && Executes(c, OP_JMP)
    requires Rd(Fetched(c).value) == Rs1(Fetched(c).value) != 0
    ensures c'.pc == Wrap(c.pc + 4)
  {
    hide Step, Execute, Fetched, Opcode, Rd, Rs1, TscClk, CallStack.Jmp, CallStack.Return;
    var ins, n := RetiringStep(c, c');
    TickKeepsRest(c);
    JumpInsns(Tick(c), ins);
    hide Tick;
  }
}
