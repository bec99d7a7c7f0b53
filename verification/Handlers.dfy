/** Exception handlers over whole runs: non-nesting handlers are transparent to
    the program they interrupt (exec.c:247-262, 392-406). */
module Handlers {
  import opened Words
  import opened Msr
  import opened Interrupts
  import opened Mmu
  import opened Decode
  import opened Exec
  import opened Precise
  import opened Runs
  import Memory

  // ---------- handler transparency ----------

  /** Inside a handler: root mode, no interrupts, no translation, and the
      shadow registers still hold what the entry saved. */
  predicate InHandler(m: MsrFile, psr: Psr, epc: Word) {
    && m.psr.rm && !m.psr.ire && !m.psr.imme && !m.psr.dmme
    && m.epsr == psr && m.epc == epc
  }

  /** A non-nesting handler's program: whatever instruction the step fetches is
      a defined one, neither SYSCALL nor RET, that does not write PSR, EPSR or
      EPC.  Nothing is said of interrupts, of the fetch or of data accesses. */
  predicate Quiet(c: Cpu) {
    && (Fetched(c).Some? ==> ValidEncoding(Fetched(c).value))
    && !Executes(c, OP_SYSCALL) && !Executes(c, OP_RET)
    && !Writes(c, MSR_PSR) && !Writes(c, MSR_EPSR) && !Writes(c, MSR_EPC)
  }

  /** Inside a handler no interrupt comes before an instruction and its fetch
      is physical, neither missing nor denied; so every step a handler
      completes executes the word in memory at pc. */
  lemma FetchesInHandler(c: Cpu, psr: Psr, epc: Word)
    requires InHandler(c.msr, psr, epc)
    ensures !IrqPending(TscClk(c.msr)) && Immu(TscClk(c.msr), c.pc) == Hit(c.pc)
    ensures Fetched(c) == RamWord(c.ram, c.pc)
    ensures Step(c).Ok? ==> Fetched(c).Some?
  {
    TickFrame(c.msr);
    FetchIsRam(c);
    WordLoadIsRam(Tick(c), c.pc);
    hide TscClk, BusLoad, Memory.LoadRam, Execute, Fetched;
  }

  lemma NoTrapInHandler(c: Cpu, psr: Psr, epc: Word)
    requires InHandler(c.msr, psr, epc) && Step(c).Ok? && Quiet(c)
    ensures !Traps(c)
  {
    hide RegValue, ValidEncoding, Opcode, Simm14, Rs1, Rd, Step, LoadWidth, StoreWidth, WmsrOf;
    FetchesInHandler(c, psr, epc);
    PreciseExceptions(c);
    CauseOfFetched(c);
    TickFrame(c.msr);
    hide TscClk, Cause, Fetched;
  }

  lemma WmsrInHandler(m: MsrFile, i: Half, v: Word, m': MsrFile, psr: Psr, epc: Word)
    requires InHandler(m, psr, epc) && Wmsr(m, i, v) == Ok(m') && i !in {MSR_PSR, MSR_EPSR, MSR_EPC}
    ensures InHandler(m', psr, epc)
  {
    hide UnpackPsr, UnpackLow, UnpackItlbHigh, UnpackDtlbHigh, UnpackTcr, SetLine;
  }

  lemma QuietStep(c: Cpu, psr: Psr, epc: Word, r: Stepped)
    requires InHandler(c.msr, psr, epc) && Quiet(c) && Step(c) == Ok(r)
    ensures Fetched(c).Some? && !r.trapped && InHandler(r.cpu.msr, psr, epc)
  {
    NoTrapInHandler(c, psr, epc);
    FetchesInHandler(c, psr, epc);
    hide Step, TscClk, SetLine, Fetched, ValidEncoding, Opcode, Wmsr, Sound, MsrIndex, RegValue, Immu, IrqPending;
    StepFrame(c, r.cpu);
    TickFrame(c.msr);
    var m := TscClk(c.msr);
    if Executes(c, OP_WMSR) {
      var w := WmsrOf(c).value;
      WmsrInHandler(m, w.index, w.value, r.cpu.msr, psr, epc);
    }
  }

  /** A quiet run of `n` steps stays in the handler, and each of its steps
      retires an instruction. */
  lemma {:induction false} QuietRun(h: Cpu, n: nat, psr: Psr, epc: Word)
    requires InHandler(h.msr, psr, epc) && After(h, n).Ok?
    requires forall k: nat | k < n && After(h, k).Ok? :: Quiet(At(h, k))
    ensures InHandler(At(h, n).msr, psr, epc)
    ensures forall k: nat | k < n ::
              && After(h, k).Ok? && InHandler(At(h, k).msr, psr, epc)
              && Fetched(At(h, k)).Some? && !Traps(At(h, k))
  {
    hide Step, Quiet, InHandler, Fetched;
    if n > 0 {
      QuietRun(h, n - 1, psr, epc);
      QuietStep(At(h, n - 1), psr, epc, Step(At(h, n - 1)).value);
    }
  }

  lemma RetExecutes(c: Cpu, ins: Word)
    requires Opcode(ins) == OP_RET
    ensures Execute(c, ins) == Ok(ExecRet(c))
  {
    hide Opcode, ExecRet;
    assert AluOf(OP_RET).NotAlu? && LoadWidth(OP_RET).None? && StoreWidth(OP_RET).None?;
    hide AluOf, LoadWidth, StoreWidth;
  }

  /** An instruction with that opcode lies at a physical address. */
  predicate InsnAt(c: Cpu, pa: Word, op: nat) {
    RamWord(c.ram, pa).Some? && Opcode(RamWord(c.ram, pa).value) == op
  }

  predicate RetAt(c: Cpu) {
    InsnAt(c, c.pc, OP_RET)
  }

  lemma RetStep(c: Cpu, psr: Psr, epc: Word)
    requires InHandler(c.msr, psr, epc) && RetAt(c)
    ensures Step(c) == Ok(Stepped(c.(pc := epc, msr := TscClk(c.msr).(psr := psr)), false))
  {
    hide Memory.LoadRam, Opcode, Execute, BusLoad;
    WordLoadIsRam(Tick(c), c.pc);
    TickFrame(c.msr);
    hide TscClk;
    RetExecutes(Tick(c), Memory.LoadRam(c.ram, c.pc, Memory.W32));
  }

  /** A run of `n` quiet steps from `h` that ends at a RET in `e`. */
  ghost predicate QuietHandler(h: Cpu, n: nat, e: Cpu) {
    && After(h, n) == Ok(e)
    && (forall k: nat | k < n && After(h, k).Ok? :: Quiet(At(h, k)))
    && RetAt(e)
  }

  /** Where an exception resumes: at the interrupted instruction, or after it
      for a system call. */
  function ResumePc(c: Cpu, t: Trap): Word {
    if t.syscall then Wrap(c.pc + 4) else c.pc
  }

  /** The state in which the interrupted program goes on: the handler's, but
      for pc and the whole PSR, and one clock edge later. */
  function Resumed(c: Cpu, t: Trap, e: Cpu): Cpu {
    e.(pc := ResumePc(c, t), msr := TscClk(e.msr).(psr := c.msr.psr))
  }

  /** Handler transparency: from any exception a step takes, a quiet run of
      any length retires an instruction at every step, with no interrupt, no
      fetch or data exception in between, and the RET that ends it restores the
      whole interrupted PSR and resumes. */
  lemma HandlerTransparency(c: Cpu, t: Trap, n: nat, e: Cpu)
    requires Cause(c) == Some(t) && QuietHandler(Entry(c, t), n, e)
    ensures Step(c) == Ok(Stepped(Entry(c, t), true))
    ensures forall k: nat | k < n ::
              After(Entry(c, t), k).Ok? && Fetched(At(Entry(c, t), k)).Some? && !Traps(At(Entry(c, t), k))
    ensures Step(e) == Ok(Stepped(Resumed(c, t, e), false))
  {
    var h := Entry(c, t);
    assert InHandler(h.msr, c.msr.psr, ResumePc(c, t)) by {
      TickFrame(c.msr);
    }
    hide Step, Cause, Entry, Quiet, Fetched, RetAt, InHandler, TscClk;
    PreciseExceptions(c);
    QuietRun(h, n, c.msr.psr, ResumePc(c, t));
    RetStep(e, c.msr.psr, ResumePc(c, t));
  }

  /** The smallest handler: from any step that executes a SYSCALL, in either
      mode and translated or not, a RET at its vector brings the program to the
      next instruction in two steps with its PSR, registers and memory. */
  lemma NullSyscall(c: Cpu)
    requires Executes(c, OP_SYSCALL) && InsnAt(c, VECT_ESYSCALL, OP_RET)
    ensures After(c, 2).Ok?
    ensures var d := At(c, 2);
            && d.pc == Wrap(c.pc + 4) && d.msr.psr == c.msr.psr
            && d.regs == c.regs && d.ram == c.ram && d.ata == c.ata && d.trace == c.trace
  {
    var t := Trap(VECT_ESYSCALL, 0, true);
    hide Memory.LoadRam, TscClk, Opcode, Step, Attr;
    CauseOfFetched(c);
    assert Cause(c) == Some(t) by {
      hide Cause, Fetched;
    }
    var h := Entry(c, t);
    assert RetAt(h);
    hide Entry, Cause, RetAt, Fetched;
    assert QuietHandler(h, 0, h);
    HandlerTransparency(c, t, 0, h);
    assert After(c, 1) == Ok(h);
    assert After(c, 2) == Ok(Resumed(c, t, h));
    EntryKeeps(c, t);
  }
}
