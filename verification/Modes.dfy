/** The mode machine over runs (exec.c:251-262, 392-403; msr.c:70, 195-202). */
module Modes {
  import opened Words
  import opened Msr
  import opened Interrupts
  import opened Mmu
  import opened Decode
  import opened Exec
  import opened Precise
  import opened Runs
  import opened Invariants
  import Memory

  /** Everything a program outside root mode must leave alone. */
  predicate SameConfiguration(m: MsrFile, m': MsrFile) {
    && m'.itlbl == m.itlbl && m'.itlbh == m.itlbh && m'.dtlbl == m.dtlbl && m'.dtlbh == m.dtlbh
    && m'.imr == m.imr && m'.epc == m.epc && m'.elsa == m.elsa && m'.epsr == m.epsr
    && m'.tcr.cnt == m.tcr.cnt && m'.tcr.en == m.tcr.en && m'.tcr.i == m.tcr.i
  }

  /** Outside root mode WMSR changes nothing and RMSR reads zero. */
  lemma UserMsrAccess(m: MsrFile, i: Half, v: Word)
    requires !m.psr.rm
    ensures Wmsr(m, i, v) == Ok(m) && Rmsr(m, i) == Ok(0)
  {
  }

  lemma UserMoves(c: Cpu, m: MsrFile, m': MsrFile)
    requires !m.psr.rm && MsrMoves(c, m, m')
    ensures m' == m.(psr := m'.psr, irr := m'.irr)
    ensures m'.psr.rm <==> Executes(c, OP_RET) && m.epsr.rm
  {
    hide Executes, WmsrOf, SetLine, Wmsr;
    if WmsrOf(c).Some? {
      UserMsrAccess(m, WmsrOf(c).value.index, WmsrOf(c).value.value);
    }
  }

  /** One retiring step outside root mode leaves the configuration alone, and
      returns to root mode exactly when it is a RET and EPSR.RM is set: RET is
      not gated by PSR.RM. */
  lemma UserStep(c: Cpu, c': Cpu)
    requires !c.msr.psr.rm && Retires(c, c')
    ensures SameConfiguration(c.msr, c'.msr)
    ensures c'.msr.psr.rm <==> Executes(c, OP_RET) && c.msr.epsr.rm
  {
    hide Step, TscClk, Executes, Sound, MsrMoves;
    StepFrame(c, c');
    TickFrame(c.msr);
    UserMoves(c, TscClk(c.msr), c'.msr);
  }

  /** An exception always enters root mode, and records the mode it left. */
  lemma TrapEntersRoot(c: Cpu)
    requires Traps(c)
    ensures var m := Step(c).value.cpu.msr; m.psr.rm && m.epsr == c.msr.psr
  {
    PreciseExceptions(c);
    hide Step, Cause, TscClk;
  }

  /** Any number of steps without an exception, from a state with both RM bits
      clear, keeps both clear and the configuration untouched; the exception
      that ends such a run enters root mode with EPSR.RM still clear. */
  lemma {:induction false} UserRun(c: Cpu, n: nat)
    requires !c.msr.psr.rm && !c.msr.epsr.rm && After(c, n).Ok?
    requires forall k: nat | k < n && After(c, k).Ok? :: !Traps(At(c, k))
    ensures !At(c, n).msr.psr.rm && SameConfiguration(c.msr, At(c, n).msr)
    ensures Traps(At(c, n)) ==>
              var m := Step(At(c, n)).value.cpu.msr; m.psr.rm && !m.epsr.rm
  {
    hide Step, Executes, Traps;
    if n > 0 {
      PrefixRuns(c, n - 1, n);
      UserRun(c, n - 1);
      RetiresUnlessTraps(At(c, n - 1));
      UserStep(At(c, n - 1), At(c, n));
    }
    if Traps(At(c, n)) {
      TrapEntersRoot(At(c, n));
    }
  }

  /** Outside root mode EPSR.RM is clear. */
  predicate ModeInv(m: MsrFile) {
    !m.psr.rm ==> !m.epsr.rm
  }

  /** The only step that can break the mode invariant is a root-mode write to
      PSR that clears RM while EPSR.RM is set. */
  lemma ModeInvBrokenExactly(c: Cpu, r: Stepped)
    requires ModeInv(c.msr) && Step(c) == Ok(r)
    ensures ModeInv(r.cpu.msr) <==>
            !(Writes(c, MSR_PSR) && !Flag(WmsrOf(c).value.value, 16) && c.msr.epsr.rm)
  {
    hide Step, TscClk, SetLine, Executes, Sound, WmsrOf, Wmsr, Flag, Cause;
    if r.trapped {
      TrapEntersRoot(c);
      PreciseExceptions(c);
      if Writes(c, MSR_PSR) {
        WmsrRetires(c);
      }
    } else {
      StepFrame(c, r.cpu);
      TickFrame(c.msr);
      var m := TscClk(c.msr);
      OnlyWmsrWrites(c);
      if Executes(c, OP_WMSR) {
        WmsrMode(m, WmsrOf(c).value.index, WmsrOf(c).value.value, r.cpu.msr);
      }
    }
  }

  /** A WMSR the loop reaches raises nothing. */
  lemma WmsrRetires(c: Cpu)
    requires WmsrOf(c).Some?
    ensures Cause(c) == None
  {
    CauseOfFetched(c);
    hide Cause, Fetched, TscClk, Opcode, Attr, MsrIndex, RegValue, Rd, Rs1, Simm14, Dmmu;
  }

  lemma OnlyWmsrWrites(c: Cpu)
    ensures WmsrOf(c).Some? ==> Executes(c, OP_WMSR) && !Executes(c, OP_RET) && !Executes(c, OP_CMP)
    ensures !(Executes(c, OP_WMSR) && Executes(c, OP_RET))
  {
    hide Fetched, MsrIndex, RegValue;
  }

  lemma WmsrMode(m: MsrFile, i: Half, v: Word, m': MsrFile)
    requires Wmsr(m, i, v) == Ok(m') && ModeInv(m)
    ensures ModeInv(m') <==> !(m.psr.rm && i == MSR_PSR && !Flag(v, 16) && m.epsr.rm)
  {
    assert UnpackPsr(v).rm == Flag(v, 16);
    hide UnpackPsr, Flag, SetLine;
  }

  /** SYSCALL at address 0, and at its vector a write of r0 to PSR. */
  const DROPS_ROOT: seq<Byte> := [0x12, 0, 0, 0, 0, 0, 0, 0, 0, 0, 0, 0, 0x14, 0, 0, 0]

  /** The invariant does break: booted into this program, the processor leaves
      root mode in two steps with EPSR.RM set, so that its next RET returns to
      root mode. */
  lemma ModeInvBreaks(c: Cpu)
    requires Boot(c) && c.pc == 0 && c.ram == DROPS_ROOT
    ensures After(c, 1).Ok? && ModeInv(At(c, 1).msr)
    ensures After(c, 2).Ok? && !ModeInv(At(c, 2).msr)
  {
    hide Step, Cause, Execute, BusLoad;
    assert TscClk(c.msr) == c.msr;
    assert RamWord(c.ram, 0) == Some(0x12) && RamWord(c.ram, VECT_ESYSCALL) == Some(0x14);
    FetchIsRam(c);
    CauseOfFetched(c);
    PreciseExceptions(c);
    var t := Trap(VECT_ESYSCALL, 0, true);
    assert Cause(c) == Some(t);
    DropsRoot(Entry(c, t));
  }

  lemma DropsRoot(h: Cpu)
    requires h.msr.psr.rm && h.msr.epsr.rm && !h.msr.psr.ire && !h.msr.psr.imme && h.pc == VECT_ESYSCALL
    requires RamWord(h.ram, VECT_ESYSCALL) == Some(0x14)
    ensures Step(h).Ok? && !ModeInv(Step(h).value.cpu.msr)
  {
    TickFrame(h.msr);
    WordLoadIsRam(Tick(h), h.pc);
    WritesZeroToPsr(Tick(h));
    hide TscClk, BusLoad, Execute, Memory.LoadRam;
  }

  lemma WritesZeroToPsr(c: Cpu)
    requires c.msr.psr.rm
    ensures Execute(c, 0x14) == Ok(Fall(c.(msr := c.msr.(psr := PSR_ZERO))))
  {
    hide Execute, Or;
    WmsrExecutes(c, 0x14);
    ZeroIndex();
    hide MsrIndex;
    assert UnpackPsr(0) == PSR_ZERO;
    hide UnpackPsr;
  }

  lemma ZeroIndex()
    ensures MsrIndex(0, 0x14) == MSR_PSR
  {
    hide Or;
    OrBit(0, false, 0);
  }

  lemma WmsrExecutes(c: Cpu, ins: Word)
    requires Opcode(ins) == OP_WMSR
    ensures Execute(c, ins) == ExecWmsr(c, ins)
  {
    hide Opcode, ExecWmsr;
    assert AluOf(OP_WMSR).NotAlu? && LoadWidth(OP_WMSR).None? && StoreWidth(OP_WMSR).None?;
    hide AluOf, LoadWidth, StoreWidth;
  }
}
