/** Timer latency over runs of the processor (tsc.c:12-32, irqc.c:33-41,
    exec.c:78-88). */
module Timer {
  import opened Words
  import opened Msr
  import opened Interrupts
  import opened Mmu
  import opened Decode
  import opened Exec
  import opened Precise
  import opened Runs
  import Memory

  /** A step that does not write the timer's registers. */
  predicate Steady(c: Cpu) {
    !Writes(c, MSR_TSR) && !Writes(c, MSR_TCR)
  }

  lemma MoveKeepsTimer(c: Cpu, m: MsrFile, m': MsrFile)
    requires MsrMoves(c, m, m') && Steady(c) && m.psr.rm == c.msr.psr.rm
    ensures m'.tsr == m.tsr && m'.tcr == m.tcr
  {
    hide Executes, WmsrOf, SetLine;
    if WmsrOf(c).Some? {
      WmsrKeepsTimer(m, WmsrOf(c).value.index, WmsrOf(c).value.value);
    }
    hide Wmsr;
  }

  lemma WmsrKeepsTimer(m: MsrFile, i: Half, v: Word)
    requires !m.psr.rm || i !in {MSR_TSR, MSR_TCR}
    ensures Wmsr(m, i, v).Ok? ==> Wmsr(m, i, v).value.tsr == m.tsr && Wmsr(m, i, v).value.tcr == m.tcr
  {
    hide UnpackPsr, UnpackLow, UnpackItlbHigh, UnpackDtlbHigh;
  }

  /** Whatever a steady step does, it clocks the timer once. */
  lemma StepClocksTimer(c: Cpu, r: Stepped)
    requires Step(c) == Ok(r) && Steady(c)
    ensures r.cpu.msr.tsr == TscClk(c.msr).tsr && r.cpu.msr.tcr == TscClk(c.msr).tcr
  {
    hide Step, TscClk, MsrMoves, Steady, Cause;
    if r.trapped {
      PreciseExceptions(c);
    } else {
      StepFrame(c, r.cpu);
      TickFrame(c.msr);
      MoveKeepsTimer(c, TscClk(c.msr), r.cpu.msr);
    }
  }

  predicate Armed(m: MsrFile) {
    m.tcr.en && m.tcr.i && m.tcr.cnt < 0x1000_0000
  }

  /** The state of an armed timer `n` clock edges later. */
  predicate TimerAt(m0: MsrFile, n: nat, m: MsrFile) {
    && m.tsr == Wrap(m0.tsr + n)
    && m.tcr == m0.tcr.(p := m0.tcr.p || n > EdgesToMatch(m0))
    && (n <= EdgesToMatch(m0) ==> EdgesToMatch(m) == EdgesToMatch(m0) - n)
  }

  lemma ClockTimer(m0: MsrFile, n: nat, m: MsrFile)
    requires Armed(m0) && TimerAt(m0, n, m)
    ensures TimerAt(m0, n + 1, TscClk(m))
  {
    hide EdgesToMatch, TscUpdateTcr, Wrap;
    MatchesExactly(m);
    WrapTwice(m0.tsr + n);
    if EdgesToMatch(m) > 0 {
      EdgeCountsDown(m);
    } else {
      ClockFires(m);
    }
  }

  lemma WrapTwice(x: int)
    ensures Wrap(Wrap(x) + 1) == Wrap(x + 1)
  {
  }

  lemma ClockFires(m: MsrFile)
    requires Armed(m) && m.tsr % 0x1000_0000 == m.tcr.cnt
    ensures TscClk(m).tsr == Wrap(m.tsr + 1) && TscClk(m).tcr == m.tcr.(p := true)
  {
    hide SetLine, Wrap;
  }

  lemma TimerDepends(m0: MsrFile, n: nat, m: MsrFile, m': MsrFile)
    requires TimerAt(m0, n, m) && m'.tsr == m.tsr && m'.tcr == m.tcr
    ensures TimerAt(m0, n, m')
  {
  }

  /** Over any run that does not write the timer, an armed timer counts one
      per step and its pending bit is set, if it was clear, by exactly edge
      number ((CNT - TSR) mod 2^28) + 1, through any wrap-around. */
  lemma {:induction false} TimerRun(c: Cpu, n: nat)
    requires Armed(c.msr) && After(c, n).Ok?
    requires forall k: nat | k < n && After(c, k).Ok? :: Steady(At(c, k))
    ensures TimerAt(c.msr, n, At(c, n).msr)
  {
    hide Step, Steady;
    if n > 0 {
      TimerRun(c, n - 1);
      var s := At(c, n - 1);
      StepClocksTimer(s, Step(s).value);
      hide TimerAt, Armed, TscClk;
      ClockTimer(c.msr, n - 1, s.msr);
      TimerDepends(c.msr, n, TscClk(s.msr), At(c, n).msr);
    } else {
      TimerStart(c.msr);
    }
  }

  lemma TimerStart(m: MsrFile)
    ensures TimerAt(m, 0, m)
  {
  }

  /** The edge that matches latches P and raises the timer line and no other;
      an interrupt is then pending exactly under IRE with the timer line, or
      another raised one, unmasked. */
  lemma MatchingEdge(m: MsrFile)
    requires Armed(m) && EdgesToMatch(m) == 0
    ensures TscClk(m).tcr.p
    ensures forall k: nat | k < 32 :: Bit(TscClk(m).irr, k) == (k == IRQ_TSC || Bit(m.irr, k))
    ensures IrqPending(TscClk(m)) <==>
            m.psr.ire && (!Bit(m.imr, IRQ_TSC) || exists k: nat :: k < 32 && Bit(m.irr, k) && !Bit(m.imr, k))
  {
    MatchesExactly(m);
    TickFrame(m);
    var m' := TscClk(m);
    assert m'.irr == SetLine(m.irr, IRQ_TSC, true) by {
      hide SetLine, Bit;
    }
    hide SetLine, Bit, TscClk, EdgesToMatch, And, Not;
    forall k: nat | k < 32
      ensures Bit(m'.irr, k) == (k == IRQ_TSC || Bit(m.irr, k))
    {
      SetLineBit(m.irr, IRQ_TSC, true, k);
    }
    MaskedNonzero(m'.irr, m.imr);
    assert IRQ_TSC < 32;
    if !Bit(m.imr, IRQ_TSC) {
      assert Bit(m'.irr, IRQ_TSC);
    }
  }

  /** Timer latency: the step that brings the matching edge takes the interrupt
      itself, if interrupts are enabled and the timer line is unmasked then. */
  lemma TimerInterrupts(c: Cpu, s: Cpu)
    requires Armed(c.msr) && After(c, EdgesToMatch(c.msr)) == Ok(s)
    requires forall k: nat | k < EdgesToMatch(c.msr) && After(c, k).Ok? :: Steady(At(c, k))
    ensures TscClk(s.msr).tcr.p
    ensures s.msr.psr.ire && !Bit(s.msr.imr, IRQ_TSC) ==>
              Step(s) == Ok(Stepped(Entry(s, Trap(VECT_EIRQ, 0, false)), true))
  {
    hide Step, Steady, Bit, Entry;
    TimerRun(c, EdgesToMatch(c.msr));
    hide EdgesToMatch;
    MatchingEdge(s.msr);
    PreciseExceptions(s);
  }

  // ---------- a timer that does not compare ----------

  /** The timer is stopped, or runs without its interrupt enabled. */
  predicate Idle(t: Tcr) {
    !t.en || !t.i
  }

  /** The state of such a timer `n` clock edges later. */
  predicate IdleAt(m0: MsrFile, n: nat, m: MsrFile) {
    && m.tsr == Wrap(m0.tsr + if m0.tcr.en then n else 0)
    && m.tcr == m0.tcr
    && Bit(m.irr, IRQ_TSC) == Bit(m0.irr, IRQ_TSC)
  }

  lemma ClockIdle(m0: MsrFile, n: nat, m: MsrFile)
    requires Idle(m0.tcr) && IdleAt(m0, n, m)
    ensures IdleAt(m0, n + 1, TscClk(m))
  {
    IdleEdge(m);
    WrapTwice(m0.tsr + n);
    hide TscClk, Wrap, Bit;
  }

  /** A steady step moves no timer line beyond its clock edge. */
  lemma StepKeepsLine(c: Cpu, r: Stepped)
    requires Step(c) == Ok(r) && Steady(c)
    ensures Bit(r.cpu.msr.irr, IRQ_TSC) == Bit(TscClk(c.msr).irr, IRQ_TSC)
  {
    hide Step, TscClk, MsrMoves, Steady, Cause, Bit;
    if r.trapped {
      PreciseExceptions(c);
    } else {
      StepFrame(c, r.cpu);
      TickFrame(c.msr);
      MoveKeepsLine(c, TscClk(c.msr), r.cpu.msr);
    }
  }

  lemma MoveKeepsLine(c: Cpu, m: MsrFile, m': MsrFile)
    requires MsrMoves(c, m, m') && Steady(c) && m.psr.rm == c.msr.psr.rm
    ensures Bit(m'.irr, IRQ_TSC) == Bit(m.irr, IRQ_TSC)
  {
    hide Executes, WmsrOf, SetLine, Bit;
    if WmsrOf(c).Some? {
      WmsrKeepsLine(m, WmsrOf(c).value.index, WmsrOf(c).value.value);
    }
    SetLineBit(m.irr, 3, true, IRQ_TSC);
    SetLineBit(m.irr, 3, false, IRQ_TSC);
    hide Wmsr;
  }

  lemma WmsrKeepsLine(m: MsrFile, i: Half, v: Word)
    requires !m.psr.rm || i != MSR_TCR
    ensures Wmsr(m, i, v).Ok? ==> Wmsr(m, i, v).value.irr == m.irr
  {
    hide UnpackPsr, UnpackLow, UnpackItlbHigh, UnpackDtlbHigh;
  }

  lemma IdleDepends(m0: MsrFile, n: nat, m: MsrFile, m': MsrFile)
    requires IdleAt(m0, n, m) && m'.tsr == m.tsr && m'.tcr == m.tcr && Bit(m'.irr, IRQ_TSC) == Bit(m.irr, IRQ_TSC)
    ensures IdleAt(m0, n, m')
  {
    hide Bit, Wrap;
  }

  /** Over any run that does not write the timer: with EN clear TSR, TCR and
      the timer line stay as they are, and with EN set and I clear TSR counts
      one per step modulo 2^32 while P and the line never move. */
  lemma {:induction false} IdleTimerRun(c: Cpu, n: nat)
    requires Idle(c.msr.tcr) && After(c, n).Ok?
    requires forall k: nat | k < n && After(c, k).Ok? :: Steady(At(c, k))
    ensures IdleAt(c.msr, n, At(c, n).msr)
  {
    hide Step, Steady;
    if n > 0 {
      IdleTimerRun(c, n - 1);
      var s := At(c, n - 1);
      StepClocksTimer(s, Step(s).value);
      StepKeepsLine(s, Step(s).value);
      hide IdleAt, Idle, TscClk;
      ClockIdle(c.msr, n - 1, s.msr);
      IdleDepends(c.msr, n, TscClk(s.msr), At(c, n).msr);
    }
  }

  /** The interrupt gate of a step: it takes the interrupt exactly when, after
      its clock edge, interrupts are enabled and some raised line is unmasked,
      whichever line that is. */
  lemma InterruptGate(c: Cpu)
    ensures var m := TscClk(c.msr);
            (m.psr.ire && exists k: nat :: k < 32 && Bit(m.irr, k) && !Bit(m.imr, k))
            <==> Cause(c) == Some(Trap(VECT_EIRQ, 0, false))
    ensures Cause(c) == Some(Trap(VECT_EIRQ, 0, false)) ==>
              Step(c) == Ok(Stepped(Entry(c, Trap(VECT_EIRQ, 0, false)), true))
  {
    var m := TscClk(c.msr);
    PendingExactly(m);
    PreciseExceptions(c);
    CauseOfFetched(c);
    OnlyGateInterrupts(c);
    hide Step, Bit, Entry, Cause, TscClk;
  }

  lemma OnlyGateInterrupts(c: Cpu)
    ensures IrqPending(TscClk(c.msr)) <==> Cause(c) == Some(Trap(VECT_EIRQ, 0, false))
  {
    hide TscClk, IrqPending, Immu, Memory.LoadRam, Dmmu, Simm14, ValidEncoding, RegValue;
  }
}
