/** What every reachable state satisfies: the invariant of single steps and of runs. */
module Invariants {
  import opened Words
  import opened Msr
  import opened Interrupts
  import opened Exec
  import opened Precise
  import opened Runs
  import Ata
  import CallStack

  // ---------- the reachable-state invariant ----------

  predicate LowFits(lows: LowBank) {
    forall k: nat | k < 128 :: lows[k].vpn < 0x8_0000
  }

  predicate ItlbFits(highs: ItlbHighBank) {
    forall k: nat | k < 128 :: highs[k].ppn < 0x8_0000
  }

  predicate DtlbFits(highs: DtlbHighBank) {
    forall k: nat | k < 128 :: highs[k].ppn < 0x8_0000
  }

  /** Only the timer and the device request interrupts, and the timer line
      shows P and I. */
  predicate LinesFit(irr: Word, tcr: Tcr) {
    && (forall k: nat | k < 32 && k != IRQ_TSC && k != Ata.IRQ_ATA :: !Bit(irr, k))
    && (Bit(irr, IRQ_TSC) <==> tcr.p && tcr.i)
  }

  predicate MsrInv(m: MsrFile) {
    && LowFits(m.itlbl) && LowFits(m.dtlbl) && ItlbFits(m.itlbh) && DtlbFits(m.dtlbh)
    && m.tcr.cnt < 0x1000_0000
    && LinesFit(m.irr, m.tcr)
  }

  lemma TimerLineFits(irr: Word, tcr: Tcr, tcr': Tcr)
    requires LinesFit(irr, tcr)
    ensures LinesFit(SetLine(irr, IRQ_TSC, tcr'.p && tcr'.i), tcr')
  {
    var raised := tcr'.p && tcr'.i;
    var irr' := SetLine(irr, IRQ_TSC, raised);
    forall k: nat | k < 32
      ensures Bit(irr', k) == if k == IRQ_TSC then raised else Bit(irr, k)
    {
      SetLineBit(irr, IRQ_TSC, raised, k);
    }
    hide SetLine;
    assert Bit(irr', IRQ_TSC) == raised;
    assert forall k: nat | k < 32 && k != IRQ_TSC && k != Ata.IRQ_ATA :: !Bit(irr', k);
  }

  lemma DeviceLineFits(irr: Word, irr': Word, tcr: Tcr)
    requires LinesFit(irr, tcr) && LineMoves(irr, irr')
    ensures LinesFit(irr', tcr)
  {
    hide SetLine;
    if irr' != irr {
      var raised :| irr' == SetLine(irr, Ata.IRQ_ATA, raised);
      forall k: nat | k < 32
        ensures Bit(irr', k) == if k == Ata.IRQ_ATA then raised else Bit(irr, k)
      {
        SetLineBit(irr, Ata.IRQ_ATA, raised, k);
      }
      SetLineBit(irr, Ata.IRQ_ATA, raised, IRQ_TSC);
    }
  }

  lemma ClockKeepsInv(m: MsrFile)
    requires MsrInv(m)
    ensures MsrInv(TscClk(m))
  {
    hide SetLine, LowFits, ItlbFits, DtlbFits, LinesFit;
    TimerLineFits(m.irr, m.tcr, m.tcr.(p := true));
  }

  lemma WmsrKeepsInv(m: MsrFile, i: Half, v: Word, m': MsrFile)
    requires MsrInv(m) && Wmsr(m, i, v) == Ok(m')
    ensures MsrInv(m')
  {
    hide SetLine, LinesFit, UnpackPsr, Flag;
    TimerLineFits(m.irr, m.tcr, UnpackTcr(v));
  }

  predicate Inv(c: Cpu) {
    Sound(c) && MsrInv(c.msr)
  }

  lemma ExceptionKeepsInv(c: Cpu, t: Trap)
    requires Inv(c)
    ensures Inv(Entry(c, t))
  {
    hide TscClk, Ata.StatusInv, LowFits, ItlbFits, DtlbFits, LinesFit;
    ClockKeepsInv(c.msr);
  }

  lemma StepKeepsInv(c: Cpu, r: Stepped)
    requires Inv(c) && Step(c) == Ok(r)
    ensures Inv(r.cpu) && |r.cpu.ram| == |c.ram|
  {
    hide Step, TscClk, Sound, Executes, Wmsr, WmsrOf, SetLine, LowFits, ItlbFits, DtlbFits, LinesFit, Cause, Entry;
    PreciseExceptions(c);
    ClockKeepsInv(c.msr);
    var m := TscClk(c.msr);
    if r.trapped {
      ExceptionKeepsInv(c, Cause(c).value);
      assert |Entry(c, Cause(c).value).ram| == |c.ram| by { EntryRam(c, Cause(c).value); }
    } else {
      StepFrame(c, r.cpu);
      if WmsrOf(c).Some? && Wmsr(m, WmsrOf(c).value.index, WmsrOf(c).value.value) == Ok(r.cpu.msr) {
        WmsrKeepsInv(m, WmsrOf(c).value.index, WmsrOf(c).value.value, r.cpu.msr);
      } else if LineMoves(m.irr, r.cpu.msr.irr) {
        DeviceLineFits(m.irr, r.cpu.msr.irr, m.tcr);
      }
    }
  }

  lemma EntryRam(c: Cpu, t: Trap)
    ensures Entry(c, t).ram == c.ram
  {
  }

  /** A processor as `main` starts it: device initialised, then processor reset. */
  predicate Boot(c: Cpu) {
    && c == Reset(c, c.pc)
    && c.ata == Ata.Reset(c.ata)
    && c.trace == CallStack.EMPTY
  }

  lemma BootInv(c: Cpu)
    requires Boot(c)
    ensures Inv(c)
  {
    Ata.ResetIsInitial(c.ata);
    forall k: nat
      ensures !Bit(0, k)
    {
      ZeroHasNoBits(k);
    }
    hide Ata.StatusInv;
  }

  /** The invariant holds after any number of steps from reset. */
  lemma {:induction false} ReachableInv(c: Cpu, n: nat)
    requires Boot(c) && After(c, n).Ok?
    ensures Inv(At(c, n)) && |At(c, n).ram| == |c.ram|
  {
    hide Step, Inv, Boot;
    if n == 0 {
      BootInv(c);
    } else {
      ReachableInv(c, n - 1);
      StepKeepsInv(At(c, n - 1), Step(At(c, n - 1)).value);
    }
  }

  /** What power-on leaves: root mode with every other flag clear, registers,
      tables, timer and requests zero, an empty call stack, and a first step
      that executes the word in memory at the reset vector. */
  lemma BootState(c: Cpu)
    requires Boot(c)
    ensures c.msr.psr.rm && c.msr.psr.(rm := false) == PSR_ZERO && c.msr.epsr == PSR_ZERO
    ensures forall i | 0 <= i < 32 :: c.regs[i] == 0
    ensures forall s | 0 <= s < 128 :: !c.msr.itlbl[s].v && !c.msr.dtlbl[s].v
    ensures c.msr.tsr == 0 && !c.msr.tcr.en && !c.msr.tcr.i && !c.msr.tcr.p && c.msr.imr == 0 && c.msr.irr == 0
    ensures c.trace.frames == [] && !c.trace.damaged
    ensures Fetched(c) == RamWord(c.ram, c.pc)
  {
    FetchIsRam(c);
    hide Fetched, RamWord;
  }
}
