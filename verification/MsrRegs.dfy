/** The global `msr` of the emulator and the code that updates it in place:
    msr.c, tsc.c and the line setter of irqc.c. */
module MsrRegs {
  import opened Words
  import opened Msr
  import Interrupts

  class MsrRegs {
    var psr: Psr
    var epsr: Psr
    var epc: Word
    var elsa: Word
    const itlbl: array<TlbLow>
    const itlbh: array<ItlbHigh>
    const dtlbl: array<TlbLow>
    const dtlbh: array<DtlbHigh>
    var tsr: Word
    var tcr: Tcr
    var imr: Word
    var irr: Word

    ghost predicate Valid() {
      && itlbl.Length == itlbh.Length == dtlbl.Length == dtlbh.Length == 128
      && itlbl != dtlbl
    }

    ghost function View(): MsrFile
      requires Valid()
      reads this, itlbl, itlbh, dtlbl, dtlbh
    {
      MsrFile(psr, epsr, epc, elsa, itlbl[..], itlbh[..], dtlbl[..], dtlbh[..], tsr, tcr, imr, irr)
    }

    /** `init_msr`. */
    constructor ()
      ensures Valid() && fresh(itlbl) && fresh(itlbh) && fresh(dtlbl) && fresh(dtlbh)
      ensures View() == MSR_RESET
    {
      itlbl := new TlbLow[128](_ => LOW_ZERO);
      itlbh := new ItlbHigh[128](_ => ITLBH_ZERO);
      dtlbl := new TlbLow[128](_ => LOW_ZERO);
      dtlbh := new DtlbHigh[128](_ => DTLBH_ZERO);
      psr, epsr := PSR_ZERO.(rm := true), PSR_ZERO;
      epc, elsa, tsr, imr, irr := 0, 0, 0, 0, 0;
      tcr := Tcr(0, false, false, false);
      new;
      assert itlbl[..] == MSR_RESET.itlbl && itlbh[..] == MSR_RESET.itlbh;
      assert dtlbl[..] == MSR_RESET.dtlbl && dtlbh[..] == MSR_RESET.dtlbh;
    }

    /** `irqc_set_interrupt`. */
    method SetInterrupt(channel: nat, raised: bool)
      requires channel < 32
      modifies this`irr
      ensures irr == SetLine(old(irr), channel, raised)
    {
      if raised {
        irr := Or(irr, LineMask(channel));
      } else {
        irr := And(irr, Not(LineMask(channel)));
      }
    }

    /** `tsc_update_tcr`. */
    method UpdateTcr()
      modifies this`irr
      ensures irr == SetLine(old(irr), IRQ_TSC, tcr.p && tcr.i)
    {
      SetInterrupt(IRQ_TSC, tcr.p && tcr.i);
    }

    /** `tsc_clk`. */
    method TscClk()
      requires Valid()
      modifies this`irr, this`tcr, this`tsr
      ensures View() == Interrupts.TscClk(old(View()))
    {
      if tcr.en {
        if tcr.i && tsr % 0x1000_0000 == tcr.cnt {
          tcr := tcr.(p := true);
          UpdateTcr();
        }
        tsr := Wrap(tsr + 1);
      }
    }

    /** The register half of `cpu_raise_exception`. */
    method EnterException(returnPc: Word, lsa: Word)
      requires Valid()
      modifies this
      ensures View() == old(View()).(epc := returnPc, elsa := lsa, epsr := old(psr),
                                     psr := old(psr).(rm := true, imme := false, dmme := false, ire := false))
    {
      epc := returnPc;
      elsa := lsa;
      epsr := psr;
      psr := psr.(rm := true);
      psr := psr.(imme := false);
      psr := psr.(dmme := false);
      psr := psr.(ire := false);
    }

    method WritePsr(v: Word)
      modifies this`psr
      ensures psr == UnpackPsr(v)
    {
      psr := psr.(cc := Flag(v, 1));
      psr := psr.(cy := Flag(v, 2));
      psr := psr.(ov := Flag(v, 4));
      psr := psr.(oe := Flag(v, 8));
      psr := psr.(rm := Flag(v, 16));
      psr := psr.(ire := Flag(v, 32));
      psr := psr.(imme := Flag(v, 64));
      psr := psr.(dmme := Flag(v, 128));
      psr := psr.(icae := Flag(v, 256));
      psr := psr.(dcae := Flag(v, 512));
    }

    method WriteEpsr(v: Word)
      modifies this`epsr
      ensures epsr == UnpackPsr(v)
    {
      epsr := epsr.(cc := Flag(v, 1));
      epsr := epsr.(cy := Flag(v, 2));
      epsr := epsr.(ov := Flag(v, 4));
      epsr := epsr.(oe := Flag(v, 8));
      epsr := epsr.(rm := Flag(v, 16));
      epsr := epsr.(ire := Flag(v, 32));
      epsr := epsr.(imme := Flag(v, 64));
      epsr := epsr.(dmme := Flag(v, 128));
      epsr := epsr.(icae := Flag(v, 256));
      epsr := epsr.(dcae := Flag(v, 512));
    }

    method WriteTcr(v: Word)
      modifies this`tcr, this`irr
      ensures tcr == UnpackTcr(v) && irr == SetLine(old(irr), IRQ_TSC, tcr.p && tcr.i)
    {
      tcr := tcr.(cnt := v % 0x1000_0000);
      tcr := tcr.(en := Flag(v, 0x1000_0000));
      tcr := tcr.(i := Flag(v, 0x2000_0000));
      tcr := tcr.(p := Flag(v, 0x4000_0000));
      UpdateTcr();
    }

    method WriteTlb(index: Half, v: Word) returns (ok: bool)
      requires Valid()
      modifies itlbl, itlbh, dtlbl, dtlbh
      ensures ok == InTlbBanks(index)
      ensures View().(itlbl := old(View()).itlbl, itlbh := old(View()).itlbh,
                      dtlbl := old(View()).dtlbl, dtlbh := old(View()).dtlbh) == old(View())
      ensures itlbl[..] == if InBank(index, MSR_ITLBL) then old(itlbl[..])[index - MSR_ITLBL := UnpackLow(v)]
                        else old(itlbl[..])
      ensures itlbh[..] == if InBank(index, MSR_ITLBH) then old(itlbh[..])[index - MSR_ITLBH := UnpackItlbHigh(v)]
                        else old(itlbh[..])
      ensures dtlbl[..] == if InBank(index, MSR_DTLBL) then old(dtlbl[..])[index - MSR_DTLBL := UnpackLow(v)]
                        else old(dtlbl[..])
      ensures dtlbh[..] == if InBank(index, MSR_DTLBH) then old(dtlbh[..])[index - MSR_DTLBH := UnpackDtlbHigh(v)]
                        else old(dtlbh[..])
    {
      ok := true;
      if InBank(index, MSR_ITLBL) {
        itlbl[index - MSR_ITLBL] := UnpackLow(v);
      } else if InBank(index, MSR_ITLBH) {
        itlbh[index - MSR_ITLBH] := UnpackItlbHigh(v);
      } else if InBank(index, MSR_DTLBL) {
        dtlbl[index - MSR_DTLBL] := UnpackLow(v);
      } else if InBank(index, MSR_DTLBH) {
        dtlbh[index - MSR_DTLBH] := UnpackDtlbHigh(v);
      } else {
        ok := false;
      }
    }

    /** `wmsr`; `ok` is false where the source panics. */
    method Wmsr(index: Half, v: Word) returns (ok: bool)
      requires Valid()
      modifies this, itlbl, itlbh, dtlbl, dtlbh
      ensures Msr.Wmsr(old(View()), index, v) == if ok then Ok(View()) else Panic
    {
      hide UnpackPsr, UnpackTcr, UnpackLow, UnpackItlbHigh, UnpackDtlbHigh, SetLine;
      ok := true;
      if index == MSR_DBGR_NUMPORT || index == MSR_DBGR_MSGPORT {
        return;
      }
      if psr.rm {
        if index == MSR_PSR {
          WritePsr(v);
        } else if index == MSR_EPSR {
          WriteEpsr(v);
        } else if index == MSR_EPC {
          epc := v;
        } else if index == MSR_ELSA {
          elsa := v;
        } else if index == MSR_ICINV || index == MSR_ICFLS || index == MSR_DCINV || index == MSR_DCFLS {
        } else if index == MSR_TSR {
          tsr := v;
        } else if index == MSR_TCR {
          WriteTcr(v);
        } else if index == MSR_IMR {
          imr := v;
        } else {
          ok := WriteTlb(index, v);
        }
      }
    }

    /** `rmsr`; None where the source panics. */
    method Rmsr(index: Half) returns (r: Option<Word>)
      requires Valid()
      ensures Msr.Rmsr(View(), index) == if r.Some? then Ok(r.value) else Panic
    {
      if !psr.rm {
        return Some(0);
      }
      var ret: Word := 0;
      if index == MSR_PSR {
        ret := PackPsrBits(psr);
      } else if index == MSR_CPUID {
        ret := CPUID_VALUE;
      } else if index == MSR_EPSR {
        ret := PackPsrBits(epsr);
      } else if index == MSR_EPC {
        ret := epc;
      } else if index == MSR_ELSA {
        ret := elsa;
      } else if index == MSR_COREID {
      } else if index == MSR_IMMID || index == MSR_DMMID {
        ret := 7;
      } else if index == MSR_TSR {
        ret := tsr;
      } else if index == MSR_TCR {
        ret := PackTcrBits(tcr);
      } else if index == MSR_IMR {
        ret := imr;
      } else if index == MSR_IRR {
        ret := irr;
      } else if InBank(index, MSR_ITLBL) {
        ret := PackLowBits(itlbl[index - MSR_ITLBL]);
      } else if InBank(index, MSR_ITLBH) {
        ret := PackItlbHighBits(itlbh[index - MSR_ITLBH]);
      } else if InBank(index, MSR_DTLBL) {
        ret := 0;
      } else if InBank(index, MSR_DTLBH) {
        ret := PackDtlbHighBits(dtlbh[index - MSR_DTLBH]);
      } else {
        return None;
      }
      r := Some(ret);
    }
  }

  /** Five flags from bit 0 on. */
  method PackFiveFlags(b0: bool, b1: bool, b2: bool, b3: bool, b4: bool) returns (ret: Word)
    ensures ret == Weight(b0, 1) + Weight(b1, 2) + Weight(b2, 4) + Weight(b3, 8) + Weight(b4, 16) < 32
  {
    BitWeights();
    hide Or, Pow2, Weight;
    ret := Weight(b0, 1);
    OrBit(ret, b1, 1);
    ret := Or(ret, Weight(b1, 2));
    OrBit(ret, b2, 2);
    ret := Or(ret, Weight(b2, 4));
    OrBit(ret, b3, 3);
    ret := Or(ret, Weight(b3, 8));
    OrBit(ret, b4, 4);
    ret := Or(ret, Weight(b4, 16));
  }

  /** The accumulation of disjoint bits by `|=` is their sum. */
  method PackPsrBits(p: Psr) returns (ret: Word)
    ensures ret == PackPsr(p)
  {
    BitWeights();
    hide Or, Pow2, Weight;
    ret := PackFiveFlags(p.cc, p.cy, p.ov, p.oe, p.rm);
    OrBit(ret, p.ire, 5);
    ret := Or(ret, Weight(p.ire, 32));
    OrBit(ret, p.imme, 6);
    ret := Or(ret, Weight(p.imme, 64));
    OrBit(ret, p.dmme, 7);
    ret := Or(ret, Weight(p.dmme, 128));
    OrBit(ret, p.icae, 8);
    ret := Or(ret, Weight(p.icae, 256));
    OrBit(ret, p.dcae, 9);
    ret := Or(ret, Weight(p.dcae, 512));
  }

  method PackTcrBits(t: Tcr) returns (ret: Word)
    ensures ret == PackTcr(t)
  {
    BitWeights();
    hide Or, Pow2, Weight;
    ret := t.cnt % 0x1000_0000;
    OrBit(ret, t.en, 28);
    ret := Or(ret, Weight(t.en, 0x1000_0000));
    OrBit(ret, t.i, 29);
    ret := Or(ret, Weight(t.i, 0x2000_0000));
    OrBit(ret, t.p, 30);
    ret := Or(ret, Weight(t.p, 0x4000_0000));
  }

  /** The page number field above the flag bits. */
  lemma OrPage(ret: Word, page: Word)
    requires ret < 0x2000
    ensures Or(ret, page % 0x8_0000 * 0x2000) == ret + page % 0x8_0000 * 0x2000
  {
    HighWeights();
    Pow2Of32();
    hide *;
    assert 32 - 13 == 19;
    OrField(ret, page % 0x8_0000, 13, 0x2000);
  }

  method PackLowBits(l: TlbLow) returns (ret: Word)
    ensures ret == PackLow(l)
  {
    hide Or;
    ret := Weight(l.v, 1);
    OrPage(ret, l.vpn);
    ret := Or(ret, l.vpn % 0x8_0000 * 0x2000);
  }

  method PackItlbHighBits(h: ItlbHigh) returns (ret: Word)
    ensures ret == PackItlbHigh(h)
  {
    BitWeights();
    hide Or, Pow2, Weight;
    ret := PackFiveFlags(h.p, h.d, h.a, h.ux, h.rx);
    OrBit(ret, h.nc, 7);
    ret := Or(ret, Weight(h.nc, 128));
    OrBit(ret, h.s, 8);
    ret := Or(ret, Weight(h.s, 256));
    OrPage(ret, h.ppn);
    ret := Or(ret, h.ppn % 0x8_0000 * 0x2000);
  }

  method PackDtlbHighBits(h: DtlbHigh) returns (ret: Word)
    ensures ret == PackDtlbHigh(h)
  {
    BitWeights();
    hide Or, Pow2, Weight;
    ret := PackFiveFlags(h.p, h.d, h.a, h.uw, h.ur);
    OrBit(ret, h.rw, 5);
    ret := Or(ret, Weight(h.rw, 32));
    OrBit(ret, h.rr, 6);
    ret := Or(ret, Weight(h.rr, 64));
    OrBit(ret, h.nc, 7);
    ret := Or(ret, Weight(h.nc, 128));
    OrBit(ret, h.s, 8);
    ret := Or(ret, Weight(h.s, 256));
    OrPage(ret, h.ppn);
    ret := Or(ret, h.ppn % 0x8_0000 * 0x2000);
  }
}
