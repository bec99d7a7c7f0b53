/** The machine-specific register file (msr.c, ncpu32k-msr.h): the fields the
    emulator keeps, how `wmsr` unpacks a word into them and how `rmsr` packs
    them again. */
module Msr {
  import opened Words

  const MSR_PSR: Half := 0x0000
  const MSR_CPUID: Half := 0x0001
  const MSR_EPSR: Half := 0x0002
  const MSR_EPC: Half := 0x0003
  const MSR_ELSA: Half := 0x0004
  const MSR_COREID: Half := 0x0006
  const MSR_IMMID: Half := 0x0400
  const MSR_ITLBL: Half := 0x0500
  const MSR_ITLBH: Half := 0x0580
  const MSR_DMMID: Half := 0x0800
  const MSR_DTLBL: Half := 0x0900
  const MSR_DTLBH: Half := 0x0980
  const MSR_ICINV: Half := 0x0c01
  const MSR_ICFLS: Half := 0x0c02
  const MSR_DCINV: Half := 0x1001
  const MSR_DCFLS: Half := 0x1002
  const MSR_DBGR_NUMPORT: Half := 0x1400
  const MSR_DBGR_MSGPORT: Half := 0x1401
  const MSR_IMR: Half := 0x1800
  const MSR_IRR: Half := 0x1801
  const MSR_TSR: Half := 0x1c00
  const MSR_TCR: Half := 0x1c01

  const IRQ_TSC: nat := 0

  datatype Psr = Psr(cc: bool, cy: bool, ov: bool, oe: bool, rm: bool,
                     ire: bool, imme: bool, dmme: bool, icae: bool, dcae: bool)

  datatype TlbLow = TlbLow(v: bool, vpn: Word)

  datatype ItlbHigh = ItlbHigh(p: bool, d: bool, a: bool, ux: bool, rx: bool, nc: bool, s: bool, ppn: Word)

  datatype DtlbHigh = DtlbHigh(p: bool, d: bool, a: bool, uw: bool, ur: bool, rw: bool, rr: bool,
                               nc: bool, s: bool, ppn: Word)

  datatype Tcr = Tcr(cnt: Word, en: bool, i: bool, p: bool)

  const PSR_ZERO := Psr(false, false, false, false, false, false, false, false, false, false)
  const LOW_ZERO := TlbLow(false, 0)
  const ITLBH_ZERO := ItlbHigh(false, false, false, false, false, false, false, 0)
  const DTLBH_ZERO := DtlbHigh(false, false, false, false, false, false, false, false, false, 0)

  type LowBank = s: seq<TlbLow> | |s| == 128 witness seq(128, _ => LOW_ZERO)
  type ItlbHighBank = s: seq<ItlbHigh> | |s| == 128 witness seq(128, _ => ITLBH_ZERO)
  type DtlbHighBank = s: seq<DtlbHigh> | |s| == 128 witness seq(128, _ => DTLBH_ZERO)

  datatype MsrFile = MsrFile(
    psr: Psr, epsr: Psr, epc: Word, elsa: Word,
    itlbl: LowBank, itlbh: ItlbHighBank, dtlbl: LowBank, dtlbh: DtlbHighBank,
    tsr: Word, tcr: Tcr, imr: Word, irr: Word)

  /** `init_msr`: everything zero but PSR.RM. */
  const MSR_RESET := MsrFile(
    PSR_ZERO.(rm := true), PSR_ZERO, 0, 0,
    seq(128, _ => LOW_ZERO), seq(128, _ => ITLBH_ZERO), seq(128, _ => LOW_ZERO), seq(128, _ => DTLBH_ZERO),
    0, Tcr(0, false, false, false), 0, 0)

  // ---------- packing and unpacking ----------

  /** `normalize_bit(v & (1 << k))` where `weight` is 1 << k. */
  predicate Flag(v: Word, weight: nat)
    requires weight > 0
  {
    v / weight % 2 == 1
  }

  function UnpackPsr(v: Word): Psr {
    Psr(Flag(v, 1), Flag(v, 2), Flag(v, 4), Flag(v, 8), Flag(v, 16),
        Flag(v, 32), Flag(v, 64), Flag(v, 128), Flag(v, 256), Flag(v, 512))
  }

  function PackPsr(p: Psr): Word {
    Weight(p.cc, 1) + Weight(p.cy, 2) + Weight(p.ov, 4) + Weight(p.oe, 8) + Weight(p.rm, 16)
    + Weight(p.ire, 32) + Weight(p.imme, 64) + Weight(p.dmme, 128) + Weight(p.icae, 256) + Weight(p.dcae, 512)
  }

  function UnpackLow(v: Word): TlbLow {
    TlbLow(Flag(v, 1), v / 0x2000)
  }

  function PackLow(l: TlbLow): Word {
    Weight(l.v, 1) + l.vpn % 0x8_0000 * 0x2000
  }

  function UnpackItlbHigh(v: Word): ItlbHigh {
    ItlbHigh(Flag(v, 1), Flag(v, 2), Flag(v, 4), Flag(v, 8), Flag(v, 16), Flag(v, 128), Flag(v, 256), v / 0x2000)
  }

  function PackItlbHigh(h: ItlbHigh): Word {
    Weight(h.p, 1) + Weight(h.d, 2) + Weight(h.a, 4) + Weight(h.ux, 8) + Weight(h.rx, 16)
    + Weight(h.nc, 128) + Weight(h.s, 256) + h.ppn % 0x8_0000 * 0x2000
  }

  function UnpackDtlbHigh(v: Word): DtlbHigh {
    DtlbHigh(Flag(v, 1), Flag(v, 2), Flag(v, 4), Flag(v, 8), Flag(v, 16), Flag(v, 32), Flag(v, 64),
             Flag(v, 128), Flag(v, 256), v / 0x2000)
  }

  function PackDtlbHigh(h: DtlbHigh): Word {
    Weight(h.p, 1) + Weight(h.d, 2) + Weight(h.a, 4) + Weight(h.uw, 8) + Weight(h.ur, 16)
    + Weight(h.rw, 32) + Weight(h.rr, 64) + Weight(h.nc, 128) + Weight(h.s, 256) + h.ppn % 0x8_0000 * 0x2000
  }

  function UnpackTcr(v: Word): Tcr {
    Tcr(v % 0x1000_0000, Flag(v, 0x1000_0000), Flag(v, 0x2000_0000), Flag(v, 0x4000_0000))
  }

  function PackTcr(t: Tcr): Word {
    t.cnt % 0x1000_0000 + Weight(t.en, 0x1000_0000) + Weight(t.i, 0x2000_0000) + Weight(t.p, 0x4000_0000)
  }

  // ---------- wmsr and rmsr ----------

  predicate InBank(index: Half, base: Half) {
    base <= index < base + 128
  }

  /** `tsc_update_tcr`: the timer line follows P and I. */
  function TscUpdateTcr(m: MsrFile): MsrFile {
    m.(irr := SetLine(m.irr, IRQ_TSC, m.tcr.p && m.tcr.i))
  }

  predicate IsDebugPort(index: Half) {
    index == MSR_DBGR_NUMPORT || index == MSR_DBGR_MSGPORT
  }

  function Wmsr(m: MsrFile, index: Half, v: Word): Res<MsrFile> {
    if IsDebugPort(index) || !m.psr.rm then Ok(m)
    else if index == MSR_PSR then Ok(m.(psr := UnpackPsr(v)))
    else if index == MSR_EPSR then Ok(m.(epsr := UnpackPsr(v)))
    else if index == MSR_EPC then Ok(m.(epc := v))
    else if index == MSR_ELSA then Ok(m.(elsa := v))
    else if index in {MSR_ICINV, MSR_ICFLS, MSR_DCINV, MSR_DCFLS} then Ok(m)
    else if index == MSR_TSR then Ok(m.(tsr := v))
    else if index == MSR_TCR then Ok(TscUpdateTcr(m.(tcr := UnpackTcr(v))))
    else if index == MSR_IMR then Ok(m.(imr := v))
    else if InBank(index, MSR_ITLBL) then Ok(m.(itlbl := m.itlbl[index - MSR_ITLBL := UnpackLow(v)]))
    else if InBank(index, MSR_ITLBH) then Ok(m.(itlbh := m.itlbh[index - MSR_ITLBH := UnpackItlbHigh(v)]))
    else if InBank(index, MSR_DTLBL) then Ok(m.(dtlbl := m.dtlbl[index - MSR_DTLBL := UnpackLow(v)]))
    else if InBank(index, MSR_DTLBH) then Ok(m.(dtlbh := m.dtlbh[index - MSR_DTLBH := UnpackDtlbHigh(v)]))
    else Panic
  }

  /** VER 1, FIMM, FDMM, FDBG, FIRQC and FTSC. */
  const CPUID_VALUE: Word := 1 + 0x4_0000 + 0x8_0000 + 0x40_0000 + 0x100_0000 + 0x200_0000

  function Rmsr(m: MsrFile, index: Half): Res<Word> {
    if !m.psr.rm then Ok(0)
    else if index == MSR_PSR then Ok(PackPsr(m.psr))
    else if index == MSR_CPUID then Ok(CPUID_VALUE)
    else if index == MSR_EPSR then Ok(PackPsr(m.epsr))
    else if index == MSR_EPC then Ok(m.epc)
    else if index == MSR_ELSA then Ok(m.elsa)
    else if index == MSR_COREID then Ok(0)
    else if index == MSR_IMMID || index == MSR_DMMID then Ok(7)
    else if index == MSR_TSR then Ok(m.tsr)
    else if index == MSR_TCR then Ok(PackTcr(m.tcr))
    else if index == MSR_IMR then Ok(m.imr)
    else if index == MSR_IRR then Ok(m.irr)
    else if InBank(index, MSR_ITLBL) then Ok(PackLow(m.itlbl[index - MSR_ITLBL]))
    else if InBank(index, MSR_ITLBH) then Ok(PackItlbHigh(m.itlbh[index - MSR_ITLBH]))
    // The source computes the packed value of a DTLBL entry, then breaks out of its switch and returns 0.
    else if InBank(index, MSR_DTLBL) then Ok(0)
    else if InBank(index, MSR_DTLBH) then Ok(PackDtlbHigh(m.dtlbh[index - MSR_DTLBH]))
    else Panic
  }

  // ---------- the file as a masked array ----------

  /** Indices that both `wmsr` stores to and `rmsr` accepts. */
  predicate ReadWrite(i: Half) {
    || i in {MSR_PSR, MSR_EPSR, MSR_EPC, MSR_ELSA, MSR_TSR, MSR_TCR, MSR_IMR}
    || InBank(i, MSR_ITLBL) || InBank(i, MSR_ITLBH) || InBank(i, MSR_DTLBL) || InBank(i, MSR_DTLBH)
  }

  /** The bits an index implements, as the register layout defines them. */
  function Implemented(i: Half): Word {
    if i == MSR_PSR || i == MSR_EPSR then 0x3ff
    else if i == MSR_TCR then 0x7fff_ffff
    else if InBank(i, MSR_ITLBL) || InBank(i, MSR_DTLBL) then 0xffff_e001
    else if InBank(i, MSR_ITLBH) then 0xffff_e19f
    else if InBank(i, MSR_DTLBH) then 0xffff_e1ff
    else 0xffff_ffff
  }

  lemma LowMask(v: Word, k: nat, d: nat)
    requires 0 < k <= 32 && d == Pow2(k) && IsWeight(k, d) && d <= 0x1_0000_0000
    ensures Combine(AndGate, v, d - 1, 32) == v % d
  {
    AndFieldMask(v, 0, k, 32);
    assert Shl(d - 1, 0) == d - 1;
    Rebuild(v, k);
    LowBound(v, k);
    RemainderIs(v, d, Low(v, k));
  }

  lemma LowMask10(v: Word)
    ensures Combine(AndGate, v, 0x3ff, 32) == v % 0x400
  {
    HighWeights();
    hide *;
    LowMask(v, 10, 0x400);
  }

  lemma LowMask31(v: Word)
    ensures Combine(AndGate, v, 0x7fff_ffff, 32) == v % 0x8000_0000
  {
    HighWeights();
    hide *;
    LowMask(v, 31, 0x8000_0000);
  }

  lemma LowMask32(v: Word)
    ensures Combine(AndGate, v, 0xffff_ffff, 32) == v
  {
    HighWeights();
    hide *;
    LowMask(v, 32, 0x1_0000_0000);
  }

  lemma HighWeights()
    ensures IsWeight(9, 0x200) && Pow2(9) == 0x200
    ensures IsWeight(10, 0x400) && Pow2(10) == 0x400
    ensures IsWeight(13, 0x2000) && Pow2(13) == 0x2000
    ensures IsWeight(31, 0x8000_0000) && Pow2(31) == 0x8000_0000
    ensures IsWeight(32, 0x1_0000_0000) && Pow2(32) == 0x1_0000_0000
  {
    HighPowers();
    OneWeight();
    hide Pow2;
    FieldWeights();
    WeightSum(8, 0x100, 1, 2, 0x200);
    WeightSum(9, 0x200, 1, 2, 0x400);
    WeightSum(12, 0x1000, 1, 2, 0x2000);
    WeightSum(24, 0x100_0000, 6, 64, 0x4000_0000);
    WeightSum(30, 0x4000_0000, 1, 2, 0x8000_0000);
    WeightSum(31, 0x8000_0000, 1, 2, 0x1_0000_0000);
  }

  lemma OneWeight()
    ensures IsWeight(1, 2)
  {
    forall x: nat
      ensures Shr(x, 1) == x / 2 && Shl(x, 1) == 2 * x
    {
      assert Shr(x, 1) == Shr(x / 2, 0) && Shl(x, 1) == 2 * Shl(x, 0);
    }
  }

  lemma HighPowers()
    ensures Pow2(9) == 0x200 && Pow2(10) == 0x400 && Pow2(13) == 0x2000
    ensures Pow2(31) == 0x8000_0000 && Pow2(32) == 0x1_0000_0000
  {
    Pow2Of32();
    assert Pow2(32) == 2 * Pow2(31);
  }

  lemma At13(x: nat)
    ensures Shr(x, 13) == x / 0x2000 && Shl(x, 13) == 0x2000 * x && Low(x, 13) == x % 0x2000
  {
    HighWeights();
    Rebuild(x, 13);
    LowBound(x, 13);
    assert Shr(x, 13) == x / 0x2000;
    assert Shl(Shr(x, 13), 13) == 0x2000 * Shr(x, 13);
    RemainderIs(x, 0x2000, Low(x, 13));
  }

  /** A mask that keeps bits 13 to 31 and selects among the bits below. */
  lemma TlbMask(v: Word, low: nat)
    requires low < 0x2000
    ensures Combine(AndGate, v, 0xffff_e000 + low, 32)
         == v / 0x2000 * 0x2000 + Combine(AndGate, v, low, 13)
  {
    var m := 0xffff_e000 + low;
    CombineSplit(AndGate, v, m, 13, 32);
    At13(v);
    At13(m);
    Pow2Of32();
    hide *;
    assert m / 0x2000 == 0x7_ffff && m % 0x2000 == low;
    AndOnes(v / 0x2000, 19);
    At13(v / 0x2000);
    CombineLow(AndGate, v, low, 13);
  }

  /** A mask of ones keeps everything. */
  lemma {:induction false} AndOnes(a: nat, n: nat)
    requires a < Pow2(n)
    ensures Combine(AndGate, a, Pow2(n) - 1, n) == a
  {
    if n == 0 {
    } else {
      AndOnes(a / 2, n - 1);
      assert (Pow2(n) - 1) / 2 == Pow2(n - 1) - 1;
    }
  }

  /** One more bit of a constant low mask. */
  lemma MaskStep(x: nat, m: nat, n: nat)
    requires n > 0
    ensures Combine(AndGate, x, m, n)
         == 2 * Combine(AndGate, x / 2, m / 2, n - 1) + x % 2 * (m % 2)
  {
  }

  lemma MaskBit0(x: nat)
    ensures Combine(AndGate, x, 0x1, 13) == x % 2
  {
    hide Combine;
    MaskStep(x, 0x1, 13);
    AndZeros(x / 2, 12);
  }

  lemma MaskItlbHigh(x: nat)
    ensures Combine(AndGate, x, 0x19f, 13)
         == x % 2 + 2 * (x / 2 % 2) + 4 * (x / 4 % 2) + 8 * (x / 8 % 2) + 16 * (x / 16 % 2)
          + 128 * (x / 128 % 2) + 256 * (x / 256 % 2)
  {
    hide *;
    var x1 := x / 2;
    var x2 := x1 / 2;
    var x3 := x2 / 2;
    var x4 := x3 / 2;
    var x5 := x4 / 2;
    var x6 := x5 / 2;
    var x7 := x6 / 2;
    var x8 := x7 / 2;
    MaskStep(x, 0x19f, 13);
    MaskStep(x1, 0xcf, 12);
    MaskStep(x2, 0x67, 11);
    MaskStep(x3, 0x33, 10);
    MaskStep(x4, 0x19, 9);
    MaskStep(x5, 0xc, 8);
    MaskStep(x6, 0x6, 7);
    MaskStep(x7, 0x3, 6);
    MaskStep(x8, 0x1, 5);
    AndZeros(x8 / 2, 4);
    assert x2 == x / 4 && x3 == x / 8 && x4 == x / 16 && x7 == x / 128 && x8 == x / 256;
  }

  lemma MaskDtlbHigh(x: nat)
    ensures Combine(AndGate, x, 0x1ff, 13) == x % 512
  {
    assert Pow2(9) == 512;
    AndFieldMask(x, 0, 9, 13);
    assert Shl(511, 0) == 511;
    HighWeights();
    Rebuild(x, 9);
    LowBound(x, 9);
    RemainderIs(x, 512, Low(x, 9));
  }

  lemma NineBits(v: nat)
    ensures v % 512 == v % 2 + 2 * (v / 2 % 2) + 4 * (v / 4 % 2) + 8 * (v / 8 % 2) + 16 * (v / 16 % 2)
                       + 32 * (v / 32 % 2) + 64 * (v / 64 % 2) + 128 * (v / 128 % 2) + 256 * (v / 256 % 2)
    ensures v % 1024 == v % 512 + 512 * (v / 512 % 2)
  {
    NextBit(v, 2);
    NextBit(v, 4);
    NextBit(v, 8);
    NextBit(v, 16);
    NextBit(v, 32);
    NextBit(v, 64);
    NextBit(v, 128);
    NextBit(v, 256);
    NextBit(v, 512);
  }

  lemma FlagWeight(v: Word, w: nat)
    requires w > 0
    ensures Weight(Flag(v, w), w) == w * (v / w % 2)
  {
  }

  lemma FlagWeights(v: Word)
    ensures Weight(Flag(v, 1), 1) == v % 2 && Weight(Flag(v, 2), 2) == 2 * (v / 2 % 2)
    ensures Weight(Flag(v, 4), 4) == 4 * (v / 4 % 2) && Weight(Flag(v, 8), 8) == 8 * (v / 8 % 2)
    ensures Weight(Flag(v, 16), 16) == 16 * (v / 16 % 2) && Weight(Flag(v, 32), 32) == 32 * (v / 32 % 2)
    ensures Weight(Flag(v, 64), 64) == 64 * (v / 64 % 2) && Weight(Flag(v, 128), 128) == 128 * (v / 128 % 2)
    ensures Weight(Flag(v, 256), 256) == 256 * (v / 256 % 2) && Weight(Flag(v, 512), 512) == 512 * (v / 512 % 2)
  {
    FlagWeight(v, 1);
    FlagWeight(v, 2);
    FlagWeight(v, 4);
    FlagWeight(v, 8);
    FlagWeight(v, 16);
    FlagWeight(v, 32);
    FlagWeight(v, 64);
    FlagWeight(v, 128);
    FlagWeight(v, 256);
    FlagWeight(v, 512);
    hide Flag, Weight;
  }

  lemma PsrRoundTrip(v: Word)
    ensures PackPsr(UnpackPsr(v)) == And(v, 0x3ff)
  {
    FlagWeights(v);
    hide Combine, Pow2, IsWeight, Flag, Weight;
    LowMask10(v);
    NineBits(v);
  }

  lemma TcrRoundTrip(v: Word)
    ensures PackTcr(UnpackTcr(v)) == And(v, 0x7fff_ffff)
  {
    hide Combine, Pow2, IsWeight;
    LowMask31(v);
    NextBit(v, 0x1000_0000);
    NextBit(v, 0x2000_0000);
    NextBit(v, 0x4000_0000);
  }

  lemma LowRoundTrip(v: Word)
    ensures PackLow(UnpackLow(v)) == And(v, 0xffff_e001)
  {
    hide Combine, Pow2, IsWeight;
    TlbMask(v, 1);
    MaskBit0(v);
  }

  lemma ItlbHighRoundTrip(v: Word)
    ensures PackItlbHigh(UnpackItlbHigh(v)) == And(v, 0xffff_e19f)
  {
    FlagWeights(v);
    hide Combine, Pow2, IsWeight, Flag, Weight;
    TlbMask(v, 0x19f);
    MaskItlbHigh(v);
  }

  lemma DtlbHighRoundTrip(v: Word)
    ensures PackDtlbHigh(UnpackDtlbHigh(v)) == And(v, 0xffff_e1ff)
  {
    hide Combine, Pow2, IsWeight, Flag, Weight;
    FlagWeights(v);
    TlbMask(v, 0x1ff);
    MaskDtlbHigh(v);
    NineBits(v);
    var h := UnpackDtlbHigh(v);
    assert h.ppn % 0x8_0000 == v / 0x2000;
  }

  lemma WordRoundTrip(v: Word)
    ensures And(v, 0xffff_ffff) == v
  {
    hide Combine, Pow2, IsWeight;
    LowMask32(v);
  }

  predicate InTlbBanks(i: Half) {
    InBank(i, MSR_ITLBL) || InBank(i, MSR_ITLBH) || InBank(i, MSR_DTLBL) || InBank(i, MSR_DTLBH)
  }

  lemma TlbWriteThenRead(m: MsrFile, i: Half, v: Word, m': MsrFile)
    requires m.psr.rm && InTlbBanks(i) && Wmsr(m, i, v) == Ok(m')
    ensures Rmsr(m', i) == Ok(if InBank(i, MSR_DTLBL) then 0 else And(v, Implemented(i)))
  {
    hide PackPsr, UnpackPsr, PackTcr, UnpackTcr, PackLow, UnpackLow, PackItlbHigh, UnpackItlbHigh,
         PackDtlbHigh, UnpackDtlbHigh, And, TscUpdateTcr;
    LowRoundTrip(v);
    ItlbHighRoundTrip(v);
    DtlbHighRoundTrip(v);
  }

  lemma PsrWriteThenRead(m: MsrFile, i: Half, v: Word, m': MsrFile)
    requires m.psr.rm && (i == MSR_PSR || i == MSR_EPSR) && Wmsr(m, i, v) == Ok(m')
    ensures Rmsr(m', i) == Ok(if i == MSR_PSR && !Flag(v, 16) then 0 else And(v, Implemented(i)))
  {
    assert UnpackPsr(v).rm == Flag(v, 16);
    PsrRoundTrip(v);
    hide PackPsr, UnpackPsr, And, Flag;
  }

  lemma ScalarWriteThenRead(m: MsrFile, i: Half, v: Word, m': MsrFile)
    requires m.psr.rm && i in {MSR_EPC, MSR_ELSA, MSR_TSR, MSR_TCR, MSR_IMR} && Wmsr(m, i, v) == Ok(m')
    ensures Rmsr(m', i) == Ok(And(v, Implemented(i)))
  {
    TcrRoundTrip(v);
    WordRoundTrip(v);
    hide PackPsr, PackTcr, UnpackTcr, And, SetLine;
  }

  /** Writing an index and reading it back gives the written bits the index
      implements, except that the DTLBL bank reads as zero and that clearing
      PSR.RM turns every later read into zero. */
  lemma WriteThenRead(m: MsrFile, i: Half, v: Word)
    requires m.psr.rm && ReadWrite(i)
    ensures var w := Wmsr(m, i, v);
            && w.Ok?
            && (if (i == MSR_PSR && !Flag(v, 16)) || InBank(i, MSR_DTLBL) then Rmsr(w.value, i) == Ok(0)
                else Rmsr(w.value, i) == Ok(And(v, Implemented(i))))
  {
    hide Wmsr, Rmsr, And, Flag, Implemented;
    AccessPanics(m, i, v);
    var m' := Wmsr(m, i, v).value;
    if InTlbBanks(i) {
      TlbWriteThenRead(m, i, v, m');
    } else if i == MSR_PSR || i == MSR_EPSR {
      PsrWriteThenRead(m, i, v, m');
    } else {
      ScalarWriteThenRead(m, i, v, m');
    }
  }

  /** The DTLBL bank is the exception: its round trip holds exactly for the
      values whose implemented bits are all zero. */
  lemma DtlblRoundTripExactly(m: MsrFile, i: Half, v: Word)
    requires m.psr.rm && InBank(i, MSR_DTLBL)
    ensures Wmsr(m, i, v).Ok?
    ensures Rmsr(Wmsr(m, i, v).value, i) == Ok(And(v, Implemented(i))) <==> !Flag(v, 1) && v / 0x2000 == 0
  {
    LowRoundTrip(v);
    hide And;
  }

  /** A write changes what no other index reads, except that TCR writes drive
      the timer line of IRR and that clearing PSR.RM hides the whole file. */
  lemma WriteFrame(m: MsrFile, i: Half, v: Word, j: Half)
    requires m.psr.rm && Wmsr(m, i, v).Ok? && j != i
    ensures var m' := Wmsr(m, i, v).value;
            if !m'.psr.rm then i == MSR_PSR && Rmsr(m', j) == Ok(0)
            else if i == MSR_TCR && j == MSR_IRR then
              && Rmsr(m', j).Ok?
              && forall k: nat | k < 32 ::
                   Bit(Rmsr(m', j).value, k)
                   == if k == IRQ_TSC then Flag(v, 0x4000_0000) && Flag(v, 0x2000_0000) else Bit(m.irr, k)
            else Rmsr(m', j) == Rmsr(m, j)
  {
    hide PackPsr, UnpackPsr, PackTcr, PackLow, UnpackLow, PackItlbHigh, UnpackItlbHigh,
         PackDtlbHigh, UnpackDtlbHigh, SetLine, Flag, Bit;
    if InTlbBanks(i) {
      hide Rmsr, Wmsr;
      TlbWriteFrame(m, i, v, j);
    } else if i == MSR_TCR {
      TcrWriteMovesLine(m, v);
    } else {
      hide TscUpdateTcr, UnpackTcr;
    }
  }

  lemma TlbWriteFrame(m: MsrFile, i: Half, v: Word, j: Half)
    requires m.psr.rm && InTlbBanks(i) && j != i
    ensures Wmsr(m, i, v).Ok?
    ensures var m' := Wmsr(m, i, v).value; m'.psr == m.psr && Rmsr(m', j) == Rmsr(m, j)
  {
    hide PackPsr, UnpackPsr, PackTcr, UnpackTcr, PackLow, UnpackLow, PackItlbHigh, UnpackItlbHigh,
         PackDtlbHigh, UnpackDtlbHigh, TscUpdateTcr;
  }

  lemma TcrWriteMovesLine(m: MsrFile, v: Word)
    ensures forall k: nat | k < 32 ::
              Bit(TscUpdateTcr(m.(tcr := UnpackTcr(v))).irr, k)
              == if k == IRQ_TSC then Flag(v, 0x4000_0000) && Flag(v, 0x2000_0000) else Bit(m.irr, k)
  {
    var raised := Flag(v, 0x4000_0000) && Flag(v, 0x2000_0000);
    forall k: nat | k < 32
      ensures Bit(SetLine(m.irr, IRQ_TSC, raised), k) == if k == IRQ_TSC then raised else Bit(m.irr, k)
    {
      SetLineBit(m.irr, IRQ_TSC, raised, k);
    }
    hide SetLine, Flag, Bit;
  }

  /** Which accesses end the process: root-mode accesses to indices outside
      the readable or the writable set, and nothing else. */
  lemma AccessPanics(m: MsrFile, i: Half, v: Word)
    ensures Wmsr(m, i, v) != Undefined && Rmsr(m, i) != Undefined
    ensures Wmsr(m, i, v).Panic? <==>
            m.psr.rm && !ReadWrite(i) && !IsDebugPort(i)
            && i !in {MSR_ICINV, MSR_ICFLS, MSR_DCINV, MSR_DCFLS}
    ensures Rmsr(m, i).Panic? <==>
            m.psr.rm && !ReadWrite(i) && i !in {MSR_CPUID, MSR_COREID, MSR_IMMID, MSR_DMMID, MSR_IRR}
  {
  }
}
