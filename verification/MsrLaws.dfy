/** The register layout of ncpu32k-msr.h bit by bit: what a write to each index
    stores and what a read of it shows (msr.c:50-343). */
module MsrLaws {
  import opened Words
  import opened Msr
  import AluLaws

  // ---------- the layout ----------

  /** `v` is the word of a status register holding `p`. */
  predicate PsrIs(p: Psr, v: Word) {
    && p.cc == Bit(v, 0) && p.cy == Bit(v, 1) && p.ov == Bit(v, 2) && p.oe == Bit(v, 3) && p.rm == Bit(v, 4)
    && p.ire == Bit(v, 5) && p.imme == Bit(v, 6) && p.dmme == Bit(v, 7) && p.icae == Bit(v, 8) && p.dcae == Bit(v, 9)
  }

  /** The timer's compare value is the low 28 bits. */
  predicate TcrIs(t: Tcr, v: Word) {
    t.cnt == v % 0x1000_0000 && t.en == Bit(v, 28) && t.i == Bit(v, 29) && t.p == Bit(v, 30)
  }

  predicate LowIs(l: TlbLow, v: Word) {
    l.v == Bit(v, 0) && l.vpn == v / 0x2000
  }

  predicate ItlbHighIs(h: ItlbHigh, v: Word) {
    && h.p == Bit(v, 0) && h.d == Bit(v, 1) && h.a == Bit(v, 2) && h.ux == Bit(v, 3) && h.rx == Bit(v, 4)
    && h.nc == Bit(v, 7) && h.s == Bit(v, 8) && h.ppn == v / 0x2000
  }

  predicate DtlbHighIs(h: DtlbHigh, v: Word) {
    && h.p == Bit(v, 0) && h.d == Bit(v, 1) && h.a == Bit(v, 2) && h.uw == Bit(v, 3) && h.ur == Bit(v, 4)
    && h.rw == Bit(v, 5) && h.rr == Bit(v, 6) && h.nc == Bit(v, 7) && h.s == Bit(v, 8) && h.ppn == v / 0x2000
  }

  // ---------- unpacking ----------

  lemma {:induction false} FlagIsBit(v: nat, k: nat)
    ensures v / Pow2(k) % 2 == 1 <==> Bit(v, k)
    decreases k
  {
    if k > 0 {
      FlagIsBit(v / 2, k - 1);
      AluLaws.HalfFirst(v, Pow2(k - 1));
    }
  }

  lemma FlagBits(v: Word)
    ensures Flag(v, 1) == Bit(v, 0) && Flag(v, 2) == Bit(v, 1) && Flag(v, 4) == Bit(v, 2)
    ensures Flag(v, 8) == Bit(v, 3) && Flag(v, 16) == Bit(v, 4) && Flag(v, 32) == Bit(v, 5)
    ensures Flag(v, 64) == Bit(v, 6) && Flag(v, 128) == Bit(v, 7) && Flag(v, 256) == Bit(v, 8)
    ensures Flag(v, 512) == Bit(v, 9)
    ensures Flag(v, 0x1000_0000) == Bit(v, 28) && Flag(v, 0x2000_0000) == Bit(v, 29)
    ensures Flag(v, 0x4000_0000) == Bit(v, 30)
  {
    BitWeights();
    hide Pow2, Bit;
    FlagIsBit(v, 0);
    FlagIsBit(v, 1);
    FlagIsBit(v, 2);
    FlagIsBit(v, 3);
    FlagIsBit(v, 4);
    FlagIsBit(v, 5);
    FlagIsBit(v, 6);
    FlagIsBit(v, 7);
    FlagIsBit(v, 8);
    FlagIsBit(v, 9);
    FlagIsBit(v, 28);
    FlagIsBit(v, 29);
    FlagIsBit(v, 30);
  }

  lemma Unpacked(v: Word)
    ensures PsrIs(UnpackPsr(v), v) && TcrIs(UnpackTcr(v), v) && LowIs(UnpackLow(v), v)
    ensures ItlbHighIs(UnpackItlbHigh(v), v) && DtlbHighIs(UnpackDtlbHigh(v), v)
  {
    FlagBits(v);
    hide Flag, Bit;
  }

  // ---------- packing ----------

  /** The number whose low bits are `bs`, below `hi`. */
  function Stack(bs: seq<bool>, hi: nat): nat {
    if bs == [] then hi else Weight(bs[0], 1) + 2 * Stack(bs[1..], hi)
  }

  predicate HasBits(v: nat, bs: seq<bool>) {
    forall k: nat | k < |bs| :: Bit(v, k) == bs[k]
  }

  lemma OneBit(v: nat, bs: seq<bool>, k: nat)
    requires k < |bs| && HasBits(v, bs)
    ensures Bit(v, k) == bs[k]
  {
    hide Bit;
  }

  lemma {:induction false} StackBits(bs: seq<bool>, hi: nat)
    ensures HasBits(Stack(bs, hi), bs)
    ensures Stack(bs, hi) / Pow2(|bs|) == hi
  {
    if bs == [] {
    } else {
      var x, y := Stack(bs, hi), Stack(bs[1..], hi);
      StackBits(bs[1..], hi);
      assert x / 2 == y && (x % 2 == 1 <==> bs[0]);
      AluLaws.HalfFirst(x, Pow2(|bs| - 1));
      forall k: nat | k < |bs|
        ensures Bit(x, k) == bs[k]
      {
        if k > 0 {
          assert Bit(y, k - 1) == bs[1..][k - 1];
        }
      }
    }
  }

  /** Some word holds any ten flags, or any thirteen below a page number. */
  lemma FlagsWord(bs: seq<bool>) returns (v: Word)
    requires |bs| == 10
    ensures HasBits(v, bs) && v < 0x400
  {
    hide Stack, HasBits;
    StackBits(bs, 0);
    HighPowers();
    assert Stack(bs, 0) / 0x400 == 0;
    v := Stack(bs, 0);
  }

  lemma PageWord(bs: seq<bool>, page: Word) returns (v: Word)
    requires |bs| == 13 && page < 0x8_0000
    ensures HasBits(v, bs) && v / 0x2000 == page
  {
    hide Stack, HasBits;
    StackBits(bs, page);
    HighPowers();
    assert Stack(bs, page) / 0x2000 == page;
    v := Stack(bs, page);
  }

  lemma PsrWord(p: Psr) returns (v: Word)
    ensures PsrIs(p, v) && v < 0x400
  {
    hide Bit, HasBits;
    var bs := [p.cc, p.cy, p.ov, p.oe, p.rm, p.ire, p.imme, p.dmme, p.icae, p.dcae];
    v := FlagsWord(bs);
    OneBit(v, bs, 0);
    OneBit(v, bs, 1);
    OneBit(v, bs, 2);
    OneBit(v, bs, 3);
    OneBit(v, bs, 4);
    OneBit(v, bs, 5);
    OneBit(v, bs, 6);
    OneBit(v, bs, 7);
    OneBit(v, bs, 8);
    OneBit(v, bs, 9);
  }

  lemma ItlbHighWord(h: ItlbHigh) returns (v: Word)
    requires h.ppn < 0x8_0000
    ensures ItlbHighIs(h, v)
  {
    hide Bit, HasBits;
    var bs := [h.p, h.d, h.a, h.ux, h.rx, false, false, h.nc, h.s, false, false, false, false];
    v := PageWord(bs, h.ppn);
    OneBit(v, bs, 0);
    OneBit(v, bs, 1);
    OneBit(v, bs, 2);
    OneBit(v, bs, 3);
    OneBit(v, bs, 4);
    OneBit(v, bs, 7);
    OneBit(v, bs, 8);
  }

  lemma DtlbHighWord(h: DtlbHigh) returns (v: Word)
    requires h.ppn < 0x8_0000
    ensures DtlbHighIs(h, v)
  {
    hide Bit, HasBits;
    var bs := [h.p, h.d, h.a, h.uw, h.ur, h.rw, h.rr, h.nc, h.s, false, false, false, false];
    v := PageWord(bs, h.ppn);
    OneBit(v, bs, 0);
    OneBit(v, bs, 1);
    OneBit(v, bs, 2);
    OneBit(v, bs, 3);
    OneBit(v, bs, 4);
    OneBit(v, bs, 5);
    OneBit(v, bs, 6);
    OneBit(v, bs, 7);
    OneBit(v, bs, 8);
  }

  lemma SamePsr(p: Psr, q: Psr, v: Word)
    requires PsrIs(p, v) && PsrIs(q, v)
    ensures p == q
  {
    hide Bit;
  }

  lemma SameItlbHigh(g: ItlbHigh, h: ItlbHigh, v: Word)
    requires ItlbHighIs(g, v) && ItlbHighIs(h, v)
    ensures g == h
  {
    hide Bit;
  }

  lemma SameDtlbHigh(g: DtlbHigh, h: DtlbHigh, v: Word)
    requires DtlbHighIs(g, v) && DtlbHighIs(h, v)
    ensures g == h
  {
    hide Bit;
  }

  /** Unpacking a word that holds the fields gives the fields, so packing them
      gives the word, but for bits the register does not have. */
  lemma PackedPsr(p: Psr)
    ensures PsrIs(p, PackPsr(p)) && PackPsr(p) < 0x400
  {
    hide PsrIs, PackPsr, UnpackPsr, And;
    var v := PsrWord(p);
    Unpacked(v);
    SamePsr(p, UnpackPsr(v), v);
    PsrRoundTrip(v);
    LowTen(v);
  }

  lemma LowTen(v: Word)
    requires v < 0x400
    ensures And(v, 0x3ff) == v
  {
    hide Combine, Pow2;
    LowMask10(v);
  }

  lemma PackedItlbHigh(h: ItlbHigh)
    requires h.ppn < 0x8_0000
    ensures ItlbHighIs(h, PackItlbHigh(h))
  {
    hide Bit, PackItlbHigh, UnpackItlbHigh, And;
    var v := ItlbHighWord(h);
    Unpacked(v);
    SameItlbHigh(h, UnpackItlbHigh(v), v);
    ItlbHighRoundTrip(v);
    TlbMaskBits(v, 0x19f);
    ItlbMaskBits();
  }

  lemma PackedDtlbHigh(h: DtlbHigh)
    requires h.ppn < 0x8_0000
    ensures DtlbHighIs(h, PackDtlbHigh(h))
  {
    hide Bit, PackDtlbHigh, UnpackDtlbHigh, And;
    var v := DtlbHighWord(h);
    Unpacked(v);
    SameDtlbHigh(h, UnpackDtlbHigh(v), v);
    DtlbHighRoundTrip(v);
    TlbMaskBits(v, 0x1ff);
    DtlbMaskBits();
  }

  /** A mask that keeps the page number keeps the flags it has ones for. */
  lemma TlbMaskBits(v: Word, low: nat)
    requires low < 0x2000
    ensures And(v, 0xffff_e000 + low) / 0x2000 == v / 0x2000
    ensures forall k: nat | k < 13 :: Bit(And(v, 0xffff_e000 + low), k) == (Bit(v, k) && Bit(low, k))
  {
    TlbMask(v, low);
    HighPowers();
    var f := Combine(AndGate, v, low, 13);
    hide Bit, Pow2, Combine;
    var x := And(v, 0xffff_e000 + low);
    DivModUnique(x, 0x2000, v / 0x2000, f);
    forall k: nat | k < 13
      ensures Bit(x, k) == (Bit(v, k) && Bit(low, k))
    {
      CombineBit(AndGate, v, low, 13, k);
      RemainderBit(x, 13, k);
    }
  }

  lemma RemainderBit(x: nat, n: nat, k: nat)
    requires k < n
    ensures Bit(x % Pow2(n), k) == Bit(x, k)
  {
    AluLaws.LowIsRemainder(x, n);
    hide Bit, Pow2, Low;
    AluLaws.LowBit(x, n, k);
  }

  lemma ItlbMaskBits()
    ensures Bit(0x19f, 0) && Bit(0x19f, 1) && Bit(0x19f, 2) && Bit(0x19f, 3) && Bit(0x19f, 4) && Bit(0x19f, 7)
    ensures Bit(0x19f, 8)
  {
    assert Bit(0xc, 2) && Bit(0xc, 3);
    assert Bit(0x19f, 4) && Bit(0x19f, 5 + 2) == Bit(0xc, 2) && Bit(0x19f, 5 + 3) == Bit(0xc, 3);
  }

  lemma DtlbMaskBits()
    ensures forall k: nat | k < 9 :: Bit(0x1ff, k)
  {
    assert Bit(0xf, 0) && Bit(0xf, 1) && Bit(0xf, 2) && Bit(0xf, 3);
    assert Bit(0x1ff, 0) && Bit(0x1ff, 1) && Bit(0x1ff, 2) && Bit(0x1ff, 3) && Bit(0x1ff, 4);
    assert Bit(0x1ff, 5) == Bit(0xf, 0) && Bit(0x1ff, 6) == Bit(0xf, 1) && Bit(0x1ff, 7) == Bit(0xf, 2);
    assert Bit(0x1ff, 8) == Bit(0xf, 3);
  }

  /** The lowest flag of a number above the part below `w`. */
  lemma Peel(v: Word, w: nat, hi: nat, b: bool, low: nat)
    requires w > 0 && low < w && v == (Weight(b, 1) + 2 * hi) * w + low
    ensures Flag(v, w) == b
    ensures low + w * Weight(b, 1) < 2 * w && v == hi * (2 * w) + (low + w * Weight(b, 1))
  {
    var q := Weight(b, 1) + 2 * hi;
    DivModUnique(v, w, q, low);
    assert q % 2 == Weight(b, 1);
    assert q * w == hi * (2 * w) + w * Weight(b, 1);
  }

  lemma WeightScale(b: bool, w: nat)
    ensures Weight(b, w) == w * Weight(b, 1)
  {
  }

  lemma TcrBack(t: Tcr)
    requires t.cnt < 0x1000_0000
    ensures UnpackTcr(PackTcr(t)) == t && PackTcr(t) < 0x8000_0000
  {
    hide Weight, Flag;
    WeightScale(t.en, 0x1000_0000);
    WeightScale(t.i, 0x2000_0000);
    WeightScale(t.p, 0x4000_0000);
    var v, en, i, p := PackTcr(t), Weight(t.en, 1), Weight(t.i, 1), Weight(t.p, 1);
    assert v == (en + 2 * (i + 2 * p)) * 0x1000_0000 + t.cnt;
    hide PackTcr;
    Peel(v, 0x1000_0000, i + 2 * p, t.en, t.cnt);
    Peel(v, 0x2000_0000, p, t.i, t.cnt + 0x1000_0000 * en);
    Peel(v, 0x4000_0000, 0, t.p, t.cnt + 0x1000_0000 * en + 0x2000_0000 * i);
    DivModUnique(v, 0x1000_0000, en + 2 * (i + 2 * p), t.cnt);
  }

  lemma LowBack(l: TlbLow)
    requires l.vpn < 0x8_0000
    ensures UnpackLow(PackLow(l)) == l
  {
    Peel(PackLow(l), 1, l.vpn * 0x1000, l.v, 0);
    DivModUnique(PackLow(l), 0x2000, l.vpn, Weight(l.v, 1));
  }

  lemma PackedTcr(t: Tcr)
    requires t.cnt < 0x1000_0000
    ensures TcrIs(t, PackTcr(t)) && PackTcr(t) < 0x8000_0000
  {
    TcrBack(t);
    Unpacked(PackTcr(t));
    hide PackTcr, UnpackTcr, TcrIs;
  }

  lemma PackedLow(l: TlbLow)
    requires l.vpn < 0x8_0000
    ensures LowIs(l, PackLow(l))
  {
    LowBack(l);
    Unpacked(PackLow(l));
    hide PackLow, UnpackLow, LowIs;
  }

  // ---------- writes and reads ----------

  /** A root-mode write stores the word's fields in the register of its index,
      and moves nothing else but, for TCR, the timer line. */
  lemma WriteLands(m: MsrFile, i: Half, v: Word, m': MsrFile)
    requires m.psr.rm && !InTlbBanks(i) && Wmsr(m, i, v) == Ok(m')
    ensures i == MSR_PSR ==> PsrIs(m'.psr, v) && m' == m.(psr := m'.psr)
    ensures i == MSR_EPSR ==> PsrIs(m'.epsr, v) && m' == m.(epsr := m'.epsr)
    ensures i == MSR_EPC ==> m' == m.(epc := v)
    ensures i == MSR_ELSA ==> m' == m.(elsa := v)
    ensures i == MSR_TSR ==> m' == m.(tsr := v)
    ensures i == MSR_IMR ==> m' == m.(imr := v)
    ensures i == MSR_TCR ==>
              && TcrIs(m'.tcr, v) && m' == m.(tcr := m'.tcr, irr := m'.irr)
              && forall k: nat | k < 32 :: Bit(m'.irr, k) == if k == 0 then Bit(v, 29) && Bit(v, 30) else Bit(m.irr, k)
    ensures !ReadWrite(i) ==> m' == m
  {
    hide UnpackPsr, UnpackTcr, UnpackLow, UnpackItlbHigh, UnpackDtlbHigh, SetLine, PsrIs, TcrIs, Bit;
    Unpacked(v);
    if i == MSR_TCR {
      TcrWriteMovesLine(m, v);
      FlagBits(v);
    }
  }

  /** The same for the four table banks: one slot takes the word's fields. */
  lemma TlbWriteLands(m: MsrFile, i: Half, v: Word, m': MsrFile)
    requires m.psr.rm && Wmsr(m, i, v) == Ok(m')
    ensures InBank(i, MSR_ITLBL) ==>
              var s := i - MSR_ITLBL; LowIs(m'.itlbl[s], v) && m' == m.(itlbl := m.itlbl[s := m'.itlbl[s]])
    ensures InBank(i, MSR_ITLBH) ==>
              var s := i - MSR_ITLBH; ItlbHighIs(m'.itlbh[s], v) && m' == m.(itlbh := m.itlbh[s := m'.itlbh[s]])
    ensures InBank(i, MSR_DTLBL) ==>
              var s := i - MSR_DTLBL; LowIs(m'.dtlbl[s], v) && m' == m.(dtlbl := m.dtlbl[s := m'.dtlbl[s]])
    ensures InBank(i, MSR_DTLBH) ==>
              var s := i - MSR_DTLBH; DtlbHighIs(m'.dtlbh[s], v) && m' == m.(dtlbh := m.dtlbh[s := m'.dtlbh[s]])
  {
    hide UnpackPsr, UnpackTcr, UnpackLow, UnpackItlbHigh, UnpackDtlbHigh, TscUpdateTcr, LowIs, ItlbHighIs, DtlbHighIs;
    Unpacked(v);
  }

  /** A root-mode read shows the fields of the register of its index; the
      read-only registers show the version and features, core 0, and the
      number of table slots as a power of two. */
  lemma ReadShows(m: MsrFile, i: Half, v: Word)
    requires m.psr.rm && !InTlbBanks(i) && Rmsr(m, i) == Ok(v)
    ensures i == MSR_PSR ==> PsrIs(m.psr, v) && v < 0x400
    ensures i == MSR_EPSR ==> PsrIs(m.epsr, v) && v < 0x400
    ensures i == MSR_EPC ==> v == m.epc
    ensures i == MSR_ELSA ==> v == m.elsa
    ensures i == MSR_TSR ==> v == m.tsr
    ensures i == MSR_IMR ==> v == m.imr
    ensures i == MSR_IRR ==> v == m.irr
    ensures i == MSR_TCR ==> TcrIs(m.tcr.(cnt := m.tcr.cnt % 0x1000_0000), v) && v < 0x8000_0000
    ensures i == MSR_CPUID ==>
              v % 0x1_0000 == 1 && forall k: nat | 16 <= k < 32 :: Bit(v, k) == (k in {18, 19, 22, 24, 25})
    ensures i == MSR_COREID ==> v == 0
    ensures i == MSR_IMMID ==> Pow2(v) == |m.itlbl|
    ensures i == MSR_DMMID ==> Pow2(v) == |m.dtlbl|
  {
    hide PackPsr, PackTcr, PackLow, PackItlbHigh, PackDtlbHigh, PsrIs, TcrIs, Bit, Pow2;
    PackedPsr(m.psr);
    PackedPsr(m.epsr);
    PackedTcr(m.tcr.(cnt := m.tcr.cnt % 0x1000_0000));
    CountIsMasked(m.tcr);
    BitWeights();
    CpuidBits();
  }

  lemma CountIsMasked(t: Tcr)
    ensures PackTcr(t.(cnt := t.cnt % 0x1000_0000)) == PackTcr(t)
  {
    hide Weight;
  }

  lemma CpuidBits()
    ensures CPUID_VALUE % 0x1_0000 == 1
    ensures forall k: nat | 16 <= k < 32 :: Bit(CPUID_VALUE, k) == (k in {18, 19, 22, 24, 25})
  {
    BitWeights();
    assert Pow2(16) == 16 * Pow2(12) && Pow2(12) == 8 * Pow2(9);
    AluLaws.ShrIsQuotient(CPUID_VALUE, 16);
    hide Pow2, Shr;
    FeatureBits();
    forall k: nat | 16 <= k < 32
      ensures Bit(CPUID_VALUE, k) == Bit(0x34c, k - 16)
    {
      AluLaws.ShrBit(CPUID_VALUE, 16, k - 16);
    }
  }

  lemma FeatureBits()
    ensures forall k: nat | k < 16 :: Bit(0x34c, k) == (k in {2, 3, 6, 8, 9})
  {
    forall k: nat | k < 16
      ensures Bit(0x34c, k) == (k in {2, 3, 6, 8, 9})
    {
      if k >= 10 {
        assert Pow2(10) == 1024;
        AluLaws.HighBitsClear(0x34c, 10, k);
      } else {
        FlagIsBit(0x34c, k);
        BitWeights();
      }
    }
  }

  /** The same for the banks; a DTLBL read shows nothing. */
  lemma TlbReadShows(m: MsrFile, i: Half, v: Word)
    requires m.psr.rm && Rmsr(m, i) == Ok(v)
    ensures InBank(i, MSR_ITLBL) ==> LowIs(CutLow(m.itlbl[i - MSR_ITLBL]), v)
    ensures InBank(i, MSR_ITLBH) ==>
              var h := m.itlbh[i - MSR_ITLBH]; ItlbHighIs(h.(ppn := h.ppn % 0x8_0000), v)
    ensures InBank(i, MSR_DTLBL) ==> v == 0
    ensures InBank(i, MSR_DTLBH) ==>
              var h := m.dtlbh[i - MSR_DTLBH]; DtlbHighIs(h.(ppn := h.ppn % 0x8_0000), v)
  {
    hide PackPsr, PackTcr, PackLow, PackItlbHigh, PackDtlbHigh, LowIs, ItlbHighIs, DtlbHighIs;
    if InBank(i, MSR_ITLBL) {
      PackedLow(CutLow(m.itlbl[i - MSR_ITLBL]));
      LowIsMasked(m.itlbl[i - MSR_ITLBL]);
    } else if InBank(i, MSR_ITLBH) {
      var h := m.itlbh[i - MSR_ITLBH];
      PackedItlbHigh(h.(ppn := h.ppn % 0x8_0000));
      ItlbHighIsMasked(h);
    } else if InBank(i, MSR_DTLBH) {
      var h := m.dtlbh[i - MSR_DTLBH];
      PackedDtlbHigh(h.(ppn := h.ppn % 0x8_0000));
      DtlbHighIsMasked(h);
    }
  }

  function CutLow(l: TlbLow): TlbLow {
    l.(vpn := l.vpn % 0x8_0000)
  }

  lemma LowIsMasked(l: TlbLow)
    ensures PackLow(CutLow(l)) == PackLow(l)
  {
    hide Weight;
  }

  lemma PageTwice(x: Word)
    ensures x % 0x8_0000 % 0x8_0000 == x % 0x8_0000
  {
  }

  lemma ItlbHighIsMasked(h: ItlbHigh)
    ensures PackItlbHigh(h.(ppn := h.ppn % 0x8_0000)) == PackItlbHigh(h)
  {
    hide Weight;
    PageTwice(h.ppn);
  }

  lemma DtlbHighIsMasked(h: DtlbHigh)
    ensures PackDtlbHigh(h.(ppn := h.ppn % 0x8_0000)) == PackDtlbHigh(h)
  {
    hide Weight;
    PageTwice(h.ppn);
  }
}
