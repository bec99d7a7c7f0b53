/** Address translation (i-mmu.c, d-mmu.c): direct-mapped tables of 128
    software-filled entries, and the fully associative table they refine. */
module Mmu {
  import opened Words
  import opened Msr

  datatype Translation = Hit(pa: Word) | Miss | Denied

  function Vpn(va: Word): Word {
    va / 0x2000
  }

  function Slot(vpn: Word): nat {
    vpn % 128
  }

  /** `(PPN << 13) | (va & 0x1fff)` in 32 bits. */
  function Physical(ppn: Word, va: Word): Word {
    ppn % 0x8_0000 * 0x2000 + va % 0x2000
  }

  predicate SlotHits(lows: LowBank, vpn: Word) {
    lows[Slot(vpn)].v && lows[Slot(vpn)].vpn == vpn
  }

  function Immu(m: MsrFile, va: Word): Translation {
    if !m.psr.imme then Hit(va)
    else
      var high := m.itlbh[Slot(Vpn(va))];
      if !SlotHits(m.itlbl, Vpn(va)) then Miss
      else if !(if m.psr.rm then high.rx else high.ux) then Denied
      else Hit(Physical(high.ppn, va))
  }

  function Dmmu(m: MsrFile, va: Word, store: bool): Translation {
    if !m.psr.dmme then Hit(va)
    else
      var high := m.dtlbh[Slot(Vpn(va))];
      if !SlotHits(m.dtlbl, Vpn(va)) then Miss
      else if !(if m.psr.rm then (if store then high.rw else high.rr)
                else (if store then high.uw else high.ur)) then Denied
      else Hit(Physical(high.ppn, va))
  }

  // ---------- the fully associative table ----------

  /** Some valid entry, in whatever slot, maps `vpn` to `high`. */
  ghost predicate Holds<H>(lows: LowBank, highs: seq<H>, vpn: Word, high: H)
    requires |highs| == 128
  {
    exists k: nat :: k < 128 && lows[k].v && lows[k].vpn == vpn && highs[k] == high
  }

  /** The indexed lookup both translation routines perform. */
  function Lookup<H>(lows: LowBank, highs: seq<H>, vpn: Word): Option<H>
    requires |highs| == 128
  {
    if SlotHits(lows, vpn) then Some(highs[Slot(vpn)]) else None
  }

  /** Whether the entry lets the current mode fetch, load or store. */
  predicate MayFetch(m: MsrFile, high: ItlbHigh) {
    if m.psr.rm then high.rx else high.ux
  }

  predicate MayAccess(m: MsrFile, high: DtlbHigh, store: bool) {
    if m.psr.rm then (if store then high.rw else high.rr) else (if store then high.uw else high.ur)
  }

  /** With translation on, both routines miss exactly on a failed lookup, are
      denied exactly on a found entry without permission, and else go to the
      frame of the entry found; with translation off they change nothing. */
  lemma TranslationIsLookup(m: MsrFile, va: Word, store: bool)
    ensures !m.psr.imme ==> Immu(m, va) == Hit(va)
    ensures m.psr.imme ==>
              var l := Lookup(m.itlbl, m.itlbh, Vpn(va));
              && (Immu(m, va) == Miss <==> l == None)
              && (Immu(m, va) == Denied <==> l.Some? && !MayFetch(m, l.value))
              && (Immu(m, va).Hit? ==> l.Some? && Immu(m, va).pa == Physical(l.value.ppn, va))
    ensures !m.psr.dmme ==> Dmmu(m, va, store) == Hit(va)
    ensures m.psr.dmme ==>
              var l := Lookup(m.dtlbl, m.dtlbh, Vpn(va));
              && (Dmmu(m, va, store) == Miss <==> l == None)
              && (Dmmu(m, va, store) == Denied <==> l.Some? && !MayAccess(m, l.value, store))
              && (Dmmu(m, va, store).Hit? ==> l.Some? && Dmmu(m, va, store).pa == Physical(l.value.ppn, va))
  {
  }

  ghost predicate WellPlaced(lows: LowBank) {
    forall k: nat | k < 128 && lows[k].v :: Slot(lows[k].vpn) == k
  }

  /** With every valid entry in its own slot, indexing finds exactly what a
      search of the whole table would. */
  lemma IndexedIsAssociative<H>(lows: LowBank, highs: seq<H>, vpn: Word, high: H)
    requires |highs| == 128 && WellPlaced(lows)
    ensures Lookup(lows, highs, vpn) == Some(high) <==> Holds(lows, highs, vpn, high)
  {
    if SlotHits(lows, vpn) && highs[Slot(vpn)] == high {
      var k := Slot(vpn);
      assert lows[k].v && lows[k].vpn == vpn && highs[k] == high;
    }
  }

  /** So a well-placed table misses exactly the pages no entry maps, and every
      translated address lies in the frame of an entry that maps its page. */
  lemma TranslationIsAssociative(m: MsrFile, va: Word, store: bool)
    ensures m.psr.imme && WellPlaced(m.itlbl) ==>
              && (Immu(m, va) == Miss <==> forall h :: !Holds(m.itlbl, m.itlbh, Vpn(va), h))
              && (forall h | Holds(m.itlbl, m.itlbh, Vpn(va), h) ::
                    Immu(m, va) == if MayFetch(m, h) then Hit(Physical(h.ppn, va)) else Denied)
    ensures m.psr.dmme && WellPlaced(m.dtlbl) ==>
              && (Dmmu(m, va, store) == Miss <==> forall h :: !Holds(m.dtlbl, m.dtlbh, Vpn(va), h))
              && (forall h | Holds(m.dtlbl, m.dtlbh, Vpn(va), h) ::
                    Dmmu(m, va, store) == if MayAccess(m, h, store) then Hit(Physical(h.ppn, va)) else Denied)
  {
    TranslationIsLookup(m, va, store);
    if WellPlaced(m.itlbl) {
      forall h
        ensures Lookup(m.itlbl, m.itlbh, Vpn(va)) == Some(h) <==> Holds(m.itlbl, m.itlbh, Vpn(va), h)
      {
        IndexedIsAssociative(m.itlbl, m.itlbh, Vpn(va), h);
      }
    }
    if WellPlaced(m.dtlbl) {
      forall h
        ensures Lookup(m.dtlbl, m.dtlbh, Vpn(va)) == Some(h) <==> Holds(m.dtlbl, m.dtlbh, Vpn(va), h)
      {
        IndexedIsAssociative(m.dtlbl, m.dtlbh, Vpn(va), h);
      }
    }
    hide Immu, Dmmu, Holds, WellPlaced, MayFetch, MayAccess, Physical, Lookup;
  }

  /** Without placement the two agree on which pages hit exactly when every
      valid entry's page is also held by that page's own slot. */
  lemma IndexedHitsAllExactly(lows: LowBank)
    ensures (forall k: nat | k < 128 && lows[k].v :: SlotHits(lows, lows[k].vpn))
       <==> (forall vpn: Word :: SlotHits(lows, vpn) <==> Holds(lows, lows, vpn, TlbLow(true, vpn)))
  {
    if forall k: nat | k < 128 && lows[k].v :: SlotHits(lows, lows[k].vpn) {
      forall vpn: Word
        ensures SlotHits(lows, vpn) <==> Holds(lows, lows, vpn, TlbLow(true, vpn))
      {
        if SlotHits(lows, vpn) {
          var k := Slot(vpn);
          assert lows[k].v && lows[k].vpn == vpn && lows[k] == TlbLow(true, vpn);
        }
      }
    } else {
      var k: nat :| k < 128 && lows[k].v && !SlotHits(lows, lows[k].vpn);
      assert lows[k] == TlbLow(true, lows[k].vpn);
      assert Holds(lows, lows, lows[k].vpn, TlbLow(true, lows[k].vpn));
    }
  }

  // ---------- filling a slot through the register file ----------

  /** What one fill does to a well-placed table: the page now maps to the new
      entry, the page the slot held before is evicted, nothing else moves. */
  ghost predicate Filled<H(!new)>(lows: LowBank, highs: seq<H>, lows': LowBank, highs': seq<H>, vpn: Word, high: H)
    requires |highs| == 128 && |highs'| == 128
  {
    && WellPlaced(lows')
    && (forall p: Word, h: H ::
          Holds(lows', highs', p, h) <==>
          if p == vpn then h == high else Holds(lows, highs, p, h) && !(lows[Slot(vpn)].v && p == lows[Slot(vpn)].vpn))
    && (forall p: Word | Slot(p) != Slot(vpn) :: Lookup(lows', highs', p) == Lookup(lows, highs, p))
  }

  lemma FillLemma<H(!new)>(lows: LowBank, highs: seq<H>, vpn: Word, high: H)
    requires |highs| == 128 && WellPlaced(lows)
    ensures Filled(lows, highs, lows[Slot(vpn) := TlbLow(true, vpn)], highs[Slot(vpn) := high], vpn, high)
  {
    var s := Slot(vpn);
    var lows': LowBank := lows[s := TlbLow(true, vpn)];
    var highs' := highs[s := high];
    forall p: Word, h: H
      ensures Holds(lows', highs', p, h) <==>
              if p == vpn then h == high else Holds(lows, highs, p, h) && !(lows[s].v && p == lows[s].vpn)
    {
      IndexedIsAssociative(lows', highs', p, h);
      IndexedIsAssociative(lows, highs, p, h);
    }
  }

  /** Filling slot `vpn & 127` of either table by its two `wmsr` writes. */
  lemma FillThroughWmsr(m: MsrFile, vpn: Word, low: Word, high: Word)
    requires m.psr.rm && low / 0x2000 == vpn && Flag(low, 1)
    ensures var m1 := Wmsr(m, MSR_ITLBL + Slot(vpn), low);
            m1.Ok?
            && var m2 := Wmsr(m1.value, MSR_ITLBH + Slot(vpn), high);
            && m2.Ok?
            && (WellPlaced(m.itlbl) ==>
                  Filled(m.itlbl, m.itlbh, m2.value.itlbl, m2.value.itlbh, vpn, UnpackItlbHigh(high)))
            && m2.value == m.(itlbl := m2.value.itlbl, itlbh := m2.value.itlbh)
    ensures var m1 := Wmsr(m, MSR_DTLBL + Slot(vpn), low);
            m1.Ok?
            && var m2 := Wmsr(m1.value, MSR_DTLBH + Slot(vpn), high);
            && m2.Ok?
            && (WellPlaced(m.dtlbl) ==>
                  Filled(m.dtlbl, m.dtlbh, m2.value.dtlbl, m2.value.dtlbh, vpn, UnpackDtlbHigh(high)))
            && m2.value == m.(dtlbl := m2.value.dtlbl, dtlbh := m2.value.dtlbh)
  {
    if WellPlaced(m.itlbl) {
      FillLemma(m.itlbl, m.itlbh, vpn, UnpackItlbHigh(high));
    }
    if WellPlaced(m.dtlbl) {
      FillLemma(m.dtlbl, m.dtlbh, vpn, UnpackDtlbHigh(high));
    }
    hide UnpackItlbHigh, UnpackDtlbHigh, Holds, Filled;
  }
}
