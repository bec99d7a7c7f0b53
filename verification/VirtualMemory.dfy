/** Virtual memory is flat memory (d-mmu.c:16-59, exec.c:214-242, 301-367,
    memory-mmio.c:62-145): with data translation on and the mapped pages in
    distinct frames of RAM, the loads and stores of any run behave like reads
    and writes of one byte map indexed by virtual address. */
module VirtualMemory {
  import opened Words
  import opened Msr
  import opened Interrupts
  import opened Mmu
  import opened Memory
  import opened Mmio
  import opened Decode
  import opened Exec
  import opened Precise
  import opened Runs

  predicate Mapped(m: MsrFile, va: Word) {
    SlotHits(m.dtlbl, Vpn(va))
  }

  function PaOf(m: MsrFile, va: Word): Word {
    Physical(m.dtlbh[Slot(Vpn(va))].ppn, va)
  }

  /** An entry in its own slot, the only kind a lookup can hit. */
  predicate Live(m: MsrFile, k: nat)
    requires k < 128
  {
    m.dtlbl[k].v && Slot(m.dtlbl[k].vpn) == k
  }

  function Frame(m: MsrFile, k: nat): Word
    requires k < 128
  {
    m.dtlbh[k].ppn % 0x8_0000
  }

  /** Live entries lie in RAM and no two share a frame. */
  predicate DistinctFrames(m: MsrFile, size: nat) {
    && (forall k: nat | k < 128 && Live(m, k) :: Frame(m, k) * 0x2000 + 0x2000 <= size)
    && (forall j: nat, k: nat | j < 128 && k < 128 && Live(m, j) && Live(m, k) && Frame(m, j) == Frame(m, k) :: j == k)
  }

  predicate FlatReady(c: Cpu) {
    c.msr.psr.dmme && |c.ram| <= MMIO_PHY_BASE && DistinctFrames(c.msr, |c.ram|)
  }

  lemma MappedIsLive(m: MsrFile, va: Word, size: nat)
    requires Mapped(m, va) && DistinctFrames(m, size)
    ensures Live(m, Slot(Vpn(va)))
    ensures PaOf(m, va) == Frame(m, Slot(Vpn(va))) * 0x2000 + va % 0x2000
    ensures PaOf(m, va) / 0x2000 * 0x2000 + 0x2000 <= size
  {
    assert m.dtlbl[Slot(Vpn(va))].vpn == Vpn(va);
  }

  /** Translation is injective on mapped addresses and keeps distances inside
      a page. */
  lemma TranslationInjective(m: MsrFile, va: Word, vb: Word, size: nat)
    requires Mapped(m, va) && Mapped(m, vb) && DistinctFrames(m, size)
    ensures PaOf(m, va) / 0x2000 == PaOf(m, vb) / 0x2000 <==> va / 0x2000 == vb / 0x2000
    ensures PaOf(m, va) % 0x2000 == va % 0x2000 && PaOf(m, vb) % 0x2000 == vb % 0x2000
  {
    MappedIsLive(m, va, size);
    MappedIsLive(m, vb, size);
    assert Frame(m, Slot(Vpn(va))) == PaOf(m, va) / 0x2000;
    assert Frame(m, Slot(Vpn(vb))) == PaOf(m, vb) / 0x2000;
    hide DistinctFrames, Frame, PaOf, Live;
    if PaOf(m, va) / 0x2000 == PaOf(m, vb) / 0x2000 {
      SameFrameSameSlot(m, Slot(Vpn(va)), Slot(Vpn(vb)), size);
    }
  }

  lemma SameFrameSameSlot(m: MsrFile, j: nat, k: nat, size: nat)
    requires DistinctFrames(m, size) && j < 128 && k < 128 && Live(m, j) && Live(m, k) && Frame(m, j) == Frame(m, k)
    ensures j == k
  {
  }

  // ---------- the byte map ----------

  /** The bytes a program sees, by virtual address. */
  ghost function Flat(m: MsrFile, ram: seq<Byte>): imap<Word, Byte>
    requires DistinctFrames(m, |ram|)
  {
    imap va: Word | Mapped(m, va) :: FlatByte(m, ram, va)
  }

  function FlatByte(m: MsrFile, ram: seq<Byte>, va: Word): Byte
    requires DistinctFrames(m, |ram|) && Mapped(m, va)
  {
    MappedIsLive(m, va, |ram|);
    ram[PaOf(m, va)]
  }

  predicate InPage(va: Word, w: Width) {
    va % 0x2000 + w.Bytes() <= 0x2000
  }

  predicate Spans(va: Word, w: Width, x: Word) {
    va <= x < va + w.Bytes()
  }

  /** Writing the bytes of a value into the map. */
  ghost function FlatStore(flat: imap<Word, Byte>, va: Word, w: Width, v: Word): imap<Word, Byte> {
    imap x | x in flat :: if Spans(va, w, x) then ByteOf(v, x - va) else flat[x]
  }

  ghost predicate Holds(flat: imap<Word, Byte>, va: Word, w: Width) {
    va + w.Bytes() <= 0x1_0000_0000 && forall x: Word | Spans(va, w, x) :: x in flat
  }

  /** Reading the little-endian value at an address of the map. */
  ghost function FlatLoad(flat: imap<Word, Byte>, va: Word, w: Width): Word
    requires Holds(flat, va, w)
  {
    match w
    case W8 => flat[va]
    case W16 => flat[va + 1] as int * 0x100 + flat[va]
    case W32 =>
      flat[va + 3] as int * 0x100_0000 + flat[va + 2] as int * 0x1_0000 + flat[va + 1] as int * 0x100 + flat[va]
  }

  lemma PageNeighbour(m: MsrFile, va: Word, w: Width, i: nat, size: nat)
    requires Mapped(m, va) && InPage(va, w) && i < w.Bytes() && DistinctFrames(m, size)
    ensures va + i < 0x1_0000_0000 && Mapped(m, va + i) && PaOf(m, va + i) == PaOf(m, va) + i
    ensures PaOf(m, va) + w.Bytes() <= size
  {
    assert Vpn(va + i) == Vpn(va);
    MappedIsLive(m, va, size);
  }

  lemma FlatStoreByte(m: MsrFile, ram: seq<Byte>, va: Word, w: Width, v: Word, x: Word)
    requires DistinctFrames(m, |ram|) && Mapped(m, va) && InPage(va, w) && Mapped(m, x)
    requires PaOf(m, va) + w.Bytes() <= |ram|
    ensures FlatByte(m, StoreRam(ram, PaOf(m, va), w, v), x)
         == if Spans(va, w, x) then ByteOf(v, x - va) else FlatByte(m, ram, x)
  {
    MappedIsLive(m, x, |ram|);
    TranslationInjective(m, va, x, |ram|);
    hide PaOf, DistinctFrames, StoreRam, Mapped;
    StoreByte(ram, Write(PaOf(m, va), w, v), PaOf(m, x));
    SpanIsCover(va, x, PaOf(m, va), PaOf(m, x), w);
  }

  lemma SpanIsCover(va: Word, x: Word, pa: Word, px: Word, w: Width)
    requires pa / 0x2000 == px / 0x2000 <==> va / 0x2000 == x / 0x2000
    requires pa % 0x2000 == va % 0x2000 && px % 0x2000 == x % 0x2000 && InPage(va, w)
    ensures va <= x < va + w.Bytes() <==> pa <= px < pa + w.Bytes()
    ensures va <= x < va + w.Bytes() ==> x - va == px - pa
  {
    if va <= x < va + w.Bytes() {
      assert x / 0x2000 == va / 0x2000;
    }
    if pa <= px < pa + w.Bytes() {
      assert px / 0x2000 == pa / 0x2000;
    }
  }

  /** A store through translation is a store into the map. */
  lemma StoreIsFlat(m: MsrFile, ram: seq<Byte>, va: Word, w: Width, v: Word)
    requires DistinctFrames(m, |ram|) && Mapped(m, va) && InPage(va, w)
    requires PaOf(m, va) + w.Bytes() <= |ram|
    ensures Flat(m, StoreRam(ram, PaOf(m, va), w, v)) == FlatStore(Flat(m, ram), va, w, v)
  {
    hide StoreRam, DistinctFrames, PaOf, FlatByte, Mapped, ByteOf, InPage;
    var ram' := StoreRam(ram, PaOf(m, va), w, v);
    forall x: Word | Mapped(m, x)
      ensures FlatByte(m, ram', x) == if Spans(va, w, x) then ByteOf(v, x - va) else FlatByte(m, ram, x)
    {
      FlatStoreByte(m, ram, va, w, v, x);
    }
  }

  /** A load through translation is a load from the map. */
  lemma LoadIsFlat(m: MsrFile, ram: seq<Byte>, va: Word, w: Width)
    requires DistinctFrames(m, |ram|) && Mapped(m, va) && InPage(va, w)
    requires PaOf(m, va) + w.Bytes() <= |ram|
    ensures Holds(Flat(m, ram), va, w)
    ensures LoadRam(ram, PaOf(m, va), w) == FlatLoad(Flat(m, ram), va, w)
  {
    hide DistinctFrames, PaOf, Mapped, FlatByte, FlatLoad, LoadRam;
    PageNeighbour(m, va, w, w.Bytes() - 1, |ram|);
    forall x: Word | Spans(va, w, x)
      ensures Mapped(m, x) && FlatByte(m, ram, x) == ram[PaOf(m, va) + (x - va)]
    {
      FlatByteAt(m, ram, va, w, x);
    }
    LoadBytes(Flat(m, ram), ram, va, PaOf(m, va), w);
  }

  lemma FlatByteAt(m: MsrFile, ram: seq<Byte>, va: Word, w: Width, x: Word)
    requires DistinctFrames(m, |ram|) && Mapped(m, va) && InPage(va, w) && Spans(va, w, x)
    requires PaOf(m, va) + w.Bytes() <= |ram|
    ensures Mapped(m, x) && FlatByte(m, ram, x) == ram[PaOf(m, va) + (x - va)]
  {
    PageNeighbour(m, va, w, x - va, |ram|);
    hide DistinctFrames, PaOf, Mapped;
  }

  lemma LoadBytes(flat: imap<Word, Byte>, ram: seq<Byte>, va: Word, pa: Word, w: Width)
    requires Holds(flat, va, w) && pa + w.Bytes() <= |ram|
    requires forall x: Word | Spans(va, w, x) :: flat[x] == ram[pa + (x - va)]
    ensures LoadRam(ram, pa, w) == FlatLoad(flat, va, w)
  {
    assert Spans(va, w, va);
    if w != W8 {
      assert Spans(va, w, va + 1);
    }
    if w == W32 {
      assert Spans(va, w, va + 2) && Spans(va, w, va + 3);
    }
  }

  predicate NextFrame(m: MsrFile, va: Word, y: Word) {
    Frame(m, Slot(Vpn(y))) == Frame(m, Slot(Vpn(va))) + 1
  }

  /** Byte `i` of an access at `va` is the byte at `y`: inside the page the
      address `i` further on, past its end the one at that offset of whatever
      page has the next frame, since only the first byte is translated. */
  predicate Reaches(m: MsrFile, va: Word, i: nat, y: Word) {
    if va % 0x2000 + i < 0x2000 then y == va + i
    else NextFrame(m, va, y) && y % 0x2000 == va % 0x2000 + i - 0x2000
  }

  lemma ReachesExactly(m: MsrFile, va: Word, i: nat, y: Word, size: nat)
    requires DistinctFrames(m, size) && i < 4 && Mapped(m, va) && Mapped(m, y)
    ensures PaOf(m, y) == PaOf(m, va) + i <==> Reaches(m, va, i, y)
  {
    MappedIsLive(m, va, size);
    MappedIsLive(m, y, size);
    TranslationInjective(m, va, y, size);
    hide DistinctFrames, PaOf, Mapped, Live, Frame;
    ReachesByParts(va, i, y, Frame(m, Slot(Vpn(va))), Frame(m, Slot(Vpn(y))));
  }

  lemma ReachesByParts(va: Word, i: nat, y: Word, f: Word, g: Word)
    requires i < 4 && (f == g <==> va / 0x2000 == y / 0x2000)
    ensures g * 0x2000 + y % 0x2000 == f * 0x2000 + va % 0x2000 + i <==>
            if va % 0x2000 + i < 0x2000 then y == va + i else g == f + 1 && y % 0x2000 == va % 0x2000 + i - 0x2000
  {
  }

  /** The address `i` beyond a page end lies in another page, close to its
      start. */
  lemma BeyondPage(va: Word, i: nat, j: nat)
    requires i < 4 && j < 4 && va % 0x2000 + i >= 0x2000
    ensures Wrap(va + i) % 0x2000 == va % 0x2000 + i - 0x2000
    ensures va % 0x2000 + j < 0x2000 ==> Wrap(va + i) != va + j
  {
  }

  /** An access that crosses into the next page reaches the byte translation
      would give if and only if that page's frame is the next frame. */
  lemma CrossingAccessExactly(m: MsrFile, va: Word, i: nat, size: nat)
    requires DistinctFrames(m, size) && i < 4 && va % 0x2000 + i >= 0x2000
    requires Mapped(m, va) && Mapped(m, Wrap(va + i))
    ensures PaOf(m, Wrap(va + i)) == PaOf(m, va) + i <==> NextFrame(m, va, Wrap(va + i))
  {
    hide DistinctFrames, NextFrame, PaOf, Mapped, Wrap;
    ReachesExactly(m, va, i, Wrap(va + i), size);
    BeyondPage(va, i, i);
  }

  // ---------- runs of the processor ----------

  predicate AccessInPage(r: Option<Request>) {
    r.Some? ==> InPage(r.value.va, r.value.width)
  }

  /** A step that changes neither the data table nor the mode. */
  predicate LeavesTable(c: Cpu) {
    && !Executes(c, OP_RET) && !Writes(c, MSR_PSR)
    && (WmsrOf(c).Some? && c.msr.psr.rm ==>
          !InBank(WmsrOf(c).value.index, MSR_DTLBL) && !InBank(WmsrOf(c).value.index, MSR_DTLBH))
  }

  /** Such a step whose data access, if any, stays inside a page. */
  predicate Undisturbed(c: Cpu) {
    LeavesTable(c) && AccessInPage(DataAccess(c))
  }

  /** The part of the registers the byte map depends on. */
  predicate SameBanks(m: MsrFile, m': MsrFile) {
    m'.dtlbl == m.dtlbl && m'.dtlbh == m.dtlbh
  }

  predicate SameTable(m: MsrFile, m': MsrFile) {
    SameBanks(m, m') && m'.psr.dmme == m.psr.dmme
  }

  lemma WmsrKeepsTable(m: MsrFile, i: Half, v: Word, m': MsrFile)
    requires Wmsr(m, i, v) == Ok(m')
    requires m.psr.rm ==> i != MSR_PSR && !InBank(i, MSR_DTLBL) && !InBank(i, MSR_DTLBH)
    ensures SameTable(m, m')
  {
    hide UnpackPsr, UnpackLow, UnpackItlbHigh, UnpackDtlbHigh, UnpackTcr, SetLine;
  }

  lemma MoveKeepsTable(c: Cpu, m: MsrFile, m': MsrFile)
    requires MsrMoves(c, m, m') && LeavesTable(c) && m.psr.rm == c.msr.psr.rm
    ensures SameTable(m, m')
  {
    hide Executes, WmsrOf, SetLine, Wmsr;
    if WmsrOf(c).Some? && Wmsr(m, WmsrOf(c).value.index, WmsrOf(c).value.value) == Ok(m') {
      WmsrKeepsTable(m, WmsrOf(c).value.index, WmsrOf(c).value.value, m');
    }
  }

  lemma FlatDepends(m: MsrFile, m': MsrFile, ram: seq<Byte>)
    requires SameBanks(m, m') && DistinctFrames(m, |ram|)
    ensures DistinctFrames(m', |ram|) && Flat(m', ram) == Flat(m, ram)
  {
    assert forall k: nat | k < 128 :: Live(m', k) == Live(m, k) && Frame(m', k) == Frame(m, k);
    assert DistinctFrames(m', |ram|);
    forall va: Word
      ensures Mapped(m', va) == Mapped(m, va) && PaOf(m', va) == PaOf(m, va)
    {
    }
    hide DistinctFrames, Mapped, PaOf, Live, Frame;
  }

  /** What an access does to the map. */
  ghost function FlatApply(flat: imap<Word, Byte>, r: Option<Request>): imap<Word, Byte> {
    if r.Some? && r.value.Store? then FlatStore(flat, r.value.va, r.value.width, r.value.value) else flat
  }

  /** A RAM access does not meet a device. */
  lemma RamLoad(c: Cpu, pa: Word, w: Width)
    requires pa + w.Bytes() <= |c.ram| <= MMIO_PHY_BASE
    ensures BusLoad(c, pa, w) == Ok(Loaded(c, LoadRam(c.ram, pa, w)))
  {
    hide LoadRam;
  }

  lemma RamStore(c: Cpu, pa: Word, w: Width, v: Word)
    requires pa + w.Bytes() <= |c.ram| <= MMIO_PHY_BASE
    ensures BusStore(c, pa, w, v) == Ok(c.(ram := StoreRam(c.ram, pa, w, v)))
  {
    hide StoreRam;
  }

  lemma HitIsMapped(m: MsrFile, va: Word, store: bool)
    requires m.psr.dmme && Dmmu(m, va, store).Hit?
    ensures Mapped(m, va) && Dmmu(m, va, store).pa == PaOf(m, va)
  {
  }

  lemma MappedInRam(m: MsrFile, va: Word, size: nat)
    requires Mapped(m, va) && DistinctFrames(m, size)
    ensures PaOf(m, va) < size
  {
    MappedIsLive(m, va, size);
    hide DistinctFrames, PaOf, Mapped;
  }

  lemma StoreInRange(c: Cpu, pa: Word, w: Width, v: Word)
    requires pa < |c.ram| <= MMIO_PHY_BASE && BusStore(c, pa, w, v).Ok?
    ensures pa + w.Bytes() <= |c.ram|
  {
    hide StoreRam;
  }

  lemma LoadInRange(c: Cpu, pa: Word, w: Width)
    requires pa < |c.ram| <= MMIO_PHY_BASE && BusLoad(c, pa, w).Ok?
    ensures pa + w.Bytes() <= |c.ram|
  {
    hide LoadRam;
  }

  /** A retired load or store goes to memory at its translated address. */
  lemma LoadTranslates(c: Cpu, w: Width, ins: Word, n: Next, base: Word)
    requires ExecLoad(c, w, ins) == Ok(n) && !n.Raised? && FlatReady(c) && GetReg(c, Rs1(ins)) == Ok(base)
    ensures var va := Wrap(base + Simm14(ins));
            && Mapped(c.msr, va) && PaOf(c.msr, va) + w.Bytes() <= |c.ram|
            && SetRegNext(c, Rd(ins), LoadRam(c.ram, PaOf(c.msr, va), w)) == Ok(n)
  {
    hide Dmmu, BusLoad, DistinctFrames, Simm14, Rd, Rs1, LoadRam, RaiseException, PaOf, Mapped, SetRegNext;
    var va := Wrap(base + Simm14(ins));
    HitIsMapped(c.msr, va, false);
    MappedInRam(c.msr, va, |c.ram|);
    LoadInRange(c, PaOf(c.msr, va), w);
    RamLoad(c, PaOf(c.msr, va), w);
  }

  lemma StoreTranslates(c: Cpu, w: Width, ins: Word, n: Next, base: Word, v: Word)
    requires ExecStore(c, w, ins) == Ok(n) && !n.Raised? && FlatReady(c)
    requires GetReg(c, Rd(ins)) == Ok(base) && GetReg(c, Rs1(ins)) == Ok(v)
    ensures var va := Wrap(base + Simm14(ins));
            && Mapped(c.msr, va) && PaOf(c.msr, va) + w.Bytes() <= |c.ram|
            && n == Fall(c.(ram := StoreRam(c.ram, PaOf(c.msr, va), w, v)))
  {
    hide Dmmu, BusStore, DistinctFrames, Simm14, Rd, Rs1, StoreRam, RaiseException, PaOf, Mapped;
    var va := Wrap(base + Simm14(ins));
    HitIsMapped(c.msr, va, true);
    MappedInRam(c.msr, va, |c.ram|);
    StoreInRange(c, PaOf(c.msr, va), w, v);
    RamStore(c, PaOf(c.msr, va), w, v);
  }

  /** A retired load leaves the map alone and puts its value in rd. */
  lemma LoadInsnIsFlat(c: Cpu, w: Width, ins: Word, n: Next)
    requires ExecLoad(c, w, ins) == Ok(n) && !n.Raised? && FlatReady(c)
    requires LoadWidth(Opcode(ins)) == Some(w) && AccessInPage(InsnAccess(c, ins))
    ensures Rs1(ins) < 32 && Rd(ins) < 32
    ensures var va := Wrap(RegValue(c, Rs1(ins)) + Simm14(ins));
            && Mapped(c.msr, va) && Holds(Flat(c.msr, c.ram), va, w)
            && n == Fall(if Rd(ins) == 0 then c
                         else c.(regs := c.regs[Rd(ins) := FlatLoad(Flat(c.msr, c.ram), va, w)]))
  {
    hide Flat, FlatLoad, FlatReady, Simm14, Opcode, Rd, Rs1, LoadRam, BusLoad, Dmmu, RaiseException, PaOf, Mapped,
         InPage;
    var base := GetReg(c, Rs1(ins)).value;
    LoadTranslates(c, w, ins, n, base);
    hide ExecLoad;
    FlatLoadAt(c, Wrap(base + Simm14(ins)), w);
  }

  lemma FlatLoadAt(c: Cpu, va: Word, w: Width)
    requires FlatReady(c) && Mapped(c.msr, va) && InPage(va, w) && PaOf(c.msr, va) + w.Bytes() <= |c.ram|
    ensures Holds(Flat(c.msr, c.ram), va, w)
    ensures LoadRam(c.ram, PaOf(c.msr, va), w) == FlatLoad(Flat(c.msr, c.ram), va, w)
  {
    LoadIsFlat(c.msr, c.ram, va, w);
  }

  /** A retired store writes the map and nothing else. */
  lemma StoreInsnIsFlat(c: Cpu, w: Width, ins: Word, n: Next)
    requires ExecStore(c, w, ins) == Ok(n) && !n.Raised? && FlatReady(c)
    requires StoreWidth(Opcode(ins)) == Some(w) && AccessInPage(InsnAccess(c, ins))
    ensures Rd(ins) < 32 && Rs1(ins) < 32
    ensures n == Fall(c.(ram := n.cpu.ram)) && |n.cpu.ram| == |c.ram|
    ensures Flat(c.msr, n.cpu.ram) == FlatApply(Flat(c.msr, c.ram), InsnAccess(c, ins))
  {
    hide InPage, Flat, FlatStore, DistinctFrames, Simm14, Opcode, Rd, Rs1, StoreRam, BusStore, Dmmu, RaiseException,
         PaOf, Mapped;
    var base, v := GetReg(c, Rd(ins)).value, GetReg(c, Rs1(ins)).value;
    StoreTranslates(c, w, ins, n, base, v);
    hide ExecStore;
    var va := Wrap(base + Simm14(ins));
    StoreAccess(c, w, ins);
    hide InsnAccess;
    StoreIsFlat(c.msr, c.ram, va, w, v);
  }

  lemma StoreAccess(c: Cpu, w: Width, ins: Word)
    requires StoreWidth(Opcode(ins)) == Some(w) && Rd(ins) < 32 && Rs1(ins) < 32
    ensures InsnAccess(c, ins) == Some(Store(Wrap(RegValue(c, Rd(ins)) + Simm14(ins)), w, RegValue(c, Rs1(ins))))
  {
    hide Opcode, Simm14, Rd, Rs1;
  }

  /** Where a retired store of any alignment goes, in virtual terms: an address
      some byte of it reaches gets that byte, every other one stays. */
  lemma StoreReaches(c: Cpu, w: Width, ins: Word, n: Next, base: Word, v: Word, y: Word)
    requires ExecStore(c, w, ins) == Ok(n) && !n.Raised? && FlatReady(c) && Mapped(c.msr, y)
    requires GetReg(c, Rd(ins)) == Ok(base) && GetReg(c, Rs1(ins)) == Ok(v)
    ensures n == Fall(c.(ram := n.cpu.ram)) && |n.cpu.ram| == |c.ram|
    ensures var va := Wrap(base + Simm14(ins));
            && Mapped(c.msr, va)
            && (forall i: nat | i < w.Bytes() && Reaches(c.msr, va, i, y) ::
                  FlatByte(c.msr, n.cpu.ram, y) == ByteOf(v, i))
            && ((forall i: nat | i < w.Bytes() :: !Reaches(c.msr, va, i, y)) ==>
                  FlatByte(c.msr, n.cpu.ram, y) == FlatByte(c.msr, c.ram, y))
  {
    hide ExecStore, DistinctFrames, Simm14, Rd, Rs1, StoreRam, PaOf, Mapped, Reaches, ByteOf;
    StoreTranslates(c, w, ins, n, base, v);
    StoredByte(c.msr, c.ram, Wrap(base + Simm14(ins)), w, v, y);
  }

  lemma StoredByte(m: MsrFile, ram: seq<Byte>, va: Word, w: Width, v: Word, y: Word)
    requires DistinctFrames(m, |ram|) && Mapped(m, va) && Mapped(m, y) && PaOf(m, va) + w.Bytes() <= |ram|
    ensures var ram' := StoreRam(ram, PaOf(m, va), w, v);
            && (forall i: nat | i < w.Bytes() && Reaches(m, va, i, y) :: FlatByte(m, ram', y) == ByteOf(v, i))
            && ((forall i: nat | i < w.Bytes() :: !Reaches(m, va, i, y)) ==>
                  FlatByte(m, ram', y) == FlatByte(m, ram, y))
  {
    MappedInRam(m, y, |ram|);
    forall i: nat | i < w.Bytes()
      ensures PaOf(m, y) == PaOf(m, va) + i <==> Reaches(m, va, i, y)
    {
      ReachesExactly(m, va, i, y, |ram|);
    }
    hide DistinctFrames, PaOf, Mapped, Reaches, StoreRam, ByteOf;
    var d := PaOf(m, y) - PaOf(m, va);
    StoreByte(ram, Write(PaOf(m, va), w, v), PaOf(m, y));
    if 0 <= d < w.Bytes() {
      assert Reaches(m, va, d, y);
    }
  }

  /** A retired load of any alignment returns, byte by byte, what lies at the
      virtual addresses its bytes reach. */
  lemma LoadReaches(c: Cpu, w: Width, ins: Word, n: Next, base: Word, y: Word, i: nat)
    requires ExecLoad(c, w, ins) == Ok(n) && !n.Raised? && FlatReady(c) && Mapped(c.msr, y)
    requires GetReg(c, Rs1(ins)) == Ok(base) && i < w.Bytes()
    ensures Rd(ins) < 32 && n == Fall(c.(regs := n.cpu.regs))
    ensures var va := Wrap(base + Simm14(ins));
            && Mapped(c.msr, va)
            && (Rd(ins) != 0 && Reaches(c.msr, va, i, y) ==>
                  ByteOf(n.cpu.regs[Rd(ins)], i) == FlatByte(c.msr, c.ram, y))
  {
    hide ExecLoad, DistinctFrames, Simm14, Rd, Rs1, LoadRam, PaOf, Mapped, Reaches, ByteOf;
    LoadTranslates(c, w, ins, n, base);
    var va := Wrap(base + Simm14(ins));
    LoadedByte(c.ram, PaOf(c.msr, va), w, i);
    ReachesExactly(c.msr, va, i, y, |c.ram|);
  }

  lemma LoadedByte(ram: seq<Byte>, a: nat, w: Width, i: nat)
    requires a + w.Bytes() <= |ram| && i < w.Bytes()
    ensures ByteOf(LoadRam(ram, a, w), i) == ram[a + i]
  {
    FourBytesBack(ram[a], if w == W8 then 0 else ram[a + 1], if w == W32 then ram[a + 2] else 0,
                  if w == W32 then ram[a + 3] else 0);
  }

  lemma BytesByDivision(v: Word)
    ensures ByteOf(v, 0) == v % 0x100 && ByteOf(v, 1) == v / 0x100 % 0x100
    ensures ByteOf(v, 2) == v / 0x100 / 0x100 % 0x100 && ByteOf(v, 3) == v / 0x100 / 0x100 / 0x100
  {
    assert v / 0x1_0000 == v / 0x100 / 0x100;
    assert v / 0x100_0000 == v / 0x100 / 0x100 / 0x100;
  }

  lemma LowByte(q: nat, b: Byte)
    ensures (q * 0x100 + b) / 0x100 == q && (q * 0x100 + b) % 0x100 == b
  {
  }

  lemma FourBytesBack(b0: Byte, b1: Byte, b2: Byte, b3: Byte)
    ensures var v: Word := b3 as int * 0x100_0000 + b2 as int * 0x1_0000 + b1 as int * 0x100 + b0;
            ByteOf(v, 0) == b0 && ByteOf(v, 1) == b1 && ByteOf(v, 2) == b2 && ByteOf(v, 3) == b3
  {
    hide ByteOf;
    BytesByDivision(b3 as int * 0x100_0000 + b2 as int * 0x1_0000 + b1 as int * 0x100 + b0);
    LowByte(b3 as int * 0x1_0000 + b2 as int * 0x100 + b1, b0);
    LowByte(b3 as int * 0x100 + b2, b1);
    LowByte(b3, b2);
  }

  /** So byte `i` of a store that crosses its page end arrives at the address
      `i` further on if that page's frame is the next one, and otherwise that
      address keeps what it held. */
  lemma CrossingStore(c: Cpu, w: Width, ins: Word, n: Next, base: Word, v: Word, va: Word, i: nat)
    requires ExecStore(c, w, ins) == Ok(n) && !n.Raised? && FlatReady(c)
    requires GetReg(c, Rd(ins)) == Ok(base) && GetReg(c, Rs1(ins)) == Ok(v)
    requires va == Wrap(base + Simm14(ins))
    requires i < w.Bytes() && va % 0x2000 + i >= 0x2000 && Mapped(c.msr, Wrap(va + i))
    ensures |n.cpu.ram| == |c.ram|
    ensures FlatByte(c.msr, n.cpu.ram, Wrap(va + i))
         == if NextFrame(c.msr, va, Wrap(va + i)) then ByteOf(v, i) else FlatByte(c.msr, c.ram, Wrap(va + i))
  {
    hide ExecStore, DistinctFrames, Simm14, Rd, Rs1, PaOf, Mapped, ByteOf, NextFrame, FlatByte;
    var y := Wrap(va + i);
    StoreReaches(c, w, ins, n, base, v, y);
    hide Wrap;
    forall j: nat | j < w.Bytes()
      ensures Reaches(c.msr, va, j, y) ==> j == i && NextFrame(c.msr, va, y)
    {
      BeyondPage(va, i, j);
    }
    BeyondPage(va, i, i);
    assert Reaches(c.msr, va, i, y) <==> NextFrame(c.msr, va, y);
  }

  /** The value a retired load leaves in its destination register. */
  ghost predicate LoadReturns(c: Cpu, c': Cpu, flat: imap<Word, Byte>) {
    DataAccess(c).Some? && DataAccess(c).value.Load? ==>
      var r, rd := DataAccess(c).value, Rd(Fetched(c).value);
      && Holds(flat, r.va, r.width)
      && rd < 32 && (rd != 0 ==> c'.regs[rd] == FlatLoad(flat, r.va, r.width))
  }

  lemma MemoryInsns(c: Cpu, ins: Word)
    ensures LoadWidth(Opcode(ins)).Some? ==> Execute(c, ins) == ExecLoad(c, LoadWidth(Opcode(ins)).value, ins)
    ensures StoreWidth(Opcode(ins)).Some? ==> Execute(c, ins) == ExecStore(c, StoreWidth(Opcode(ins)).value, ins)
  {
    hide Opcode, ExecLoad, ExecStore, ExecAlu;
  }

  lemma TickKeepsFlat(c: Cpu)
    requires FlatReady(c)
    ensures FlatReady(Tick(c)) && Flat(Tick(c).msr, c.ram) == Flat(c.msr, c.ram)
    ensures Tick(c) == c.(msr := Tick(c).msr) && Tick(c).msr.psr == c.msr.psr
    ensures SameTable(c.msr, Tick(c).msr)
  {
    hide TscClk, DistinctFrames, Flat;
    TickFrame(c.msr);
    FlatDepends(c.msr, Tick(c).msr, c.ram);
  }

  lemma FlatStep(c: Cpu, c': Cpu)
    requires FlatReady(c) && Undisturbed(c) && Retires(c, c')
    ensures FlatReady(c')
    ensures Flat(c'.msr, c'.ram) == FlatApply(Flat(c.msr, c.ram), DataAccess(c))
    ensures LoadReturns(c, c', Flat(c.msr, c.ram))
  {
    hide Step, Execute, ExecLoad, ExecStore, Flat, FlatStore, FlatLoad, DistinctFrames, Fetched, Tick, Sound, Opcode,
         Holds, MsrMoves, Writes, WmsrOf, Executes, Simm14, Rd, Rs1, InPage, LoadRam, Mapped, TscClk;
    var ins, n := RetiringStep(c, c');
    var c1 := Tick(c);
    TickKeepsFlat(c);
    MemoryInsns(c1, ins);
    StepFrame(c, c');
    TableAfter(c, c');
    var op := Opcode(ins);
    if LoadWidth(op).Some? {
      LoadInsnIsFlat(c1, LoadWidth(op).value, ins, n);
      FlatDepends(c1.msr, c'.msr, c.ram);
    } else if StoreWidth(op).Some? {
      StoreInsnIsFlat(c1, StoreWidth(op).value, ins, n);
      FlatDepends(c1.msr, c'.msr, c'.ram);
    } else {
      FlatDepends(c1.msr, c'.msr, c.ram);
    }
  }

  lemma TableAfter(c: Cpu, c': Cpu)
    requires LeavesTable(c) && Retires(c, c')
    ensures SameTable(Tick(c).msr, c'.msr)
  {
    hide Step, LeavesTable, MsrMoves, TscClk, Sound, SameTable;
    StepFrame(c, c');
    TickFrame(c.msr);
    MoveKeepsTable(c, TscClk(c.msr), c'.msr);
  }

  /** The map `flat` becomes by the accesses of the first `n` steps. */
  ghost function FlatAfter(flat: imap<Word, Byte>, c: Cpu, n: nat): imap<Word, Byte> {
    if n == 0 then flat
    else
      match After(c, n - 1)
      case Ok(s) => FlatApply(FlatAfter(flat, c, n - 1), DataAccess(s))
      case _ => flat
  }

  /** The load of step `k`, if any, returns what the map holds by then. */
  ghost predicate LoadAt(flat: imap<Word, Byte>, c: Cpu, k: nat) {
    && After(c, k).Ok? && Step(At(c, k)).Ok?
    && LoadReturns(At(c, k), Step(At(c, k)).value.cpu, FlatAfter(flat, c, k))
  }

  /** Virtual memory is flat memory: over any run without exceptions that
      leaves the data table and mode alone and whose accesses stay inside
      pages, memory as the program sees it is the byte map its stores built,
      and every load returns what that map holds. */
  lemma {:induction false} VirtualMemoryIsFlat(c: Cpu, n: nat)
    requires FlatReady(c) && After(c, n).Ok?
    requires forall k: nat | k < n && After(c, k).Ok? :: Undisturbed(At(c, k)) && !Traps(At(c, k))
    ensures FlatReady(At(c, n))
    ensures Flat(At(c, n).msr, At(c, n).ram) == FlatAfter(Flat(c.msr, c.ram), c, n)
    ensures forall k: nat | k < n :: LoadAt(Flat(c.msr, c.ram), c, k)
  {
    hide Step, FlatReady, Flat, FlatApply, Undisturbed, LoadReturns, DataAccess, Traps;
    if n > 0 {
      VirtualMemoryIsFlat(c, n - 1);
      var s, s' := At(c, n - 1), At(c, n);
      RetiresUnlessTraps(s);
      FlatStep(s, s');
    }
  }
}
