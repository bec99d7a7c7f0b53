/** The software TLB refill: a miss, a handler that fills the slot, and the
    retry (i-mmu.c:16-45, d-mmu.c:16-59, msr.c:145-188, exec.c:251-255). */
module Refill {
  import opened Words
  import opened Msr
  import opened Interrupts
  import opened Mmu
  import opened Decode
  import opened Exec
  import opened Precise
  import opened Runs
  import opened Handlers

  datatype Bank = FetchLow | FetchHigh | DataLow | DataHigh {
    function Base(): Half {
      match this
      case FetchLow => MSR_ITLBL
      case FetchHigh => MSR_ITLBH
      case DataLow => MSR_DTLBL
      case DataHigh => MSR_DTLBH
    }
  }

  datatype SlotValue = Low(low: TlbLow) | FetchEntry(ihigh: ItlbHigh) | DataEntry(dhigh: DtlbHigh)

  function SlotOf(m: MsrFile, b: Bank, s: nat): SlotValue
    requires s < 128
  {
    match b
    case FetchLow => Low(m.itlbl[s])
    case FetchHigh => FetchEntry(m.itlbh[s])
    case DataLow => Low(m.dtlbl[s])
    case DataHigh => DataEntry(m.dtlbh[s])
  }

  function UnpackSlot(b: Bank, v: Word): SlotValue {
    match b
    case FetchLow => Low(UnpackLow(v))
    case FetchHigh => FetchEntry(UnpackItlbHigh(v))
    case DataLow => Low(UnpackLow(v))
    case DataHigh => DataEntry(UnpackDtlbHigh(v))
  }

  lemma WmsrSlot(m: MsrFile, i: Half, v: Word, m': MsrFile, b: Bank, s: nat)
    requires s < 128 && Wmsr(m, i, v) == Ok(m')
    ensures SlotOf(m', b, s) == if m.psr.rm && i == SlotIndex(b, s) then UnpackSlot(b, v) else SlotOf(m, b, s)
  {
    hide UnpackPsr, UnpackLow, UnpackItlbHigh, UnpackDtlbHigh, UnpackTcr, SetLine;
  }

  /** Only a root-mode write to its index changes a slot. */
  lemma SlotStep(c: Cpu, c': Cpu, b: Bank, s: nat)
    requires s < 128 && Retires(c, c')
    ensures !Writes(c, SlotIndex(b, s)) ==> SlotOf(c'.msr, b, s) == SlotOf(c.msr, b, s)
    ensures forall v | WritesValue(c, SlotIndex(b, s), v) :: SlotOf(c'.msr, b, s) == UnpackSlot(b, v)
  {
    hide Step, TscClk, SetLine, Fetched, Opcode, Wmsr, Sound, MsrIndex, RegValue, UnpackSlot;
    StepFrame(c, c');
    TickFrame(c.msr);
    if Executes(c, OP_WMSR) {
      var w := WmsrOf(c).value;
      WmsrSlot(TscClk(c.msr), w.index, w.value, c'.msr, b, s);
    }
  }

  /** Step `k` of a run of `n` writes `v` to `i`, and no later step writes it. */
  ghost predicate LastWrite(h: Cpu, n: nat, i: Half, k: nat, v: Word) {
    && k < n && After(h, k).Ok? && WritesValue(At(h, k), i, v)
    && forall j: nat | k < j < n && After(h, j).Ok? :: !Writes(At(h, j), i)
  }

  lemma {:induction false} LastWriteStands(h: Cpu, n: nat, e: Cpu, b: Bank, s: nat, k: nat, v: Word)
    requires s < 128 && After(h, n) == Ok(e) && LastWrite(h, n, SlotIndex(b, s), k, v)
    requires forall j: nat | j < n && After(h, j).Ok? :: !Traps(At(h, j))
    ensures SlotOf(e.msr, b, s) == UnpackSlot(b, v)
    decreases n
  {
    hide Step, Writes, WritesValue, WmsrOf, UnpackSlot, SlotOf, Traps;
    PrefixRuns(h, n - 1, n);
    var p := At(h, n - 1);
    RetiresUnlessTraps(p);
    SlotStep(p, e, b, s);
    if k < n - 1 {
      LastWriteStands(h, n - 1, p, b, s, k, v);
    }
  }

  /** The two values a handler last writes to slot `s` of a pair of banks. */
  datatype Fill = Fill(low: Bank, high: Bank, s: nat, kl: nat, vl: Word, kh: nat, vh: Word)

  function SlotIndex(b: Bank, s: nat): Half
    requires s < 128
  {
    b.Base() + s
  }

  /** A quiet handler that ends in a RET and fills a slot. */
  ghost predicate FillingHandler(h: Cpu, n: nat, e: Cpu, f: Fill)
    requires f.s < 128
  {
    && LastWrite(h, n, SlotIndex(f.low, f.s), f.kl, f.vl)
    && LastWrite(h, n, SlotIndex(f.high, f.s), f.kh, f.vh)
    && QuietHandler(h, n, e)
  }

  /** After such a handler the interrupted program goes on with the slot
      holding the two written values. */
  lemma HandlerFills(c: Cpu, t: Trap, n: nat, e: Cpu, f: Fill)
    requires f.s < 128 && Cause(c) == Some(t) && FillingHandler(Entry(c, t), n, e, f)
    ensures Step(e) == Ok(Stepped(Resumed(c, t, e), false))
    ensures SlotOf(Resumed(c, t, e).msr, f.low, f.s) == UnpackSlot(f.low, f.vl)
    ensures SlotOf(Resumed(c, t, e).msr, f.high, f.s) == UnpackSlot(f.high, f.vh)
  {
    hide Step, Quiet, LastWrite, UnpackSlot, SlotOf, Cause, RetAt, Fetched, Traps, Entry, ResumePc, TscClk;
    HandlerTransparency(c, t, n, e);
    LastWriteStands(Entry(c, t), n, e, f.low, f.s, f.kl, f.vl);
    LastWriteStands(Entry(c, t), n, e, f.high, f.s, f.kh, f.vh);
    TickKeepsSlots(e.msr, c.msr.psr, f.low, f.s);
    TickKeepsSlots(e.msr, c.msr.psr, f.high, f.s);
  }

  lemma TickKeepsSlots(m: MsrFile, psr: Psr, b: Bank, s: nat)
    requires s < 128
    ensures SlotOf(TscClk(m).(psr := psr), b, s) == SlotOf(m, b, s)
  {
    TickFrame(m);
    hide TscClk;
  }

  /** The frame of an ITLBH or DTLBH word and the offset of an address. */
  function FrameAddress(vh: Word, va: Word): Word {
    vh / 0x2000 * 0x2000 + va % 0x2000
  }

  lemma FrameIsPhysical(vh: Word, va: Word)
    ensures Physical(vh / 0x2000, va) == FrameAddress(vh, va)
  {
  }

  /** Translation after a fill, seen by the next step's clock edge. */
  lemma FilledFetchHits(m: MsrFile, va: Word, vl: Word, vh: Word)
    requires SlotOf(m, FetchLow, Slot(Vpn(va))) == UnpackSlot(FetchLow, vl)
    requires SlotOf(m, FetchHigh, Slot(Vpn(va))) == UnpackSlot(FetchHigh, vh)
    requires Flag(vl, 1) && vl / 0x2000 == Vpn(va) && (if m.psr.rm then Flag(vh, 16) else Flag(vh, 8))
    requires m.psr.imme
    ensures Immu(TscClk(m), va) == Hit(FrameAddress(vh, va))
  {
    TickFrame(m);
    FrameIsPhysical(vh, va);
    hide TscClk, FrameAddress, Physical, Flag, Vpn, Slot;
  }

  lemma FilledDataHits(m: MsrFile, va: Word, store: bool, vl: Word, vh: Word)
    requires SlotOf(m, DataLow, Slot(Vpn(va))) == UnpackSlot(DataLow, vl)
    requires SlotOf(m, DataHigh, Slot(Vpn(va))) == UnpackSlot(DataHigh, vh)
    requires Flag(vl, 1) && vl / 0x2000 == Vpn(va)
    requires Flag(vh, if m.psr.rm then (if store then 32 else 64) else (if store then 8 else 16))
    requires m.psr.dmme
    ensures Dmmu(TscClk(m), va, store) == Hit(FrameAddress(vh, va))
  {
    TickFrame(m);
    FrameIsPhysical(vh, va);
    hide TscClk, FrameAddress, Physical, Flag, Vpn, Slot;
  }

  /** Miss, fill, retry: after a fetch miss, a quiet handler whose last writes
      to the page's slot install that page with permission for the interrupted
      mode, and its RET, the resumed step takes the interrupt if one is pending
      and otherwise fetches the word at the page offset in the frame written. */
  lemma FetchRetry(c: Cpu, t: Trap, n: nat, e: Cpu, f: Fill)
    requires f.low == FetchLow && f.high == FetchHigh && f.s == Slot(Vpn(t.lsa))
    requires Flag(f.vl, 1) && f.vl / 0x2000 == Vpn(t.lsa) && (if c.msr.psr.rm then Flag(f.vh, 16) else Flag(f.vh, 8))
    requires t.vector == VECT_EITM && Cause(c) == Some(t)
    requires FillingHandler(Entry(c, t), n, e, f)
    ensures Step(e) == Ok(Stepped(Resumed(c, t, e), false))
    ensures var r := Resumed(c, t, e);
            && r.pc == c.pc && r.msr.psr == c.msr.psr
            && Immu(TscClk(r.msr), r.pc) == Hit(FrameAddress(f.vh, c.pc))
            && (IrqPending(TscClk(r.msr)) <==> Cause(r) == Some(Trap(VECT_EIRQ, 0, false)))
            && Fetched(r) == (if IrqPending(TscClk(r.msr)) then None else RamWord(e.ram, FrameAddress(f.vh, c.pc)))
            && Cause(r) != Some(Trap(VECT_EITM, c.pc, false)) && Cause(r) != Some(Trap(VECT_EIPF, c.pc, false))
  {
    hide Step, Entry, LastWrite, QuietHandler, TscClk, Cause, SlotOf, UnpackSlot, Flag, Immu, IrqPending, Fetched,
         RamWord;
    CauseOfMiss(c, t);
    HandlerFills(c, t, n, e, f);
    var r := Resumed(c, t, e);
    FetchIsRam(r);
    FilledFetchHits(r.msr, c.pc, f.vl, f.vh);
    CauseAfterHit(r);
  }

  lemma CauseOfMiss(c: Cpu, t: Trap)
    requires Cause(c) == Some(t) && t.vector == VECT_EITM
    ensures t == Trap(VECT_EITM, c.pc, false) && c.msr.psr.imme
  {
    TickFrame(c.msr);
    hide TscClk, Memory.LoadRam, Dmmu, Simm14, ValidEncoding, RegValue;
  }

  lemma CauseAfterHit(r: Cpu)
    requires Immu(TscClk(r.msr), r.pc).Hit?
    ensures IrqPending(TscClk(r.msr)) <==> Cause(r) == Some(Trap(VECT_EIRQ, 0, false))
    ensures Cause(r) != Some(Trap(VECT_EITM, r.pc, false)) && Cause(r) != Some(Trap(VECT_EIPF, r.pc, false))
  {
    hide TscClk, Memory.LoadRam, Dmmu, Simm14, ValidEncoding, RegValue, Immu, IrqPending;
  }

  /** The register an access's address is based on. */
  function BaseOf(ins: Word): nat {
    if StoreWidth(Opcode(ins)).Some? then Rd(ins) else Rs1(ins)
  }

  predicate Storing(c: Cpu) {
    Fetched(c).Some? && StoreWidth(Opcode(Fetched(c).value)).Some?
  }

  predicate SameBase(c: Cpu, r: Cpu, ins: Word) {
    BaseOf(ins) < 32 ==> RegValue(r, BaseOf(ins)) == RegValue(c, BaseOf(ins))
  }

  /** Both steps execute the same instruction with the same base register. */
  predicate SameAccess(c: Cpu, r: Cpu) {
    && Fetched(c).Some? && Fetched(r) == Fetched(c)
    && SameBase(c, r, Fetched(c).value)
  }

  /** The same for a data miss: the access at the resumed pc translates to the
      frame written, and the resumed step, if it fetches the same instruction
      again and finds its base register as it was, takes no exception at all.
      If it fetches nothing, what it takes comes before the instruction. */
  lemma DataRetry(c: Cpu, t: Trap, store: bool, n: nat, e: Cpu, f: Fill)
    requires f.low == DataLow && f.high == DataHigh && f.s == Slot(Vpn(t.lsa))
    requires Flag(f.vl, 1) && f.vl / 0x2000 == Vpn(t.lsa)
    requires Flag(f.vh, if c.msr.psr.rm then (if store then 32 else 64) else (if store then 8 else 16))
    requires t.vector == VECT_EDTM && Cause(c) == Some(t)
    requires FillingHandler(Entry(c, t), n, e, f)
    ensures Step(e) == Ok(Stepped(Resumed(c, t, e), false))
    ensures var r := Resumed(c, t, e);
            && r.pc == c.pc && r.msr.psr == c.msr.psr
            && Dmmu(TscClk(r.msr), t.lsa, store) == Hit(FrameAddress(f.vh, t.lsa))
            && (SameAccess(c, r) && store == Storing(c) ==> Cause(r) == None)
            && (Fetched(r).None? && Cause(r).Some? ==> Cause(r).value.vector in {VECT_EIRQ, VECT_EITM, VECT_EIPF})
  {
    hide Step, Entry, LastWrite, QuietHandler, TscClk, Cause, SlotOf, UnpackSlot, Flag, Dmmu, Fetched, SameAccess,
         Storing;
    CauseOfDataMiss(c, t);
    HandlerFills(c, t, n, e, f);
    var r := Resumed(c, t, e);
    FilledDataHits(r.msr, t.lsa, store, f.vl, f.vh);
    CauseOfFetched(r);
    if SameAccess(c, r) && store == Storing(c) {
      RetriedAccess(c, t, r);
    }
  }

  lemma CauseOfDataMiss(c: Cpu, t: Trap)
    requires Cause(c) == Some(t) && t.vector == VECT_EDTM
    ensures Fetched(c).Some? && InsnTrap(Tick(c), Fetched(c).value) == Some(t)
    ensures !t.syscall && c.msr.psr.dmme
  {
    CauseOfFetched(c);
    TickFrame(c.msr);
    hide TscClk, Simm14, ValidEncoding, RegValue, Cause, Fetched;
  }

  /** The same access translated without a fault raises nothing. */
  lemma RetriedAccess(c: Cpu, t: Trap, r: Cpu)
    requires Cause(c) == Some(t) && t.vector == VECT_EDTM && SameAccess(c, r)
    requires Dmmu(TscClk(r.msr), t.lsa, Storing(c)).Hit?
    ensures Cause(r) == None
  {
    hide TscClk, Cause, Fetched, Dmmu, Opcode, BaseOf, InsnTrap, StoreWidth;
    CauseOfDataMiss(c, t);
    CauseOfFetched(r);
    RetriedInsn(Tick(c), Tick(r), Fetched(c).value, t);
  }

  lemma RetriedInsn(c: Cpu, r: Cpu, ins: Word, t: Trap)
    requires InsnTrap(c, ins) == Some(t) && t.vector == VECT_EDTM
    requires SameBase(c, r, ins)
    requires Dmmu(r.msr, t.lsa, StoreWidth(Opcode(ins)).Some?).Hit?
    ensures InsnTrap(r, ins) == None
  {
    hide Simm14, ValidEncoding, Dmmu, Opcode, Rd, Rs1;
    var op := Opcode(ins);
    assert LoadWidth(op).None? || StoreWidth(op).None?;
    hide LoadWidth, StoreWidth;
  }
}
