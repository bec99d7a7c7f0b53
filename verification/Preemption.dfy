/** Virtual memory is flat memory across exceptions too (exec.c:78-98, 251-255,
    301-367, 392-406): handlers that do not nest, leave the data table alone
    and store outside the frames it maps are invisible in the byte map of the
    program they interrupt. */
module Preemption {
  import opened Words
  import opened Msr
  import opened Interrupts
  import opened Mmu
  import opened Memory
  import opened Decode
  import opened Exec
  import opened Precise
  import opened Runs
  import opened Handlers
  import opened VirtualMemory

  /** A physical access that meets no frame of a live entry. */
  predicate MissesFrames(m: MsrFile, pa: Word, w: Width) {
    forall k: nat | k < 128 && Live(m, k) ::
      pa + w.Bytes() <= Frame(m, k) * 0x2000 || Frame(m, k) * 0x2000 + 0x2000 <= pa
  }

  /** A step of a non-nesting handler that leaves alone the data table and what
      the table of `m` maps; its stores may go to other memory or a device. */
  predicate Discreet(s: Cpu, m: MsrFile) {
    && Quiet(s) && LeavesTable(s)
    && (match DataAccess(s) case Some(Store(va, w, _)) => MissesFrames(m, va, w) case _ => true)
  }

  // ---------- one step of a handler ----------

  lemma StoreOutside(m: MsrFile, ram: seq<Byte>, pa: Word, w: Width, v: Word)
    requires DistinctFrames(m, |ram|) && pa + w.Bytes() <= |ram| && MissesFrames(m, pa, w)
    ensures Flat(m, StoreRam(ram, pa, w, v)) == Flat(m, ram)
  {
    var ram' := StoreRam(ram, pa, w, v);
    forall y: Word | Mapped(m, y)
      ensures FlatByte(m, ram', y) == FlatByte(m, ram, y)
    {
      MappedIsLive(m, y, |ram|);
      hide StoreRam, DistinctFrames, Live, Mapped, Frame;
      StoreByte(ram, Write(pa, w, v), PaOf(m, y));
    }
    hide StoreRam, DistinctFrames, MissesFrames, FlatByte, Mapped;
  }

  lemma BusStoreOutside(c: Cpu, pa: Word, w: Width, v: Word, c': Cpu, m: MsrFile)
    requires BusStore(c, pa, w, v) == Ok(c') && DistinctFrames(m, |c.ram|) && MissesFrames(m, pa, w)
    ensures |c'.ram| == |c.ram| && Flat(m, c'.ram) == Flat(m, c.ram)
  {
    hide DistinctFrames, MissesFrames, Flat, StoreRam;
    if c'.ram != c.ram {
      StoreOutside(m, c.ram, pa, w, v);
    }
  }

  lemma StoreInsnOutside(c: Cpu, w: Width, ins: Word, n: Next, m: MsrFile)
    requires ExecStore(c, w, ins) == Ok(n) && !n.Raised? && !c.msr.psr.dmme && DistinctFrames(m, |c.ram|)
    requires Rd(ins) < 32 ==> MissesFrames(m, Wrap(RegValue(c, Rd(ins)) + Simm14(ins)), w)
    ensures |n.cpu.ram| == |c.ram| && Flat(m, n.cpu.ram) == Flat(m, c.ram)
  {
    hide BusStore, DistinctFrames, MissesFrames, Flat, Simm14, Rd, Rs1, RaiseException;
    var va := Wrap(RegValue(c, Rd(ins)) + Simm14(ins));
    BusStoreOutside(c, va, w, RegValue(c, Rs1(ins)), n.cpu, m);
  }

  lemma DiscreetStep(s: Cpu, s': Cpu, m: MsrFile, psr: Psr, epc: Word)
    requires InHandler(s.msr, psr, epc) && Discreet(s, m) && Retires(s, s')
    requires SameBanks(m, s.msr) && DistinctFrames(m, |s.ram|)
    ensures SameBanks(m, s'.msr)
    ensures |s'.ram| == |s.ram| && Flat(m, s'.ram) == Flat(m, s.ram)
  {
    hide Step, Execute, ExecStore, ExecLoad, Flat, DistinctFrames, Fetched, Sound, MissesFrames, LeavesTable, Quiet,
         MsrMoves, Opcode, Simm14, Rd, Rs1, LoadRam, TscClk;
    TableAfter(s, s');
    TickFrame(s.msr);
    StepFrame(s, s');
    var ins, n := RetiringStep(s, s');
    TickKeepsRest(s);
    if StoreWidth(Opcode(ins)).Some? {
      var w := StoreWidth(Opcode(ins)).value;
      MemoryInsns(Tick(s), ins);
      StoreRegisters(Tick(s), w, ins, n);
      StoreAccess(s, w, ins);
      hide InsnAccess;
      StoreInsnOutside(Tick(s), w, ins, n, m);
    }
  }

  lemma StoreRegisters(c: Cpu, w: Width, ins: Word, n: Next)
    requires ExecStore(c, w, ins) == Ok(n) && !n.Raised?
    ensures Rd(ins) < 32 && Rs1(ins) < 32
  {
    hide BusStore, Dmmu, Simm14, Rd, Rs1, RaiseException;
  }

  // ---------- a whole handler ----------

  lemma {:induction false} DiscreetRun(h: Cpu, n: nat, m: MsrFile, psr: Psr, epc: Word)
    requires InHandler(h.msr, psr, epc) && After(h, n).Ok?
    requires SameBanks(m, h.msr) && DistinctFrames(m, |h.ram|)
    requires forall k: nat | k < n && After(h, k).Ok? :: Discreet(At(h, k), m)
    ensures SameBanks(m, At(h, n).msr)
    ensures |At(h, n).ram| == |h.ram| && Flat(m, At(h, n).ram) == Flat(m, h.ram)
  {
    if n > 0 {
      QuietRun(h, n, psr, epc);
      hide Step, Quiet, InHandler, Discreet, DistinctFrames, Flat, SameBanks, Traps, Fetched;
      DiscreetRun(h, n - 1, m, psr, epc);
      var s := At(h, n - 1);
      RetiresUnlessTraps(s);
      DiscreetStep(s, At(h, n), m, psr, epc);
    }
  }

  /** The exception a step takes is handled in `n` discreet steps and a RET. */
  ghost predicate DiscreetHandler(c: Cpu, t: Trap, n: nat) {
    var h := Entry(c, t);
    && After(h, n).Ok? && QuietHandler(h, n, At(h, n))
    && forall k: nat | k < n && After(h, k).Ok? :: Discreet(At(h, k), c.msr)
  }

  lemma EntryIsHandler(c: Cpu, t: Trap)
    ensures var h := Entry(c, t);
            InHandler(h.msr, c.msr.psr, ResumePc(c, t)) && SameBanks(c.msr, h.msr)
  {
    TickFrame(c.msr);
    hide TscClk;
  }

  /** Such a handler is invisible: the interrupted program goes on with the
      byte map it had. */
  lemma HandlerIsInvisible(c: Cpu, t: Trap, n: nat, e: Cpu)
    requires FlatReady(c) && Cause(c) == Some(t) && DiscreetHandler(c, t, n) && e == At(Entry(c, t), n)
    ensures After(c, n + 2) == Ok(Resumed(c, t, e))
    ensures FlatReady(Resumed(c, t, e)) && Flat(Resumed(c, t, e).msr, e.ram) == Flat(c.msr, c.ram)
  {
    hide Step, Cause, Discreet, Quiet, RetAt, InHandler, DistinctFrames, Flat, TscClk, Entry, Fetched;
    var h := Entry(c, t);
    EntryIsHandler(c, t);
    EntryKeeps(c, t);
    HandlerTransparency(c, t, n, e);
    DiscreetRun(h, n, c.msr, c.msr.psr, ResumePc(c, t));
    assert After(c, 1) == Ok(h);
    AfterAfter(c, 1, n);
    assert After(c, n + 2) == Ok(Resumed(c, t, e));
    TickFrame(e.msr);
    FlatDepends(c.msr, Resumed(c, t, e).msr, e.ram);
  }

  // ---------- a program with its exceptions ----------

  /** What a program does next: an instruction, or an exception and the `steps`
      of its handler. */
  datatype Episode = Insn | Exception(steps: nat)

  function Duration(es: seq<Episode>): nat {
    if es == [] then 0
    else Duration(es[..|es| - 1]) + match es[|es| - 1] case Insn => 1 case Exception(n) => n + 2
  }

  ghost predicate Follows(c: Cpu, ep: Episode) {
    match ep
    case Insn => Undisturbed(c) && !Traps(c)
    case Exception(n) => Cause(c).Some? && DiscreetHandler(c, Cause(c).value, n)
  }

  /** The run from `c` consists of these episodes. */
  ghost predicate Schedule(c: Cpu, es: seq<Episode>) {
    && After(c, Duration(es)).Ok?
    && (es == [] || (Schedule(c, es[..|es| - 1]) && Follows(Point(c, es[..|es| - 1]), es[|es| - 1])))
  }

  /** The state in which the program goes on after them. */
  function Point(c: Cpu, es: seq<Episode>): Cpu
    requires After(c, Duration(es)).Ok?
  {
    At(c, Duration(es))
  }

  /** The map `flat` becomes by the program's own stores. */
  ghost function FlatThrough(flat: imap<Word, Byte>, c: Cpu, es: seq<Episode>): imap<Word, Byte>
    requires Schedule(c, es)
  {
    if es == [] then flat
    else
      var init := es[..|es| - 1];
      if es[|es| - 1].Insn? then FlatApply(FlatThrough(flat, c, init), DataAccess(Point(c, init)))
      else FlatThrough(flat, c, init)
  }

  /** Each of the program's loads returns what the map holds by then. */
  ghost predicate LoadsAgree(flat: imap<Word, Byte>, c: Cpu, es: seq<Episode>)
    requires Schedule(c, es)
  {
    es == [] ||
    var init := es[..|es| - 1];
    && LoadsAgree(flat, c, init)
    && (es[|es| - 1].Insn? ==> LoadReturns(Point(c, init), Point(c, es), FlatThrough(flat, c, init)))
  }

  lemma EpisodeKeepsFlat(c: Cpu, ep: Episode, c': Cpu)
    requires FlatReady(c) && Follows(c, ep) && After(c, if ep.Insn? then 1 else ep.steps + 2) == Ok(c')
    ensures FlatReady(c')
    ensures Flat(c'.msr, c'.ram)
         == if ep.Insn? then FlatApply(Flat(c.msr, c.ram), DataAccess(c)) else Flat(c.msr, c.ram)
    ensures ep.Insn? ==> LoadReturns(c, c', Flat(c.msr, c.ram))
  {
    hide Step, FlatReady, Flat, FlatApply, Undisturbed, LoadReturns, DataAccess, Traps, Cause, DiscreetHandler, Resumed;
    match ep {
      case Insn =>
        assert After(c, 0) == Ok(c);
        RetiresUnlessTraps(c);
        FlatStep(c, c');
      case Exception(n) =>
        var t := Cause(c).value;
        HandlerStarts(c, t, n);
        HandlerIsInvisible(c, t, n, At(Entry(c, t), n));
        ResumedRam(c, t, At(Entry(c, t), n));
    }
  }

  lemma HandlerStarts(c: Cpu, t: Trap, n: nat)
    requires DiscreetHandler(c, t, n)
    ensures After(Entry(c, t), n).Ok?
  {
    hide Entry, QuietHandler, Discreet, Step;
  }

  lemma ResumedRam(c: Cpu, t: Trap, e: Cpu)
    ensures Resumed(c, t, e).ram == e.ram
  {
    hide TscClk;
  }

  /** Virtual memory is flat memory across exceptions: over any run made of
      undisturbed instructions and of exceptions of every kind, each handled by
      discreet steps and a RET, the program's memory is the byte map its own
      stores built, and each of its loads returns what that map holds. */
  lemma {:induction false} PreemptedMemoryIsFlat(c: Cpu, es: seq<Episode>)
    requires FlatReady(c) && Schedule(c, es)
    ensures FlatReady(Point(c, es))
    ensures Flat(Point(c, es).msr, Point(c, es).ram) == FlatThrough(Flat(c.msr, c.ram), c, es)
    ensures LoadsAgree(Flat(c.msr, c.ram), c, es)
  {
    hide Step, FlatReady, Flat, FlatApply, LoadReturns, DataAccess, Follows;
    if es == [] {
    } else {
      var init, ep := es[..|es| - 1], es[|es| - 1];
      PreemptedMemoryIsFlat(c, init);
      AfterAfter(c, Duration(init), if ep.Insn? then 1 else ep.steps + 2);
      EpisodeKeepsFlat(Point(c, init), ep, Point(c, es));
    }
  }
}
