/** A program reading the disk through the processor: half-word loads from the
    data register, whatever else runs in between (exec.c:323-344,
    memory-mmio.c:74-84, device-ata.c:469-502). */
module DiskReads {
  import opened Words
  import opened Msr
  import opened Interrupts
  import opened Mmu
  import opened Memory
  import opened Mmio
  import opened Decode
  import opened Exec
  import opened Precise
  import opened Runs
  import Ata
  import AtaRead

  /** The step executes a half-word load whose address translates to the data
      register. */
  predicate LoadsData(c: Cpu) {
    && Fetched(c).Some?
    && LoadWidth(Opcode(Fetched(c).value)) == Some(W16) && Rs1(Fetched(c).value) < 32
    && Dmmu(TscClk(c.msr), Wrap(RegValue(c, Rs1(Fetched(c).value)) + Simm14(Fetched(c).value)), false) == Hit(ATA_BASE)
  }

  lemma DataBus(c: Cpu)
    ensures BusLoad(c, ATA_BASE, W16)
         == match Ata.ReadReg16(AtaBus(c), ATA_BASE)
            case Ok(r) => Ok(Loaded(WithBus(c, r.bus), r.value))
            case Panic => Panic
            case Undefined => Undefined
  {
    hide Ata.ReadReg16;
    assert Match(DOMAIN16, ATA_BASE, false) == Some(DOMAIN16[0]);
  }

  /** The value a load of one step put into its destination register. */
  predicate Delivers(c: Cpu, c': Cpu, v: Word) {
    Fetched(c).Some? && var rd := Rd(Fetched(c).value); rd < 32 && (rd != 0 ==> c'.regs[rd] == v)
  }

  lemma LoadInsn(c: Cpu, ins: Word, n: Next, r: Ata.ReadOut)
    requires Execute(c, ins) == Ok(n) && !n.Raised? && LoadWidth(Opcode(ins)) == Some(W16) && Rs1(ins) < 32
    requires Dmmu(c.msr, Wrap(RegValue(c, Rs1(ins)) + Simm14(ins)), false) == Hit(ATA_BASE)
    requires Ata.ReadReg16(AtaBus(c), ATA_BASE) == Ok(r)
    ensures n == Fall(n.cpu) && n.cpu.ata == r.bus.dev && n.cpu.msr == c.msr.(irr := r.bus.irr)
    ensures Rd(ins) < 32 && (Rd(ins) != 0 ==> n.cpu.regs[Rd(ins)] == r.value)
  {
    hide Dmmu, BusLoad, Simm14, Opcode, Rd, Rs1, Ata.ReadReg16, ExecAlu, RaiseException;
    DataBus(c);
    assert Execute(c, ins) == ExecLoad(c, W16, ins);
    hide Execute;
  }

  /** A retired load from the data register delivers what the device reads and
      leaves the device and its interrupt line as that read does. */
  lemma LoadReadsDevice(c: Cpu, c': Cpu, r: Ata.ReadOut)
    requires Retires(c, c') && LoadsData(c) && Ata.ReadReg16(AtaBus(Tick(c)), ATA_BASE) == Ok(r)
    ensures c'.ata == r.bus.dev && c'.msr.irr == r.bus.irr && Delivers(c, c', r.value)
  {
    hide Step, Execute, Fetched, Opcode, Rd, Rs1, Simm14, Dmmu, TscClk, Ata.ReadReg16;
    TickKeepsRest(c);
    var ins, nx := RetiringStep(c, c');
    LoadInsn(Tick(c), ins, nx, r);
  }

  lemma StreamingBound(d: Ata.Device, s: nat, n: nat, k: nat)
    requires AtaRead.Streaming(d, s, n, k)
    ensures k < 256 * n
  {
    hide Ata.GetSector;
  }

  /** A retired load from the data register during a READ SECTORS transfer
      takes the next word of the disk and moves the transfer on. */
  lemma LoadTakesNextWord(c: Cpu, c': Cpu, s: nat, n: nat, k: nat)
    requires Retires(c, c') && LoadsData(c)
    requires AtaRead.Streaming(c.ata, s, n, k) && s + n <= Ata.DISK_SECTORS && |c.ata.disk| == Ata.DISK_WORDS
    ensures AtaRead.SectorsAt(c'.ata, s, n, k + 1) && c'.ata.disk == c.ata.disk
    ensures 256 * s + k < Ata.DISK_WORDS && Delivers(c, c', c.ata.disk[256 * s + k])
  {
    hide Step, LoadsData, TscClk, Ata.ReadReg16, AtaRead.Streaming, AtaRead.SectorsAt, Delivers;
    StreamingBound(c.ata, s, n, k);
    TickKeepsRest(c);
    var b := AtaBus(Tick(c));
    hide Tick;
    AtaRead.StreamStep(b, s, n, k, ATA_BASE);
    LoadReadsDevice(c, c', Ata.ReadReg16(b, ATA_BASE).value);
  }

  /** The step leaves the device alone. */
  predicate Neutral(c: Cpu) {
    Step(c).Ok? && Step(c).value.cpu.ata == c.ata
  }

  /** The access is refused by translation, loads a byte or a word, or lies
      outside the device. */
  predicate SparesDevice(m: MsrFile, r: Option<Request>) {
    match r
    case None => true
    case Some(Load(va, w)) => Dmmu(m, va, false).Hit? && w == W16 ==> !InAta(Dmmu(m, va, false).pa)
    case Some(Store(va, w, v)) => Dmmu(m, va, true).Hit? ==> !InAta(Dmmu(m, va, true).pa)
  }

  predicate InAta(pa: Word) {
    ATA_BASE <= pa <= ATA_LAST
  }

  lemma BusSparesDevice(c: Cpu, pa: Word, w: Width)
    requires w == W16 ==> !InAta(pa)
    ensures BusLoad(c, pa, w).Ok? ==> BusLoad(c, pa, w).value.cpu.ata == c.ata
  {
    hide LoadRam, Match, Ata.ReadReg8, Ata.ReadReg16;
    if pa >= MMIO_PHY_BASE && Match(Domain(w), pa, false).Some? {
      HandlerFits(w, pa, false);
      MatchIsFirst(Domain(w), pa, false);
      if w == W8 && Ata.ReadReg8(AtaBus(c), pa).Ok? {
        Ata.PollKeepsDevice(AtaBus(c), pa);
      }
    }
  }

  lemma BusStoreSparesDevice(c: Cpu, pa: Word, w: Width, v: Word)
    requires !InAta(pa)
    ensures BusStore(c, pa, w, v).Ok? ==> BusStore(c, pa, w, v).value.ata == c.ata
  {
    hide StoreRam, Match, Ata.WriteReg8;
    if pa >= MMIO_PHY_BASE && Match(Domain(w), pa, true).Some? {
      HandlerFits(w, pa, true);
      MatchIsFirst(Domain(w), pa, true);
    }
  }

  lemma MemorySparesDevice(c: Cpu, ins: Word, n: Next)
    requires LoadWidth(Opcode(ins)).Some? || StoreWidth(Opcode(ins)).Some?
    requires Execute(c, ins) == Ok(n) && !n.Raised? && SparesDevice(c.msr, InsnAccess(c, ins))
    ensures n.cpu.ata == c.ata
  {
    hide BusLoad, BusStore, Dmmu, Simm14, RaiseException, Opcode, Rd, Rs1, ExecAlu, InAta;
    var op := Opcode(ins);
    if LoadWidth(op).Some? {
      var w := LoadWidth(op).value;
      var va := Wrap(GetReg(c, Rs1(ins)).value + Simm14(ins));
      BusSparesDevice(c, Dmmu(c.msr, va, false).pa, w);
    } else {
      var w := StoreWidth(op).value;
      var va := Wrap(GetReg(c, Rd(ins)).value + Simm14(ins));
      BusStoreSparesDevice(c, Dmmu(c.msr, va, true).pa, w, GetReg(c, Rs1(ins)).value);
    }
  }

  lemma OtherSparesDevice(c: Cpu, ins: Word, n: Next)
    requires LoadWidth(Opcode(ins)).None? && StoreWidth(Opcode(ins)).None?
    requires Execute(c, ins) == Ok(n) && !n.Raised?
    ensures n.cpu.ata == c.ata
  {
    hide AluValue, SecondOperand, Wmsr, Rmsr, RaiseException, PcRelative, MsrIndex, Opcode, Rd, Rs1, Rs2, Attr, AluOf,
         LoadWidth, StoreWidth, ExecLoad, ExecStore;
  }

  lemma AccessOfTick(c: Cpu, ins: Word)
    ensures InsnAccess(Tick(c), ins) == InsnAccess(c, ins)
  {
    hide TscClk, Opcode, Simm14, Rd, Rs1;
  }

  /** A condition read off before the step that leaves the device alone: the
      step takes an exception, or its data access, if any, is a load of a byte
      (a poll of a register) or a word (which never returns from the device), or
      goes outside the device. */
  lemma NeutralBefore(c: Cpu)
    requires Step(c).Ok? && (Cause(c).Some? || SparesDevice(TscClk(c.msr), DataAccess(c)))
    ensures Neutral(c)
  {
    hide Step, Execute, Cause, Fetched, TscClk, SparesDevice, InsnAccess;
    PreciseExceptions(c);
    if Cause(c).Some? {
      EntryKeeps(c, Cause(c).value);
    } else {
      RetiresUnlessTraps(c);
      var ins, n := RetiringStep(c, Step(c).value.cpu);
      TickKeepsRest(c);
      AccessOfTick(c, ins);
      if LoadWidth(Opcode(ins)).Some? || StoreWidth(Opcode(ins)).Some? {
        MemorySparesDevice(Tick(c), ins, n);
      } else {
        OtherSparesDevice(Tick(c), ins, n);
      }
    }
  }

  /** Data loads retired in the first `n` steps. */
  function LoadCount(c: Cpu, n: nat): nat {
    if n == 0 then 0
    else
      match After(c, n - 1)
      case Ok(s) => LoadCount(c, n - 1) + (if LoadsData(s) && !Traps(s) then 1 else 0)
      case _ => LoadCount(c, n - 1)
  }

  /** The load of step `i`, if it is one, delivers its word of the disk. */
  ghost predicate WordAt(c: Cpu, i: nat, s: nat, disk: seq<Half>) {
    && After(c, i).Ok? && Step(At(c, i)).Ok?
    && (LoadsData(At(c, i)) && !Traps(At(c, i)) ==>
          var k := 256 * s + LoadCount(c, i);
          k < |disk| && Delivers(At(c, i), Step(At(c, i)).value.cpu, disk[k]))
  }

  /** Over any run in which every step either loads from the data register or
      leaves the device alone, and no more words are loaded than the command
      asked for, the loads deliver the disk's words from the first addressed
      sector on, in order, and the device shows exactly that progress. */
  lemma {:induction false} ProgramReadsDisk(c: Cpu, m: nat, s: nat, n: nat)
    requires n > 0 && AtaRead.SectorsAt(c.ata, s, n, 0)
    requires s + n <= Ata.DISK_SECTORS && |c.ata.disk| == Ata.DISK_WORDS
    requires After(c, m).Ok? && LoadCount(c, m) <= 256 * n
    requires forall i: nat | i < m && After(c, i).Ok? ::
               (LoadsData(At(c, i)) && !Traps(At(c, i))) || Neutral(At(c, i))
    ensures AtaRead.SectorsAt(At(c, m).ata, s, n, LoadCount(c, m)) && At(c, m).ata.disk == c.ata.disk
    ensures forall i: nat | i < m :: WordAt(c, i, s, c.ata.disk)
  {
    hide Step, LoadsData, Traps, AtaRead.SectorsAt, Delivers;
    if m > 0 {
      ProgramReadsDisk(c, m - 1, s, n);
      var p, p' := At(c, m - 1), At(c, m);
      var k := LoadCount(c, m - 1);
      if LoadsData(p) && !Traps(p) {
        RetiresUnlessTraps(p);
        StillStreaming(p.ata, s, n, k);
        LoadTakesNextWord(p, p', s, n, k);
      }
      assert WordAt(c, m - 1, s, c.ata.disk);
      hide WordAt;
    }
  }

  lemma StillStreaming(d: Ata.Device, s: nat, n: nat, k: nat)
    requires AtaRead.SectorsAt(d, s, n, k) && k < 256 * n
    ensures AtaRead.Streaming(d, s, n, k)
  {
    hide AtaRead.Streaming, AtaRead.Finished;
  }
}
