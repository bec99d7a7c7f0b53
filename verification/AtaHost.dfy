/** What a host sees and does through the task-file registers of device-ata.c:
    addressing, polls, interrupts, soft reset and identification, over access
    sequences (device-ata.c:221-502). */
module AtaHost {
  import opened Words
  import opened Ata
  import opened AtaRead
  import MsrLaws

  /** An address at which the device's registers may be mapped. */
  predicate DeviceBase(base: Word) {
    base % 0x1000 == 0 && base <= 0xffff_f000
  }

  /** The address of the register at an offset. */
  function Reg(base: Word, off: nat): (addr: Word)
    requires DeviceBase(base) && off < 0x1000
    ensures addr % 0x1000 == off
  {
    base + off
  }

  // ---------- register bits ----------

  /** The device's flags are the bits the host writes and reads. */
  lemma DeviceBits(d: Device)
    ensures d.Rst() == Bit(d.control, 2) && d.InterruptsOff() == Bit(d.control, 1)
    ensures d.LbaMode() == Bit(d.driverHead, 6)
    ensures d.Drq() == Bit(d.status, 3) && d.Bsy() == Bit(d.status, 7)
  {
    BitWeights();
    hide Pow2, Bit;
    MsrLaws.FlagIsBit(d.control, 1);
    MsrLaws.FlagIsBit(d.control, 2);
    MsrLaws.FlagIsBit(d.driverHead, 6);
    MsrLaws.FlagIsBit(d.status, 3);
    MsrLaws.FlagIsBit(d.status, 7);
  }

  /** Raising the device's line, unless the host turned interrupts off. */
  lemma InterruptBits(b: Bus, k: nat)
    requires k < 32
    ensures Interrupt(b).dev == b.dev
    ensures Bit(Interrupt(b).irr, k) == (Bit(b.irr, k) || (k == 3 && !Bit(b.dev.control, 1)))
  {
    DeviceBits(b.dev);
    SetLineBit(b.irr, 3, true, k);
    hide SetLine, Bit;
  }

  // ---------- polls ----------

  predicate Polls(b: Bus, addr: Word, v: Byte) {
    ReadReg8(b, addr).Ok? && ReadReg8(b, addr).value.value == v
  }

  /** The status register and its alternate show the same byte; reading the
      status withdraws the device's interrupt and no other, reading the
      alternate changes nothing. */
  lemma StatusPolls(b: Bus, base: Word, k: nat)
    requires DeviceBase(base) && b.dev.drv && k < 32
    ensures Polls(b, Reg(base, 0x1c), b.dev.status) && Polls(b, Reg(base, 0x100), b.dev.status)
    ensures ReadReg8(b, Reg(base, 0x100)).value.bus == b
    ensures var r := ReadReg8(b, Reg(base, 0x1c)).value.bus;
            r.dev == b.dev && Bit(r.irr, k) == (k != 3 && Bit(b.irr, k))
  {
    SetLineBit(b.irr, 3, false, k);
    hide SetLine, Bit;
  }

  /** The other polls change nothing, and the four address bytes read back are
      the sector the device would transfer. */
  lemma AddressPolls(b: Bus, base: Word) returns (v0: Byte, v1: Byte, v2: Byte, v3: Byte)
    requires DeviceBase(base) && b.dev.drv && Bit(b.dev.driverHead, 6)
    ensures ReadReg8(b, Reg(base, 0x0c)) == Ok(ReadOut(b, v0))
    ensures ReadReg8(b, Reg(base, 0x10)) == Ok(ReadOut(b, v1))
    ensures ReadReg8(b, Reg(base, 0x14)) == Ok(ReadOut(b, v2))
    ensures ReadReg8(b, Reg(base, 0x18)) == Ok(ReadOut(b, v3))
    ensures GetSector(b.dev) == Ok(BytesSector(v0, v1, v2, v3))
  {
    DeviceBits(b.dev);
    hide SetLine, Bit, Reg;
    v0, v1, v2, v3 := b.dev.sectorNumber, b.dev.cylinderLow, b.dev.cylinderHigh, b.dev.driverHead;
  }

  /** A sector number from its bytes, least significant first, and the low four
      bits of the drive register. */
  function BytesSector(v0: Byte, v1: Byte, v2: Byte, v3: Byte): Word {
    v0 as int + 0x100 * v1 as int + 0x1_0000 * v2 as int + 0x100_0000 * (v3 as int % 0x10)
  }

  /** The count and error registers. */
  lemma CountPolls(b: Bus, base: Word)
    requires DeviceBase(base) && b.dev.drv
    ensures ReadReg8(b, Reg(base, 0x08)) == Ok(ReadOut(b, b.dev.sectorCount % 0x100))
    ensures ReadReg8(b, Reg(base, 0x04)) == Ok(ReadOut(b, b.dev.error))
  {
    hide SetLine, Reg;
  }

  /** The register at the error register's offset is another one for writes: a
      feature write shows in no poll and starts nothing. */
  lemma FeatureIsHidden(b: Bus, base: Word, v: Byte, off: nat)
    requires DeviceBase(base) && off < 0x1000
    ensures var w := WriteReg8(b, Reg(base, 0x04), v);
            && w.Ok? && w.value.irr == b.irr
            && (ReadReg8(b, Reg(base, off)).Ok? <==> ReadReg8(w.value, Reg(base, off)).Ok?)
            && (ReadReg8(b, Reg(base, off)).Ok? ==>
                  ReadReg8(w.value, Reg(base, off)).value.value == ReadReg8(b, Reg(base, off)).value.value)
  {
    hide SetLine, Reg;
  }

  // ---------- a drive that is not there ----------

  /** Selecting drive 0: every poll reads 0xff, and every write but those to
      the drive and control registers is ignored, until drive 1 is selected. */
  lemma AbsentDrive(b: Bus, base: Word, head: Byte, addr: Word, v: Byte)
    requires DeviceBase(base) && Bit(head, 4)
    ensures var s := WriteReg8(b, Reg(base, 0x18), head);
            && s.Ok? && s.value == b.(dev := b.dev.(driverHead := head, drv := false))
            && ReadReg8(s.value, addr) == Ok(ReadOut(s.value, 0xff))
            && (addr % 0x1000 !in {0x18, 0x100} ==> WriteReg8(s.value, addr, v) == Ok(s.value))
  {
    SelectBit(head);
    hide SetLine, Bit;
  }

  lemma SelectBit(head: Byte)
    ensures Bit(head, 4) <==> head / 0x10 % 2 == 1
  {
    BitWeights();
    hide Pow2, Bit;
    MsrLaws.FlagIsBit(head, 4);
  }

  // ---------- addressing ----------

  /** A sector address as a host writes it, least significant byte first. */
  datatype Target = Target(count: Byte, b0: Byte, b1: Byte, b2: Byte, b3: nat)
  {
    predicate Fits() {
      b3 < 16 && Sector() + Sectors() <= DISK_SECTORS
    }

    function Sector(): nat
      requires b3 < 16
    {
      BytesSector(b0, b1, b2, 0x40 + b3)
    }

    /** A count of 0 asks for 256 sectors. */
    function Sectors(): nat {
      if count == 0 then 256 else count
    }
  }

  /** The writes of a host that addresses sectors in LBA mode on drive 1. */
  function AddressWrites(base: Word, t: Target): seq<Access>
    requires DeviceBase(base) && t.b3 < 16
  {
    [Write8(Reg(base, 0x08), t.count), Write8(Reg(base, 0x0c), t.b0), Write8(Reg(base, 0x10), t.b1),
     Write8(Reg(base, 0x14), t.b2), Write8(Reg(base, 0x18), 0x40 + t.b3)]
  }

  lemma CollectSnoc(b: Bus, hs: seq<Access>, h: Access, s: Stream)
    requires Collect(b, hs) == Ok(s)
    ensures Collect(b, hs + [h]) == CollectOne(s, h)
  {
    assert (hs + [h])[..|hs|] == hs;
    hide CollectOne;
  }

  /** The device after the five writes. */
  function TargetSet(d: Device, t: Target): Device
    requires t.b3 < 16
  {
    d.(sectorCount := t.count, sectorNumber := t.b0, cylinderLow := t.b1, cylinderHigh := t.b2,
       driverHead := 0x40 + t.b3, drv := true)
  }

  lemma FiveWrites(b: Bus, base: Word, t: Target)
    requires DeviceBase(base) && t.b3 < 16 && b.dev.drv
    ensures Collect(b, AddressWrites(base, t)) == Ok(Stream(b.(dev := TargetSet(b.dev, t)), []))
  {
    hide WriteReg8, Collect;
    var hs := AddressWrites(base, t);
    var b1 := b.(dev := b.dev.(sectorCount := t.count));
    var b2 := b1.(dev := b1.dev.(sectorNumber := t.b0));
    var b3 := b2.(dev := b2.dev.(cylinderLow := t.b1));
    var b4 := b3.(dev := b3.dev.(cylinderHigh := t.b2));
    var b5 := b4.(dev := b4.dev.(driverHead := 0x40 + t.b3, drv := true));
    AddressWrite(b, base, t);
    AddressWrite(b1, base, t);
    AddressWrite(b2, base, t);
    AddressWrite(b3, base, t);
    HeadWrite(b4, base, t.b3);
    hide Reg;
    CollectNone(b);
    CollectSnoc(b, [], hs[0], Stream(b, []));
    CollectSnoc(b, [] + [hs[0]], hs[1], Stream(b1, []));
    CollectSnoc(b, [] + [hs[0]] + [hs[1]], hs[2], Stream(b2, []));
    CollectSnoc(b, [] + [hs[0]] + [hs[1]] + [hs[2]], hs[3], Stream(b3, []));
    CollectSnoc(b, [] + [hs[0]] + [hs[1]] + [hs[2]] + [hs[3]], hs[4], Stream(b4, []));
    assert hs == [] + [hs[0]] + [hs[1]] + [hs[2]] + [hs[3]] + [hs[4]];
  }

  lemma AddressWrite(b: Bus, base: Word, t: Target)
    requires DeviceBase(base) && b.dev.drv
    ensures WriteReg8(b, Reg(base, 0x08), t.count) == Ok(b.(dev := b.dev.(sectorCount := t.count)))
    ensures WriteReg8(b, Reg(base, 0x0c), t.b0) == Ok(b.(dev := b.dev.(sectorNumber := t.b0)))
    ensures WriteReg8(b, Reg(base, 0x10), t.b1) == Ok(b.(dev := b.dev.(cylinderLow := t.b1)))
    ensures WriteReg8(b, Reg(base, 0x14), t.b2) == Ok(b.(dev := b.dev.(cylinderHigh := t.b2)))
  {
    hide Reg, WriteCommand;
  }

  lemma HeadWrite(b: Bus, base: Word, b3: nat)
    requires DeviceBase(base) && b3 < 16
    ensures WriteReg8(b, Reg(base, 0x18), 0x40 + b3)
         == Ok(b.(dev := b.dev.(driverHead := 0x40 + b3, drv := true)))
  {
    hide Reg, WriteCommand;
  }

  lemma CollectNone(b: Bus)
    ensures Collect(b, []) == Ok(Stream(b, []))
  {
  }

  lemma TargetIsAddressed(d: Device, t: Target)
    requires t.Fits() && |d.disk| == DISK_WORDS
    ensures Addressed(TargetSet(d, t), t.Sector(), t.Sectors())
  {
    var v: Byte := 0x40 + t.b3;
    assert v / 0x40 % 2 == 1;
    assert GetSector(TargetSet(d, t)) == Ok(BytesSector(t.b0, t.b1, t.b2, v));
    hide GetSector, BytesSector;
  }

  /** The five writes address the sector whose little-endian bytes they carry,
      on any device selected as drive 1. */
  lemma HostAddresses(b: Bus, base: Word, t: Target)
    requires DeviceBase(base) && t.Fits() && b.dev.drv && |b.dev.disk| == DISK_WORDS
    ensures Collect(b, AddressWrites(base, t)).Ok?
    ensures var b' := Collect(b, AddressWrites(base, t)).value.bus;
            Addressed(b'.dev, t.Sector(), t.Sectors()) && b'.dev.disk == b.dev.disk && b'.irr == b.irr
  {
    FiveWrites(b, base, t);
    TargetIsAddressed(b.dev, t);
    hide Collect, AddressWrites;
  }

  // ---------- whole transfers ----------

  /** What follows a prefix that delivered no words. */
  lemma {:induction false} CollectAfter(b: Bus, xs: seq<Access>, b': Bus, ys: seq<Access>)
    requires Collect(b, xs) == Ok(Stream(b', []))
    ensures Collect(b, xs + ys) == Collect(b', ys)
    decreases |ys|
  {
    hide CollectOne;
    if ys == [] {
      assert xs + ys == xs;
    } else {
      var n := |ys| - 1;
      CollectAfter(b, xs, b', ys[..n]);
      assert (xs + ys)[..|xs + ys| - 1] == xs + ys[..n];
    }
  }

  /** Address, command and reads in one access sequence: for every sector and
      count, every driver gets the words of those sectors in order, from READ
      SECTORS (0x20) and READ MULTIPLE (0xc4) alike. */
  lemma HostReads(b: Bus, base: Word, t: Target, cmd: Byte, hs: seq<Access>)
    requires DeviceBase(base) && t.Fits() && b.dev.drv && |b.dev.disk| == DISK_WORDS && cmd in {0x20, 0xc4}
    requires (forall h | h in hs :: DriverAccess(h)) && DataReads(hs) <= 256 * t.Sectors()
    ensures var run := Collect(b, AddressWrites(base, t) + [Write8(Reg(base, 0x1c), cmd)] + hs);
            && run.Ok?
            && run.value.words == Window(b.dev.disk, 256 * t.Sector(), DataReads(hs))
            && (Bit(run.value.bus.dev.status, 3) <==> DataReads(hs) < 256 * t.Sectors())
  {
    hide Collect, WriteReg8, AddressWrites, Window, DriverAccess, DataReads, Bit, TransferShows;
    FiveWrites(b, base, t);
    TargetIsAddressed(b.dev, t);
    var b1 := b.(dev := TargetSet(b.dev, t));
    var start := WriteReg8(b1, Reg(base, 0x1c), cmd);
    var s, n := t.Sector(), t.Sectors();
    if cmd == 0x20 {
      ReadSectors(b1, Reg(base, 0x1c), hs, s, n);
      ShownByDrq(Collect(start.value, hs).value.bus.dev, s, n, DataReads(hs));
    } else {
      ReadMultiple(b1, Reg(base, 0x1c), hs, s, n);
    }
    DeviceBits(Collect(start.value, hs).value.bus.dev);
    CollectSnoc(b, AddressWrites(base, t), Write8(Reg(base, 0x1c), cmd), Stream(b1, []));
    CollectAfter(b, AddressWrites(base, t) + [Write8(Reg(base, 0x1c), cmd)], start.value, hs);
  }

  lemma ShownByDrq(d: Device, s: nat, n: nat, k: nat)
    requires TransferShows(d, s, n, k)
    ensures d.Drq() <==> k < 256 * n
  {
  }

  // ---------- commands ----------

  /** The read commands, IDENTIFY and the parameter command interrupt the host
      unless it turned interrupts off; the write commands open the same window
      as the reads and do not. */
  lemma CommandLines(b: Bus, base: Word, cmd: Byte, k: nat)
    requires DeviceBase(base) && b.dev.drv && k < 32
    requires WriteReg8(b, Reg(base, 0x1c), cmd).Ok?
    ensures cmd in {0x20, 0x30, 0x91, 0xc4, 0xc5, 0xec}
    ensures var b' := WriteReg8(b, Reg(base, 0x1c), cmd).value;
            Bit(b'.irr, k) == (Bit(b.irr, k) || (k == 3 && cmd !in {0x30, 0xc5} && !Bit(b.dev.control, 1)))
  {
    hide SetLine, Bit, GetSector, OpenWindow, Interrupt;
    var r := WriteReg8(b, Reg(base, 0x1c), cmd);
    assert r == WriteCommand(b, cmd);
    CommandInterrupts(b, cmd);
    InterruptBits(b, k);
  }

  lemma CommandInterrupts(b: Bus, cmd: Byte)
    requires WriteCommand(b, cmd).Ok?
    ensures cmd in {0x20, 0x30, 0x91, 0xc4, 0xc5, 0xec}
    ensures WriteCommand(b, cmd).value.irr == if cmd in {0x30, 0xc5} then b.irr else Interrupt(b).irr
  {
    hide SetLine, GetSector;
  }

  /** A write command leaves the device as the read command does. */
  lemma WritesOpenAsReads(b: Bus, base: Word, multiple: bool)
    requires DeviceBase(base) && b.dev.drv
    ensures var r := WriteReg8(b, Reg(base, 0x1c), if multiple then 0xc4 else 0x20);
            var w := WriteReg8(b, Reg(base, 0x1c), if multiple then 0xc5 else 0x30);
            && (r.Ok? <==> w.Ok?)
            && (w.Ok? ==> w.value.dev == r.value.dev.(command := w.value.dev.command) && w.value.irr == b.irr)
  {
    hide SetLine;
    OpenIgnoresCommand(b.dev);
    hide OpenWindow;
  }

  lemma OpenIgnoresCommand(d: Device)
    ensures forall c: Byte, e: Byte, n: Half, k: nat ::
              var r := OpenWindow(d.(command := c, sectorCount := n), k);
              var w := OpenWindow(d.(command := e, sectorCount := n), k);
              (r.Ok? <==> w.Ok?) && (w.Ok? ==> w.value == r.value.(command := e))
  {
  }

  /** The parameter command ends at once: no data, no error. */
  lemma ParameterCommand(b: Bus, base: Word)
    requires DeviceBase(base) && b.dev.drv
    ensures var r := WriteReg8(b, Reg(base, 0x1c), 0x91);
            r.Ok? && Bit(r.value.dev.status, 6) && !Bit(r.value.dev.status, 3) && r.value.dev.error == 0
  {
    hide SetLine, Reg;
    ReadyBits();
    hide Bit;
  }

  lemma ReadyBits()
    ensures Bit(STATUS_READY, 6) && !Bit(STATUS_READY, 3) && !Bit(STATUS_READY, 7)
    ensures Bit(STATUS_TRANSFER, 6) && Bit(STATUS_TRANSFER, 3) && !Bit(STATUS_TRANSFER, 7)
    ensures Bit(STATUS_BSY + STATUS_DSC, 7) && !Bit(STATUS_BSY + STATUS_DSC, 3)
    ensures Bit(STATUS_DRDY, 6) && !Bit(STATUS_DRDY, 3) && !Bit(STATUS_DRDY, 7)
  {
    BitWeights();
    hide Pow2, Bit;
    forall v: Byte
      ensures Bit(v, 3) == (v / 8 % 2 == 1) && Bit(v, 6) == (v / 64 % 2 == 1) && Bit(v, 7) == (v / 128 % 2 == 1)
    {
      MsrLaws.FlagIsBit(v, 3);
      MsrLaws.FlagIsBit(v, 6);
      MsrLaws.FlagIsBit(v, 7);
    }
  }

  // ---------- identification ----------

  /** `k` words of the identification buffer have been delivered. */
  predicate IdentifyAt(d: Device, k: nat) {
    && d.drv && d.base == IdBuffer && d.command == 0xec && k <= 256 && d.pos == k && d.len == 256
    && d.status == (if k < 256 then STATUS_TRANSFER else STATUS_READY)
  }

  lemma IdentifyStarts(b: Bus, base: Word)
    requires DeviceBase(base) && b.dev.drv
    ensures var r := WriteReg8(b, Reg(base, 0x1c), 0xec);
            r.Ok? && IdentifyAt(r.value.dev, 0) && r.value.dev.id16 == b.dev.id16
  {
    hide SetLine, Reg;
  }

  lemma IdentifyStep(b: Bus, k: nat, addr: Word)
    requires IdentifyAt(b.dev, k) && k < 256 <= |b.dev.id16| && addr % 0x1000 == 0
    ensures ReadReg16(b, addr).Ok?
    ensures var r := ReadReg16(b, addr).value;
            && r.value == b.dev.id16[k] && IdentifyAt(r.bus.dev, k + 1)
            && r.bus.dev.id16 == b.dev.id16 && r.bus.irr == b.irr
  {
    hide SetLine;
  }

  lemma {:induction false} IdentifyRun(b: Bus, hs: seq<Access>)
    requires IdentifyAt(b.dev, 0) && 256 <= |b.dev.id16|
    requires (forall h | h in hs :: DriverAccess(h)) && DataReads(hs) <= 256
    ensures Collect(b, hs).Ok?
    ensures var r := Collect(b, hs).value;
            && IdentifyAt(r.bus.dev, DataReads(hs)) && r.bus.dev.id16 == b.dev.id16
            && r.words == Window(b.dev.id16, 0, DataReads(hs))
  {
    hide CollectOne, IdentifyAt, DriverAccess;
    if hs == [] {
      assert Window(b.dev.id16, 0, 0) == [];
    } else {
      var init, h := hs[..|hs| - 1], hs[|hs| - 1];
      IdentifyRun(b, init);
      var r, k := Collect(b, init).value, DataReads(init);
      assert Collect(b, hs) == CollectOne(r, h) && DataReads(hs) == k + if h.Read16? then 1 else 0;
      hide Collect, DataReads, Window;
      IdentifyExtends(b.dev.id16, r, h, k);
    }
  }

  lemma IdentifyExtends(id: seq<Half>, r: Stream, h: Access, k: nat)
    requires 256 <= |id| && r.bus.dev.id16 == id
    requires DriverAccess(h) && IdentifyAt(r.bus.dev, k) && k <= 256 && (h.Read16? ==> k < 256)
    requires r.words == Window(id, 0, k)
    ensures CollectOne(r, h).Ok?
    ensures var r', k' := CollectOne(r, h).value, if h.Read16? then k + 1 else k;
            && IdentifyAt(r'.bus.dev, k') && r'.bus.dev.id16 == id
            && k' <= 256 && r'.words == Window(id, 0, k')
  {
    hide ReadReg8, ReadReg16, IdentifyAt, Window;
    if h.Read8? {
      PollSucceeds(r.bus, h);
    } else {
      IdentifyStep(r.bus, k, h.addr);
      WindowGrows(id, 0, k);
    }
  }

  /** IDENTIFY: every driver gets the identification words in order, with DRQ
      until the 256th. */
  lemma HostIdentifies(b: Bus, base: Word, hs: seq<Access>)
    requires DeviceBase(base) && b.dev.drv && 256 <= |b.dev.id16|
    requires (forall h | h in hs :: DriverAccess(h)) && DataReads(hs) <= 256
    ensures var start := WriteReg8(b, Reg(base, 0x1c), 0xec);
            start.Ok? && var run := Collect(start.value, hs);
            && run.Ok? && run.value.words == Window(b.dev.id16, 0, DataReads(hs))
            && (Bit(run.value.bus.dev.status, 3) <==> DataReads(hs) < 256)
  {
    hide WriteReg8, Collect, Window, DriverAccess, Reg, Bit, DataReads;
    IdentifyStarts(b, base);
    IdentifyRun(WriteReg8(b, Reg(base, 0x1c), 0xec).value, hs);
    ReadyBits();
  }

  // ---------- reset ----------

  /** Setting the reset bit makes the device busy; clearing it again leaves it
      ready, addressing sector 1 with count 1 in the drive it was in, and each
      control write sets the interrupt bit. */
  lemma SoftReset(b: Bus, base: Word, v1: Byte, v2: Byte)
    requires DeviceBase(base) && !Bit(b.dev.control, 2) && Bit(v1, 2) && !Bit(v2, 2)
    ensures var r1 := WriteReg8(b, Reg(base, 0x100), v1);
            && r1.Ok? && Bit(r1.value.dev.status, 7) && !Bit(r1.value.dev.status, 3)
            && r1.value.dev.error == 1 && r1.value.dev.InterruptsOff() == Bit(v1, 1) && r1.value.irr == b.irr
            && var r2 := WriteReg8(r1.value, Reg(base, 0x100), v2);
            && r2.Ok? && r2.value.irr == b.irr
            && var d := r2.value.dev;
            && Bit(d.status, 6) && !Bit(d.status, 7) && !Bit(d.status, 3)
            && d.sectorCount == 1 && d.sectorNumber == 1 && d.cylinderLow == 0 && d.cylinderHigh == 0
            && d.driverHead == b.dev.driverHead / 0x10 * 0x10 && d.error == 1 && d.drv == b.dev.drv
            && d.InterruptsOff() == Bit(v2, 1)
  {
    var d1 := WriteReg8(b, Reg(base, 0x100), v1).value.dev;
    ControlBits(v1);
    ControlBits(v2);
    ControlBits(b.dev.control);
    ReadyBits();
    hide SetLine, Reg, Bit;
  }

  /** Every control write turns interrupts off or on by its bit 1 and moves no
      line; one that leaves the reset bit as it is does nothing else. */
  lemma ControlWrite(b: Bus, base: Word, v: Byte)
    requires DeviceBase(base)
    ensures var r := WriteReg8(b, Reg(base, 0x100), v);
            && r.Ok? && r.value.irr == b.irr
            && r.value.dev.InterruptsOff() == Bit(v, 1) && r.value.dev.Rst() == Bit(v, 2)
            && (Bit(v, 2) == Bit(b.dev.control, 2) ==> r.value.dev == b.dev.(control := v))
  {
    ControlBits(v);
    ControlBits(b.dev.control);
    hide Reg, Bit;
  }

  lemma ControlBits(v: Byte)
    ensures Bit(v, 2) == (v / 4 % 2 == 1) && Bit(v, 1) == (v / 2 % 2 == 1)
  {
    BitWeights();
    hide Pow2, Bit;
    MsrLaws.FlagIsBit(v, 1);
    MsrLaws.FlagIsBit(v, 2);
  }

  /** A device at power-on: drive 1, ready, addressing sector 1 with count 1,
      not in LBA mode, interrupts on. */
  lemma PowerOn(d: Device)
    ensures var r := Reset(d);
            && r.drv && r.sectorCount == 1 && r.sectorNumber == 1 && r.cylinderLow == 0 && r.cylinderHigh == 0
            && r.error == 1 && Bit(r.status, 6) && !Bit(r.status, 7) && !Bit(r.status, 3)
            && !r.LbaMode() && r.driverHead % 0x20 == 0 && !Bit(r.control, 1) && !Bit(r.control, 2)
            && r.disk == d.disk && r.id16 == d.id16
  {
    ReadyBits();
    ControlBits(8);
    hide Bit;
  }

  // ---------- exits ----------

  /** The accesses that end the process are exactly those of a register the
      device does not have, an unknown command, and a disk command, or the next
      sector of one, outside LBA mode. */
  lemma ExitsExactly(b: Bus, addr: Word, v: Byte)
    ensures ReadReg8(b, addr).Panic? <==>
            b.dev.drv && addr % 0x1000 !in {0x04, 0x08, 0x0c, 0x10, 0x14, 0x18, 0x1c, 0x100}
    ensures ReadReg16(b, addr).Panic? <==>
            || addr % 0x1000 != 0
            || (var d := b.dev;
                && 0 <= d.pos < |d.Words()| && d.pos + 1 >= d.len
                && d.command == 0x20 && d.sectorCount > 1 && !d.LbaMode())
    ensures WriteReg8(b, addr, v).Panic? <==>
            && b.dev.drv
            && (addr % 0x1000 !in {0x04, 0x08, 0x0c, 0x10, 0x14, 0x18, 0x1c, 0x100}
                || (addr % 0x1000 == 0x1c
                    && (v !in {0x20, 0x30, 0x91, 0xc4, 0xc5, 0xec}
                        || (v in {0x20, 0x30, 0xc4, 0xc5} && !b.dev.LbaMode()))))
  {
    hide SetLine;
  }
}
