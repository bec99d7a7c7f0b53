/** The ATA device (device-ata.c) as values: its registers, its transfer
    window and what each host access does to them.

    Every register the source stores in a uint16_t only ever receives 8-bit
    values, except the sector count, which a command may raise to 256. */
module Ata {
  import opened Words

  const IRQ_ATA: nat := 3

  const REG_DATA: nat := 0x00
  const REG_ERROR: nat := 0x04
  const REG_SECTOR_COUNT: nat := 0x08
  const REG_SECTOR_NUMBER: nat := 0x0c
  const REG_CYLINDER_LOW: nat := 0x10
  const REG_CYLINDER_HIGH: nat := 0x14
  const REG_DRIVER_HEAD: nat := 0x18
  const REG_STATUS: nat := 0x1c
  const REG_CONTROL: nat := 0x100

  const CMD_IDENTIFY: Byte := 0xec
  const CMD_INIT_PARAMETERS: Byte := 0x91
  const CMD_READ_SECTORS: Byte := 0x20
  const CMD_WRITE_SECTORS: Byte := 0x30
  const CMD_READ_MULTIPLE: Byte := 0xc4
  const CMD_WRITE_MULTIPLE: Byte := 0xc5

  const STATUS_BSY: Byte := 0x80
  const STATUS_DRDY: Byte := 0x40
  const STATUS_DSC: Byte := 0x10
  const STATUS_DRQ: Byte := 0x08
  const STATUS_READY: Byte := STATUS_DRDY + STATUS_DSC
  const STATUS_TRANSFER: Byte := STATUS_DRDY + STATUS_DSC + STATUS_DRQ

  const DISK_SECTORS: nat := 131072
  const DISK_WORDS: nat := 33554432
  const INT_MAX: nat := 0x7fff_ffff

  datatype Buffer = IdBuffer | DiskBuffer

  datatype Device = Device(
    control: Byte, error: Byte, feature: Byte, sectorCount: Half, sectorNumber: Byte,
    cylinderLow: Byte, cylinderHigh: Byte, driverHead: Byte, status: Byte, command: Byte,
    drv: bool, base: Buffer, pos: int, len: int,
    id16: seq<Half>, disk: seq<Half>)
  {
    predicate Rst() { control / 4 % 2 == 1 }
    predicate InterruptsOff() { control / 2 % 2 == 1 }
    predicate LbaMode() { driverHead / 0x40 % 2 == 1 }
    predicate Drq() { status / 8 % 2 == 1 }
    predicate Bsy() { status / 0x80 % 2 == 1 }
    function Words(): seq<Half> { if base.IdBuffer? then id16 else disk }
  }

  /** A device with its interrupt line in the controller's request register. */
  datatype Bus = Bus(dev: Device, irr: Word)

  /** `dev_ata_reset`; the sector and identification data stay. */
  function Reset(d: Device): Device {
    Device(0x8, 0x1, 0, 1, 1, 0, 0, 0xa0, STATUS_DRDY, 0, true, IdBuffer, 0, 256, d.id16, d.disk)
  }

  function GetSector(d: Device): Res<Word> {
    if !d.LbaMode() then Panic
    else Ok(d.driverHead % 0x10 * 0x100_0000 + d.cylinderHigh as int * 0x1_0000
            + d.cylinderLow as int * 0x100 + d.sectorNumber)
  }

  function SetSector(d: Device, sector: Word): Res<Device> {
    if !d.LbaMode() then Panic
    else Ok(d.(sectorNumber := sector % 0x100,
               cylinderLow := sector / 0x100 % 0x100,
               cylinderHigh := sector / 0x1_0000 % 0x100,
               driverHead := d.driverHead / 0x10 * 0x10 + sector / 0x100_0000 % 0x10))
  }

  /** Raise the interrupt line unless the host turned interrupts off. */
  function Interrupt(b: Bus): Bus {
    if b.dev.InterruptsOff() then b else b.(irr := SetLine(b.irr, IRQ_ATA, true))
  }

  function WriteControl(d: Device, v: Byte): Device {
    var rst := v / 4 % 2 == 1;
    if !rst && d.Rst() then
      d.(driverHead := d.driverHead / 0x10 * 0x10, status := STATUS_READY,
         sectorCount := 1, sectorNumber := 1, cylinderLow := 0, cylinderHigh := 0,
         error := 1, command := 0, control := v)
    else if rst && !d.Rst() then
      d.(error := 1, status := STATUS_BSY + STATUS_DSC, control := v)
    else
      d.(control := v)
  }

  /** Opening the transfer window over `count` sectors from the addressed one. */
  function OpenWindow(d: Device, sectors: nat): Res<Device> {
    var sector :- GetSector(d);
    var pos := Signed(Wrap(sector * 256));
    if pos + 256 * sectors > INT_MAX then Undefined
    else Ok(d.(base := DiskBuffer, pos := pos, len := pos + 256 * sectors,
               status := STATUS_TRANSFER, error := 0))
  }

  function WriteCommand(b: Bus, v: Byte): Res<Bus> {
    var d := b.dev.(command := v);
    var count: Half := if d.sectorCount == 0 then 256 else d.sectorCount;
    if v == CMD_IDENTIFY then
      Ok(Interrupt(b.(dev := d.(base := IdBuffer, pos := 0, len := 256, status := STATUS_TRANSFER))))
    else if v == CMD_INIT_PARAMETERS then
      Ok(Interrupt(b.(dev := d.(status := STATUS_READY, error := 0))))
    else if v == CMD_READ_SECTORS || v == CMD_WRITE_SECTORS then
      var d' :- OpenWindow(d.(sectorCount := count), 1);
      Ok(if v == CMD_READ_SECTORS then Interrupt(b.(dev := d')) else b.(dev := d'))
    else if v == CMD_READ_MULTIPLE || v == CMD_WRITE_MULTIPLE then
      var d' :- OpenWindow(d.(sectorCount := count), count);
      Ok(if v == CMD_READ_MULTIPLE then Interrupt(b.(dev := d')) else b.(dev := d'))
    else Panic
  }

  /** `dev_ata_writereg8`. */
  function WriteReg8(b: Bus, addr: Word, v: Byte): Res<Bus> {
    var reg := addr % 0x1000;
    if reg == REG_DRIVER_HEAD then Ok(b.(dev := b.dev.(driverHead := v, drv := v / 0x10 % 2 == 0)))
    else if reg == REG_CONTROL then Ok(b.(dev := WriteControl(b.dev, v)))
    else if !b.dev.drv then Ok(b)
    else if reg == REG_ERROR then Ok(b.(dev := b.dev.(feature := v)))
    else if reg == REG_SECTOR_COUNT then Ok(b.(dev := b.dev.(sectorCount := v)))
    else if reg == REG_SECTOR_NUMBER then Ok(b.(dev := b.dev.(sectorNumber := v)))
    else if reg == REG_CYLINDER_LOW then Ok(b.(dev := b.dev.(cylinderLow := v)))
    else if reg == REG_CYLINDER_HIGH then Ok(b.(dev := b.dev.(cylinderHigh := v)))
    else if reg == REG_STATUS then WriteCommand(b, v)
    else Panic
  }

  datatype ReadOut = ReadOut(bus: Bus, value: Half)

  /** `dev_ata_readreg8`. */
  function ReadReg8(b: Bus, addr: Word): Res<ReadOut> {
    var reg := addr % 0x1000;
    var d := b.dev;
    if !d.drv then Ok(ReadOut(b, 0xff))
    else if reg == REG_CONTROL then Ok(ReadOut(b, d.status))
    else if reg == REG_ERROR then Ok(ReadOut(b, d.error))
    else if reg == REG_SECTOR_COUNT then Ok(ReadOut(b, d.sectorCount % 0x100))
    else if reg == REG_SECTOR_NUMBER then Ok(ReadOut(b, d.sectorNumber))
    else if reg == REG_CYLINDER_LOW then Ok(ReadOut(b, d.cylinderLow))
    else if reg == REG_CYLINDER_HIGH then Ok(ReadOut(b, d.cylinderHigh))
    else if reg == REG_DRIVER_HEAD then Ok(ReadOut(b, d.driverHead))
    else if reg == REG_STATUS then Ok(ReadOut(b.(irr := SetLine(b.irr, IRQ_ATA, false)), d.status))
    else Panic
  }

  /** One sector less to go, and the address of the next one. */
  function StepSector(d: Device): Res<Device>
    requires d.sectorCount > 0
  {
    var sector :- GetSector(d);
    SetSector(d.(sectorCount := d.sectorCount - 1), Wrap(sector + 1))
  }

  /** What `dev_ata_readreg16` does when the window is used up. */
  function EndOfWindow(b: Bus): Res<Bus> {
    var d := b.dev.(status := STATUS_READY);
    if d.command == CMD_READ_SECTORS && d.sectorCount > 1 then
      var d' :- StepSector(d);
      if d'.len + 256 > INT_MAX then Undefined
      else Ok(Interrupt(b.(dev := d'.(len := d'.len + 256, status := STATUS_TRANSFER))))
    else Ok(b.(dev := d))
  }

  /** `dev_ata_readreg16`: only the data register is 16 bits wide. */
  function ReadReg16(b: Bus, addr: Word): Res<ReadOut> {
    var d := b.dev;
    if addr % 0x1000 != REG_DATA then Panic
    else if !(0 <= d.pos < |d.Words()|) then Undefined
    else
      var value := d.Words()[d.pos];
      var b1 := b.(dev := d.(pos := d.pos + 1));
      if d.pos + 1 < d.len then Ok(ReadOut(b1, value))
      else
        var b2 :- EndOfWindow(b1);
        Ok(ReadOut(b2, value))
  }

  // ---------- hosts ----------

  datatype Access = Write8(addr: Word, v: Byte) | Read8(addr: Word) | Read16(addr: Word)

  function Do(b: Bus, h: Access): Res<Bus> {
    match h
    case Write8(addr, v) => WriteReg8(b, addr, v)
    case Read8(addr) => var r :- ReadReg8(b, addr); Ok(r.bus)
    case Read16(addr) => var r :- ReadReg16(b, addr); Ok(r.bus)
  }

  function Run(b: Bus, hs: seq<Access>): Res<Bus> {
    if hs == [] then Ok(b)
    else
      var b' :- Run(b, hs[..|hs| - 1]);
      Do(b', hs[|hs| - 1])
  }

  // ---------- the status machine ----------

  predicate StatusInv(d: Device) {
    && d.status in {STATUS_DRDY, STATUS_READY, STATUS_TRANSFER, STATUS_BSY + STATUS_DSC}
    && (d.Bsy() ==> d.Rst() && !d.Drq())
  }

  lemma DoKeepsStatus(b: Bus, h: Access)
    requires StatusInv(b.dev) && Do(b, h).Ok?
    ensures StatusInv(Do(b, h).value.dev)
  {
    hide SetLine;
  }

  /** Over every access sequence the status register holds one of four values,
      never busy and requesting data at once, and busy only while the host
      holds the reset bit. */
  lemma {:induction false} StatusMachine(b: Bus, hs: seq<Access>)
    requires StatusInv(b.dev) && Run(b, hs).Ok?
    ensures StatusInv(Run(b, hs).value.dev)
  {
    if hs == [] {
    } else {
      StatusMachine(b, hs[..|hs| - 1]);
      DoKeepsStatus(Run(b, hs[..|hs| - 1]).value, hs[|hs| - 1]);
    }
  }

  /** A host that reads the data register only while data are requested. */
  predicate Disciplined(b: Bus, hs: seq<Access>)
    requires Run(b, hs).Ok?
  {
    hs == [] ||
    var b' := Run(b, hs[..|hs| - 1]).value;
    Disciplined(b, hs[..|hs| - 1]) && (hs[|hs| - 1].Read16? ==> b'.dev.Drq())
  }

  predicate WindowInv(d: Device) {
    d.Drq() ==> d.pos < d.len
  }

  /** A READ SECTORS with sectors to come whose position has run a whole sector
      past the window. */
  predicate PastWindow(d: Device) {
    d.command == CMD_READ_SECTORS && d.sectorCount > 1 && d.pos + 1 >= d.len + 256
  }

  /** Exactly when a data read keeps "a data request means data": it fails only
      past the window, which takes reads without a request. */
  lemma ReadKeepsWindowExactly(b: Bus, addr: Word)
    requires WindowInv(b.dev) && StatusInv(b.dev) && ReadReg16(b, addr).Ok?
    ensures WindowInv(ReadReg16(b, addr).value.bus.dev) <==> !PastWindow(b.dev)
  {
    hide SetLine;
  }

  lemma CommandKeepsWindow(b: Bus, v: Byte)
    requires WindowInv(b.dev) && WriteCommand(b, v).Ok?
    ensures WindowInv(WriteCommand(b, v).value.dev)
  {
    hide SetLine, GetSector;
  }

  lemma WriteKeepsWindow(b: Bus, addr: Word, v: Byte)
    requires WindowInv(b.dev) && WriteReg8(b, addr, v).Ok?
    ensures WindowInv(WriteReg8(b, addr, v).value.dev)
  {
    if b.dev.drv && addr % 0x1000 == REG_STATUS {
      CommandKeepsWindow(b, v);
    }
    hide WriteCommand, SetLine;
  }

  lemma PollKeepsDevice(b: Bus, addr: Word)
    requires ReadReg8(b, addr).Ok?
    ensures ReadReg8(b, addr).value.bus.dev == b.dev
  {
    hide SetLine;
  }

  lemma DoKeepsWindow(b: Bus, h: Access)
    requires WindowInv(b.dev) && StatusInv(b.dev) && Do(b, h).Ok?
    ensures WindowInv(Do(b, h).value.dev) <==> !(h.Read16? && PastWindow(b.dev))
    ensures b.dev.Drq() ==> !PastWindow(b.dev)
  {
    hide WriteReg8, ReadReg8, ReadReg16, StatusInv;
    match h
    case Write8(addr, v) => WriteKeepsWindow(b, addr, v);
    case Read8(addr) => PollKeepsDevice(b, addr);
    case Read16(addr) => ReadKeepsWindowExactly(b, addr);
  }

  /** Such a host always finds a word in the window when data are requested. */
  lemma {:induction false} DataRequestMeansData(b: Bus, hs: seq<Access>)
    requires StatusInv(b.dev) && WindowInv(b.dev) && Run(b, hs).Ok? && Disciplined(b, hs)
    ensures WindowInv(Run(b, hs).value.dev)
  {
    if hs == [] {
    } else {
      var init := hs[..|hs| - 1];
      DataRequestMeansData(b, init);
      StatusMachine(b, init);
      DoKeepsWindow(Run(b, init).value, hs[|hs| - 1]);
    }
  }

  lemma {:induction false} PrefixRuns(b: Bus, hs: seq<Access>, k: nat)
    requires k <= |hs| && Run(b, hs).Ok?
    ensures Run(b, hs[..k]).Ok?
    decreases |hs|
  {
    if k == |hs| {
      assert hs[..k] == hs;
    } else {
      PrefixRuns(b, hs[..|hs| - 1], k);
      assert hs[..|hs| - 1][..k] == hs[..k];
    }
  }

  /** The state after the first `k` accesses of a run. */
  function BusAt(b: Bus, hs: seq<Access>, k: nat): Bus
    requires k <= |hs| && Run(b, hs).Ok?
  {
    PrefixRuns(b, hs, k);
    Run(b, hs[..k]).value
  }

  lemma BusMoves(b: Bus, hs: seq<Access>, k: nat)
    requires k < |hs| && Run(b, hs).Ok?
    ensures Do(BusAt(b, hs, k), hs[k]) == Ok(BusAt(b, hs, k + 1))
  {
    PrefixRuns(b, hs, k);
    PrefixRuns(b, hs, k + 1);
    assert hs[..k + 1][..k] == hs[..k];
    hide Do;
  }

  /** A word is left in the window under DRQ after each of the first `n`
      accesses. */
  predicate WindowThrough(b: Bus, hs: seq<Access>, n: nat)
    requires n <= |hs| && Run(b, hs).Ok?
  {
    forall k: nat | k <= n :: WindowInv(BusAt(b, hs, k).dev)
  }

  /** None of the first `n` accesses is a data read made past the window. */
  predicate NoReadPastWindow(b: Bus, hs: seq<Access>, n: nat)
    requires n <= |hs| && Run(b, hs).Ok?
  {
    forall k: nat | k < n && hs[k].Read16? :: !PastWindow(BusAt(b, hs, k).dev)
  }

  lemma AccessKeepsWindow(b: Bus, hs: seq<Access>, n: nat)
    requires Run(b, hs).Ok? && n < |hs| && StatusInv(BusAt(b, hs, n).dev)
    ensures StatusInv(BusAt(b, hs, n + 1).dev)
    ensures WindowInv(BusAt(b, hs, n).dev) ==>
              (WindowInv(BusAt(b, hs, n + 1).dev) <==> !(hs[n].Read16? && PastWindow(BusAt(b, hs, n).dev)))
  {
    hide Run, BusAt, Do, WindowInv, PastWindow, StatusInv;
    var c := BusAt(b, hs, n);
    BusMoves(b, hs, n);
    DoKeepsStatus(c, hs[n]);
    if WindowInv(c.dev) {
      DoKeepsWindow(c, hs[n]);
    }
  }

  /** For every host, disciplined or not: data requests mean data throughout a
      run exactly when none of its data reads is made past the window. */
  lemma {:induction false} RunKeepsWindowExactly(b: Bus, hs: seq<Access>, n: nat)
    requires StatusInv(b.dev) && WindowInv(b.dev) && Run(b, hs).Ok? && n <= |hs|
    ensures WindowThrough(b, hs, n) <==> NoReadPastWindow(b, hs, n)
    ensures StatusInv(BusAt(b, hs, n).dev)
    decreases n
  {
    hide Run, BusAt, WindowInv, PastWindow, StatusInv;
    if n == 0 {
      NoAccessYet(b, hs);
    } else {
      RunKeepsWindowExactly(b, hs, n - 1);
      AccessKeepsWindow(b, hs, n - 1);
      if WindowThrough(b, hs, n - 1) {
        assert WindowInv(BusAt(b, hs, n - 1).dev);
      }
    }
  }

  lemma NoAccessYet(b: Bus, hs: seq<Access>)
    requires Run(b, hs).Ok?
    ensures BusAt(b, hs, 0) == b
  {
    assert hs[..0] == [];
    hide Do;
  }

  // ---------- a host that reads without a request ----------

  /** From reset: address the disk in LBA mode, READ SECTORS for one sector,
      then `k` data reads. */
  function ReadOn(k: nat): seq<Access> {
    [Write8(REG_DRIVER_HEAD, 0x40), Write8(REG_STATUS, CMD_READ_SECTORS)] + seq(k, _ => Read16(REG_DATA))
  }

  /** The device after them: the 256th read ends the transfer, and every
      further one moves the position past the window. */
  predicate ReadOnAt(d: Device, k: nat) {
    && d.drv && d.base == DiskBuffer && d.command == CMD_READ_SECTORS && d.sectorCount == 1 && d.LbaMode()
    && d.pos == 256 + k && d.len == 512
    && d.status == (if k < 256 then STATUS_TRANSFER else STATUS_READY)
  }

  lemma RunSnoc(b: Bus, hs: seq<Access>, h: Access, b': Bus)
    requires Run(b, hs) == Ok(b')
    ensures Run(b, hs + [h]) == Do(b', h)
  {
    assert (hs + [h])[..|hs|] == hs;
    hide Do;
  }

  function LbaReset(d: Device): Device {
    Reset(d).(driverHead := 0x40, drv := true)
  }

  lemma ReadCommand(b: Bus)
    requires b.dev == LbaReset(b.dev)
    ensures var r := Do(b, Write8(REG_STATUS, CMD_READ_SECTORS));
            r.Ok? && ReadOnAt(r.value.dev, 0) && r.value.dev.disk == b.dev.disk
  {
    assert GetSector(b.dev.(command := CMD_READ_SECTORS, sectorCount := 1)) == Ok(1);
    hide SetLine, GetSector;
  }

  lemma ReadOnStarts(b: Bus)
    requires b.dev == Reset(b.dev)
    ensures Run(b, ReadOn(0)).Ok? && ReadOnAt(Run(b, ReadOn(0)).value.dev, 0)
    ensures Run(b, ReadOn(0)).value.dev.disk == b.dev.disk
  {
    var h1, h2 := Write8(REG_DRIVER_HEAD, 0x40), Write8(REG_STATUS, CMD_READ_SECTORS);
    var b1 := b.(dev := LbaReset(b.dev));
    assert Do(b, h1) == Ok(b1);
    ReadCommand(b1);
    hide Do, ReadOnAt, Reset;
    assert ReadOn(0) == [] + [h1] + [h2];
    RunSnoc(b, [], h1, b);
    RunSnoc(b, [] + [h1], h2, b1);
    hide Run;
  }

  lemma ReadOnStep(b: Bus, k: nat)
    requires ReadOnAt(b.dev, k) && 256 + k < |b.dev.disk|
    ensures Do(b, Read16(REG_DATA)).Ok?
    ensures ReadOnAt(Do(b, Read16(REG_DATA)).value.dev, k + 1)
    ensures Do(b, Read16(REG_DATA)).value.dev.disk == b.dev.disk
  {
    hide SetLine;
  }

  lemma {:induction false} ReadOnRun(b: Bus, k: nat)
    requires b.dev == Reset(b.dev) && 256 + k <= |b.dev.disk|
    ensures Run(b, ReadOn(k)).Ok? && ReadOnAt(Run(b, ReadOn(k)).value.dev, k)
    ensures Run(b, ReadOn(k)).value.dev.disk == b.dev.disk
  {
    hide Run, Do, ReadOnAt;
    if k == 0 {
      ReadOnStarts(b);
    } else {
      ReadOnRun(b, k - 1);
      var b' := Run(b, ReadOn(k - 1)).value;
      ReadOnStep(b', k - 1);
      assert ReadOn(k) == ReadOn(k - 1) + [Read16(REG_DATA)];
      RunSnoc(b, ReadOn(k - 1), Read16(REG_DATA), b');
    }
  }

  /** A whole sector read without a request, then a sector count of two and
      one more read. */
  function Undisciplined(): seq<Access> {
    ReadOn(511) + [Write8(REG_SECTOR_COUNT, 2)] + [Read16(REG_DATA)]
  }

  lemma ReadPastWindow(b: Bus)
    requires ReadOnAt(b.dev, 511) && |b.dev.disk| == DISK_WORDS
    ensures Do(b, Write8(REG_SECTOR_COUNT, 2)) == Ok(b.(dev := b.dev.(sectorCount := 2)))
    ensures var r := Do(b.(dev := b.dev.(sectorCount := 2)), Read16(REG_DATA));
            !b.dev.Drq() && r.Ok? && !WindowInv(r.value.dev)
  {
    hide SetLine;
  }

  /** The discipline is needed: from reset, on any disk, this host ends with a
      data request and no word left in the window. */
  lemma UndisciplinedHost(b: Bus)
    requires b.dev == Reset(b.dev) && |b.dev.disk| == DISK_WORDS
    ensures Run(b, Undisciplined()).Ok? && !Disciplined(b, Undisciplined())
    ensures !WindowInv(Run(b, Undisciplined()).value.dev)
  {
    hide Run, Do, ReadOn, ReadOnAt, WindowInv;
    ReadOnRun(b, 511);
    var hs := ReadOn(511);
    var b1 := Run(b, hs).value;
    ReadPastWindow(b1);
    var b2 := b1.(dev := b1.dev.(sectorCount := 2));
    var h1, h2 := Write8(REG_SECTOR_COUNT, 2), Read16(REG_DATA);
    RunSnoc(b, hs, h1, b1);
    RunSnoc(b, hs + [h1], h2, b2);
    assert (hs + [h1] + [h2])[..|hs| + 1] == hs + [h1];
  }

  lemma ResetIsInitial(d: Device)
    ensures StatusInv(Reset(d)) && WindowInv(Reset(d))
  {
  }
}
