/** The PIO data-in protocol of device-ata.c: READ SECTORS, which moves its
    window sector by sector, and READ MULTIPLE, which opens it at once. */
module AtaRead {
  import opened Words
  import opened Ata

  /** Accesses of a driver while data are transferred: data reads, and polls
      of any readable register. */
  predicate DriverAccess(h: Access) {
    match h
    case Write8(_, _) => false
    case Read8(addr) =>
      addr % 0x1000 in {REG_CONTROL, REG_ERROR, REG_SECTOR_COUNT, REG_SECTOR_NUMBER, REG_CYLINDER_LOW,
                               REG_CYLINDER_HIGH, REG_DRIVER_HEAD, REG_STATUS}
    case Read16(addr) => addr % 0x1000 == REG_DATA
  }

  datatype Stream = Stream(bus: Bus, words: seq<Half>)

  /** A run together with the words its data reads delivered. */
  function Collect(b: Bus, hs: seq<Access>): Res<Stream> {
    if hs == [] then Ok(Stream(b, []))
    else
      var s :- Collect(b, hs[..|hs| - 1]);
      CollectOne(s, hs[|hs| - 1])
  }

  function CollectOne(s: Stream, h: Access): Res<Stream> {
    match h
    case Write8(addr, v) => var b' :- WriteReg8(s.bus, addr, v); Ok(Stream(b', s.words))
    case Read8(addr) => var r :- ReadReg8(s.bus, addr); Ok(Stream(r.bus, s.words))
    case Read16(addr) => var r :- ReadReg16(s.bus, addr); Ok(Stream(r.bus, s.words + [r.value]))
  }

  function DataReads(hs: seq<Access>): nat {
    if hs == [] then 0 else DataReads(hs[..|hs| - 1]) + (if hs[|hs| - 1].Read16? then 1 else 0)
  }

  /** The number of sectors a command asks for; 0 stands for 256. */
  function Requested(d: Device): nat {
    if d.sectorCount == 0 then 256 else d.sectorCount
  }

  /** A device addressed in LBA mode at sector `s`, with `n` sectors requested
      that all lie on the disk. */
  predicate Addressed(d: Device, s: nat, n: nat) {
    && d.drv
    && |d.disk| == DISK_WORDS
    && GetSector(d) == Ok(s)
    && n == Requested(d)
    && s + n <= DISK_SECTORS
  }

  // ---------- READ SECTORS ----------

  /** `k` of the `256 * n` words have been delivered, and more are to come. */
  predicate Streaming(d: Device, s: nat, n: nat, k: nat) {
    && d.drv && d.base == DiskBuffer && d.command == CMD_READ_SECTORS && d.status == STATUS_TRANSFER
    && k < 256 * n
    && d.pos == 256 * s + k
    && d.sectorCount == n - k / 256
    && GetSector(d) == Ok(s + k / 256)
    && d.len == 256 * (s + k / 256 + 1)
  }

  predicate Finished(d: Device, s: nat, n: nat) {
    && d.drv && d.status == STATUS_READY
    && d.sectorCount == 1
    && GetSector(d) == Ok(s + n - 1)
    && d.pos == 256 * (s + n)
  }

  lemma NextSector(d: Device, sector: Word)
    requires GetSector(d).Ok? && sector < 0x1000_0000
    ensures SetSector(d, sector).Ok?
    ensures var d' := SetSector(d, sector).value;
            && GetSector(d') == Ok(sector)
            && d' == d.(sectorNumber := d'.sectorNumber, cylinderLow := d'.cylinderLow,
                        cylinderHigh := d'.cylinderHigh, driverHead := d'.driverHead)
  {
    var d' := SetSector(d, sector).value;
    assert d'.driverHead / 0x10 == d.driverHead / 0x10;
    assert d'.driverHead / 0x40 == d'.driverHead / 0x10 / 4;
    assert d.driverHead / 0x40 == d.driverHead / 0x10 / 4;
    assert d'.driverHead % 0x10 == sector / 0x100_0000;
    var q1 := sector / 0x100;
    var q2 := q1 / 0x100;
    assert sector / 0x1_0000 == q2 && sector / 0x100_0000 == q2 / 0x100;
  }

  /** One data read delivers the next word of the disk and keeps the transfer
      on course; the host is interrupted as each further sector starts. */
  lemma StreamStep(b: Bus, s: nat, n: nat, k: nat, addr: Word)
    requires Streaming(b.dev, s, n, k) && s + n <= DISK_SECTORS && |b.dev.disk| == DISK_WORDS
    requires addr % 0x1000 == REG_DATA
    ensures ReadReg16(b, addr).Ok?
    ensures var r := ReadReg16(b, addr).value;
            && r.value == b.dev.disk[256 * s + k]
            && r.bus.dev.disk == b.dev.disk
            && SectorsAt(r.bus.dev, s, n, k + 1)
            && r.bus.irr == (if (k + 1) % 256 == 0 && k + 1 < 256 * n && !b.dev.InterruptsOff()
                             then SetLine(b.irr, IRQ_ATA, true) else b.irr)
  {
    var b1 := b.(dev := b.dev.(pos := b.dev.pos + 1));
    var q := k / 256;
    if (k + 1) % 256 != 0 {
      assert (k + 1) / 256 == q;
      assert GetSector(b1.dev) == GetSector(b.dev);
      hide SetLine, GetSector, SetSector, EndOfWindow;
    } else {
      assert (k + 1) / 256 == q + 1;
      WindowTurns(b1, s, n, q + 1);
      hide SetLine, GetSector, SetSector, EndOfWindow;
    }
  }

  /** The addressed sector depends on the four address registers alone. */
  lemma SectorFrame(d: Device, d': Device)
    requires d'.sectorNumber == d.sectorNumber && d'.cylinderLow == d.cylinderLow
    requires d'.cylinderHigh == d.cylinderHigh && d'.driverHead == d.driverHead
    ensures GetSector(d') == GetSector(d)
  {
  }

  /** With more sectors to come the window moves on by one sector. */
  lemma WindowMoves(b: Bus, sector: Word)
    requires b.dev.command == CMD_READ_SECTORS && b.dev.sectorCount > 1
    requires GetSector(b.dev) == Ok(sector) && sector + 1 < 0x1000_0000 && b.dev.len + 256 <= INT_MAX
    ensures EndOfWindow(b).Ok?
    ensures var b' := EndOfWindow(b).value;
            && GetSector(b'.dev) == Ok(sector + 1)
            && b'.dev == b.dev.(status := STATUS_TRANSFER, len := b.dev.len + 256,
                                sectorCount := b.dev.sectorCount - 1,
                                sectorNumber := b'.dev.sectorNumber, cylinderLow := b'.dev.cylinderLow,
                                cylinderHigh := b'.dev.cylinderHigh, driverHead := b'.dev.driverHead)
            && b'.irr == (if !b.dev.InterruptsOff() then SetLine(b.irr, IRQ_ATA, true) else b.irr)
  {
    hide SetLine, GetSector, SetSector;
    var d1 := b.dev.(status := STATUS_READY, sectorCount := b.dev.sectorCount - 1);
    SectorFrame(b.dev, d1);
    SectorFrame(b.dev, b.dev.(status := STATUS_READY));
    NextSector(d1, sector + 1);
    var d2 := SetSector(d1, sector + 1).value;
    SectorFrame(d2, d2.(len := d2.len + 256, status := STATUS_TRANSFER));
  }

  /** The used-up window of sector `s + q - 1` moves on to the next sector, or
      the transfer ends. */
  lemma WindowTurns(b: Bus, s: nat, n: nat, q: nat)
    requires 0 < q <= n && s + n <= DISK_SECTORS
    requires var d := b.dev;
             && d.drv && d.base == DiskBuffer && d.command == CMD_READ_SECTORS
             && d.sectorCount == n - q + 1 && GetSector(d) == Ok(s + q - 1)
             && d.pos == d.len == 256 * (s + q)
    ensures EndOfWindow(b).Ok?
    ensures var b' := EndOfWindow(b).value;
            && b'.dev.disk == b.dev.disk
            && SectorsAt(b'.dev, s, n, 256 * q)
            && b'.irr == (if q < n && !b.dev.InterruptsOff() then SetLine(b.irr, IRQ_ATA, true) else b.irr)
  {
    assert 256 * q / 256 == q;
    if q < n {
      WindowMoves(b, s + q - 1);
      hide EndOfWindow, SetLine, GetSector;
    } else {
      var b' := EndOfWindow(b).value;
      assert b' == b.(dev := b.dev.(status := STATUS_READY));
      assert GetSector(b'.dev) == GetSector(b.dev);
      hide EndOfWindow, SetLine, GetSector;
    }
  }

  /** The state of a READ SECTORS transfer after `k` data reads. */
  predicate SectorsAt(d: Device, s: nat, n: nat, k: nat) {
    if k < 256 * n then Streaming(d, s, n, k) else Finished(d, s, n)
  }

  lemma PollSucceeds(b: Bus, h: Access)
    requires DriverAccess(h) && h.Read8?
    ensures ReadReg8(b, h.addr).Ok? && ReadReg8(b, h.addr).value.bus.dev == b.dev
  {
  }

  /** The words of the disk from `a` on, `k` of them. */
  function Window(disk: seq<Half>, a: nat, k: nat): seq<Half>
    requires a + k <= |disk|
  {
    disk[a..a + k]
  }

  lemma WindowGrows(disk: seq<Half>, a: nat, k: nat)
    requires a + k < |disk|
    ensures Window(disk, a, k) + [disk[a + k]] == Window(disk, a, k + 1)
  {
  }

  lemma {:induction false} StreamRun(b: Bus, hs: seq<Access>, s: nat, n: nat)
    requires n > 0 && SectorsAt(b.dev, s, n, 0) && s + n <= DISK_SECTORS && |b.dev.disk| == DISK_WORDS
    requires (forall h | h in hs :: DriverAccess(h)) && DataReads(hs) <= 256 * n
    ensures Collect(b, hs).Ok?
    ensures var r := Collect(b, hs).value;
            && SectorsAt(r.bus.dev, s, n, DataReads(hs))
            && r.bus.dev.disk == b.dev.disk
            && r.words == Window(b.dev.disk, 256 * s, DataReads(hs))
  {
    hide CollectOne, SectorsAt, DriverAccess;
    if hs == [] {
      assert Window(b.dev.disk, 256 * s, 0) == [];
    } else {
      var init, h := hs[..|hs| - 1], hs[|hs| - 1];
      StreamRun(b, init, s, n);
      var r, k := Collect(b, init).value, DataReads(init);
      assert Collect(b, hs) == CollectOne(r, h) && DataReads(hs) == k + if h.Read16? then 1 else 0;
      hide Collect, DataReads, Window;
      StreamExtends(b.dev.disk, r, h, s, n, k);
    }
  }

  lemma StreamExtends(disk: seq<Half>, r: Stream, h: Access, s: nat, n: nat, k: nat)
    requires s + n <= DISK_SECTORS && |disk| == DISK_WORDS && r.bus.dev.disk == disk
    requires DriverAccess(h) && SectorsAt(r.bus.dev, s, n, k) && (h.Read16? ==> k < 256 * n)
    requires 256 * s + k <= DISK_WORDS && r.words == Window(disk, 256 * s, k)
    ensures CollectOne(r, h).Ok?
    ensures var r', k' := CollectOne(r, h).value, if h.Read16? then k + 1 else k;
            && SectorsAt(r'.bus.dev, s, n, k') && r'.bus.dev.disk == disk
            && 256 * s + k' <= DISK_WORDS && r'.words == Window(disk, 256 * s, k')
  {
    if h.Read8? {
      PollSucceeds(r.bus, h);
    } else {
      StreamStep(r.bus, s, n, k, h.addr);
      WindowGrows(disk, 256 * s, k);
    }
    hide ReadReg8, ReadReg16, SectorsAt, Window, GetSector, SetLine;
  }

  /** On the disk a window opens at the sector's first word. */
  lemma WindowOpens(d: Device, s: nat, n: nat)
    requires GetSector(d) == Ok(s) && s + n <= DISK_SECTORS
    ensures OpenWindow(d, n) == Ok(d.(base := DiskBuffer, pos := 256 * s, len := 256 * (s + n),
                                      status := STATUS_TRANSFER, error := 0))
  {
    hide GetSector;
  }

  lemma StartSectors(b: Bus, cmd: Word, s: nat, n: nat)
    requires Addressed(b.dev, s, n) && cmd % 0x1000 == REG_STATUS
    ensures WriteReg8(b, cmd, CMD_READ_SECTORS).Ok?
    ensures var b' := WriteReg8(b, cmd, CMD_READ_SECTORS).value;
            SectorsAt(b'.dev, s, n, 0) && b'.dev.disk == b.dev.disk
            && b'.irr == (if b.dev.InterruptsOff() then b.irr else SetLine(b.irr, IRQ_ATA, true))
  {
    var d := b.dev.(command := CMD_READ_SECTORS, sectorCount := n);
    SectorFrame(b.dev, d);
    WindowOpens(d, s, 1);
    SectorFrame(d, OpenWindow(d, 1).value);
    hide SetLine, GetSector, OpenWindow;
  }

  /** What a host sees of a transfer after `k` data reads: DRQ until the last
      word, with the window and the remaining count in step, then count 1 at
      the last sector. */
  predicate TransferShows(d: Device, s: nat, n: nat, k: nat) {
    && (d.Drq() <==> k < 256 * n)
    && (d.Drq() ==> d.len + 256 * (d.sectorCount - 1) == 256 * (s + n)
                    && GetSector(d).Ok? && d.len == 256 * (GetSector(d).value + 1))
    && (!d.Drq() ==> d.sectorCount == 1 && GetSector(d) == Ok(s + n - 1))
  }

  lemma TransferShown(d: Device, s: nat, n: nat, k: nat)
    requires SectorsAt(d, s, n, k) && k <= 256 * n
    ensures TransferShows(d, s, n, k)
  {
    hide GetSector;
  }

  /** READ SECTORS: after the command, for every driver that makes `k` data
      reads and any polls, the words are the next `k` of the disk in order,
      and the registers show exactly that progress. */
  lemma ReadSectors(b: Bus, cmd: Word, hs: seq<Access>, s: nat, n: nat)
    requires Addressed(b.dev, s, n) && cmd % 0x1000 == REG_STATUS
    requires (forall h | h in hs :: DriverAccess(h)) && DataReads(hs) <= 256 * n
    ensures var start := WriteReg8(b, cmd, CMD_READ_SECTORS);
            start.Ok? && var run := Collect(start.value, hs);
            run.Ok?
            && run.value.words == Window(b.dev.disk, 256 * s, DataReads(hs))
            && TransferShows(run.value.bus.dev, s, n, DataReads(hs))
  {
    hide WriteReg8, Collect, SectorsAt, TransferShows, Window, GetSector, DriverAccess;
    StartSectors(b, cmd, s, n);
    var start := WriteReg8(b, cmd, CMD_READ_SECTORS).value;
    StreamRun(start, hs, s, n);
    TransferShown(Collect(start, hs).value.bus.dev, s, n, DataReads(hs));
  }

  // ---------- READ MULTIPLE ----------

  predicate MultipleAt(d: Device, s: nat, n: nat, k: nat) {
    && d.drv && d.base == DiskBuffer && d.command == CMD_READ_MULTIPLE
    && k <= 256 * n
    && d.pos == 256 * s + k
    && d.len == 256 * (s + n)
    && d.status == (if k < 256 * n then STATUS_TRANSFER else STATUS_READY)
    && GetSector(d) == Ok(s) && d.sectorCount == n
  }

  lemma {:induction false} MultipleRun(b: Bus, hs: seq<Access>, s: nat, n: nat)
    requires n > 0 && MultipleAt(b.dev, s, n, 0) && s + n <= DISK_SECTORS && |b.dev.disk| == DISK_WORDS
    requires (forall h | h in hs :: DriverAccess(h)) && DataReads(hs) <= 256 * n
    ensures Collect(b, hs).Ok?
    ensures var r := Collect(b, hs).value;
            && MultipleAt(r.bus.dev, s, n, DataReads(hs))
            && r.bus.dev.disk == b.dev.disk
            && r.words == Window(b.dev.disk, 256 * s, DataReads(hs))
  {
    if hs == [] {
    } else {
      var init, h := hs[..|hs| - 1], hs[|hs| - 1];
      MultipleRun(b, init, s, n);
      var r := Collect(b, init).value;
      assert DriverAccess(h);
      if h.Read8? {
        PollSucceeds(r.bus, h);
      } else {
        MultipleStep(r.bus, s, n, DataReads(init), h.addr);
        WindowGrows(b.dev.disk, 256 * s, DataReads(init));
      }
      hide ReadReg8, ReadReg16, MultipleAt, Window;
    }
  }

  lemma MultipleStep(b: Bus, s: nat, n: nat, k: nat, addr: Word)
    requires MultipleAt(b.dev, s, n, k) && k < 256 * n
    requires s + n <= DISK_SECTORS && |b.dev.disk| == DISK_WORDS
    requires addr % 0x1000 == REG_DATA
    ensures ReadReg16(b, addr).Ok?
    ensures var r := ReadReg16(b, addr).value;
            && r.value == b.dev.disk[256 * s + k]
            && r.bus.dev.disk == b.dev.disk && r.bus.irr == b.irr
            && MultipleAt(r.bus.dev, s, n, k + 1)
  {
    var d := b.dev;
    assert GetSector(d.(pos := d.pos + 1)) == GetSector(d);
    assert GetSector(d.(pos := d.pos + 1, status := STATUS_READY)) == GetSector(d);
    hide GetSector, SetSector, SetLine;
  }

  lemma StartMultiple(b: Bus, cmd: Word, s: nat, n: nat)
    requires Addressed(b.dev, s, n) && cmd % 0x1000 == REG_STATUS
    ensures WriteReg8(b, cmd, CMD_READ_MULTIPLE).Ok?
    ensures var b' := WriteReg8(b, cmd, CMD_READ_MULTIPLE).value;
            MultipleAt(b'.dev, s, n, 0) && b'.dev.disk == b.dev.disk
  {
    var d := b.dev.(command := CMD_READ_MULTIPLE, sectorCount := n);
    SectorFrame(b.dev, d);
    WindowOpens(d, s, n);
    SectorFrame(d, OpenWindow(d, n).value);
    hide SetLine, GetSector, OpenWindow;
  }

  /** READ MULTIPLE delivers the same prefix, and drops DRQ after the last word. */
  lemma ReadMultiple(b: Bus, cmd: Word, hs: seq<Access>, s: nat, n: nat)
    requires Addressed(b.dev, s, n) && cmd % 0x1000 == REG_STATUS
    requires (forall h | h in hs :: DriverAccess(h)) && DataReads(hs) <= 256 * n
    ensures var start := WriteReg8(b, cmd, CMD_READ_MULTIPLE);
            start.Ok? && var run := Collect(start.value, hs);
            run.Ok? && var d, k := run.value.bus.dev, DataReads(hs);
            && run.value.words == Window(b.dev.disk, 256 * s, k)
            && (d.Drq() <==> k < 256 * n)
  {
    hide WriteReg8, Collect, Window, GetSector, DriverAccess;
    StartMultiple(b, cmd, s, n);
    MultipleRun(WriteReg8(b, cmd, CMD_READ_MULTIPLE).value, hs, s, n);
  }

  /** The two read commands are the same data stream: for every driver they
      deliver the same words and drop DRQ at the same read. */
  lemma ReadCommandsAgree(b: Bus, cmd: Word, hs: seq<Access>, s: nat, n: nat)
    requires Addressed(b.dev, s, n) && cmd % 0x1000 == REG_STATUS
    requires (forall h | h in hs :: DriverAccess(h)) && DataReads(hs) <= 256 * n
    ensures var one, many := WriteReg8(b, cmd, CMD_READ_SECTORS), WriteReg8(b, cmd, CMD_READ_MULTIPLE);
            one.Ok? && many.Ok?
            && var r1, rn := Collect(one.value, hs), Collect(many.value, hs);
            && r1.Ok? && rn.Ok?
            && r1.value.words == rn.value.words == Window(b.dev.disk, 256 * s, DataReads(hs))
            && (r1.value.bus.dev.Drq() <==> DataReads(hs) < 256 * n)
            && (rn.value.bus.dev.Drq() <==> DataReads(hs) < 256 * n)
  {
    hide WriteReg8, Collect, Window, GetSector, DriverAccess, Addressed;
    ReadSectors(b, cmd, hs, s, n);
    ReadMultiple(b, cmd, hs, s, n);
  }
}
