/** The ATA device as the emulator keeps it (device-ata.c:81-104, 221-509):
    registers updated in place, a buffer reference that aliases one of two
    arrays, and an interrupt line in the processor's request register. */
module AtaDevice {
  import opened Words
  import Ata
  import MsrRegs

  datatype Status = Fine | Exits | Undef

  class AtaDevice {
    var control: Byte
    var error: Byte
    var feature: Byte
    var sectorCount: Half
    var sectorNumber: Byte
    var cylinderLow: Byte
    var cylinderHigh: Byte
    var driverHead: Byte
    var status: Byte
    var command: Byte
    var drv: bool
    var bufBase: array<Half>
    var bufPos: int
    var bufLen: int
    const id16: array<Half>
    const diskChunk: array<Half>

    ghost predicate Valid()
      reads this
    {
      && id16 != diskChunk
      && (bufBase == id16 || bufBase == diskChunk)
    }

    ghost function View(): Ata.Device
      requires Valid()
      reads this, id16, diskChunk
    {
      Ata.Device(control, error, feature, sectorCount, sectorNumber, cylinderLow, cylinderHigh, driverHead,
                 status, command, drv, if bufBase == id16 then Ata.IdBuffer else Ata.DiskBuffer,
                 bufPos, bufLen, id16[..], diskChunk[..])
    }

    /** The device and its interrupt line. */
    ghost function Bus(msr: MsrRegs.MsrRegs): Ata.Bus
      requires Valid()
      reads this, id16, diskChunk, msr
    {
      Ata.Bus(View(), msr.irr)
    }

    constructor (id: array<Half>, disk: array<Half>)
      requires id != disk
      ensures Valid() && id16 == id && diskChunk == disk
      ensures View() == Ata.Reset(View())
    {
      id16, diskChunk, bufBase := id, disk, id;
      control, error, feature := 0x8, 0x1, 0;
      sectorCount, sectorNumber, cylinderLow, cylinderHigh, driverHead := 1, 1, 0, 0, 0xa0;
      status, command := Ata.STATUS_DRDY, 0;
      drv, bufPos, bufLen := true, 0, 256;
    }

    method GetSector() returns (ok: bool, sector: Word)
      requires Valid()
      ensures Ata.GetSector(View()) == if ok then Ok(sector) else Panic
    {
      ok, sector := driverHead / 0x40 % 2 == 1, 0;
      if ok {
        sector := driverHead % 0x10 * 0x100_0000 + cylinderHigh as int * 0x1_0000
                  + cylinderLow as int * 0x100 + sectorNumber;
      }
    }

    method SetSector(sector: Word) returns (ok: bool)
      requires Valid()
      modifies this
      ensures Valid() && Ata.SetSector(old(View()), sector) == if ok then Ok(View()) else Panic
    {
      ok := driverHead / 0x40 % 2 == 1;
      if ok {
        sectorNumber := sector % 0x100;
        cylinderLow := sector / 0x100 % 0x100;
        cylinderHigh := sector / 0x1_0000 % 0x100;
        driverHead := driverHead / 0x10 * 0x10 + sector / 0x100_0000 % 0x10;
      }
    }

    method Interrupt(msr: MsrRegs.MsrRegs)
      requires Valid()
      modifies msr`irr
      ensures Bus(msr) == Ata.Interrupt(old(Bus(msr)))
    {
      if control / 2 % 2 == 0 {
        msr.SetInterrupt(Ata.IRQ_ATA, true);
      }
    }

    /** Sector count and address as after a reset; the drive selection stays. */
    method ResetAddress()
      requires Valid()
      modifies this
      ensures Valid()
      ensures View() == old(View()).(driverHead := old(driverHead) / 0x10 * 0x10,
                                     sectorCount := 1, sectorNumber := 1, cylinderLow := 0, cylinderHigh := 0)
    {
      driverHead := driverHead / 0x10 * 0x10;
      sectorCount, sectorNumber, cylinderLow, cylinderHigh := 1, 1, 0, 0;
    }

    /** The host releases the reset bit. */
    method FinishReset()
      requires Valid()
      modifies this
      ensures Valid()
      ensures View() == old(View()).(driverHead := old(driverHead) / 0x10 * 0x10, status := Ata.STATUS_READY,
                                     sectorCount := 1, sectorNumber := 1, cylinderLow := 0, cylinderHigh := 0,
                                     error := 1, command := 0)
    {
      ResetAddress();
      status := Ata.STATUS_READY;
      error, command := 1, 0;
    }

    /** The host sets the reset bit. */
    method BeginReset()
      requires Valid()
      modifies this
      ensures Valid() && View() == old(View()).(error := 1, status := Ata.STATUS_BSY + Ata.STATUS_DSC)
    {
      error := 1;
      status := Ata.STATUS_BSY + Ata.STATUS_DSC;
    }

    method WriteControl(v: Byte)
      requires Valid()
      modifies this
      ensures Valid() && View() == Ata.WriteControl(old(View()), v)
    {
      if v / 4 % 2 == 0 && control / 4 % 2 == 1 {
        FinishReset();
      } else if v / 4 % 2 == 1 && control / 4 % 2 == 0 {
        BeginReset();
      }
      control := v;
    }

    method OpenWindow(sectors: nat) returns (st: Status)
      requires Valid()
      modifies this
      ensures Valid()
      ensures Ata.OpenWindow(old(View()), sectors)
           == match st case Fine => Ok(View()) case Exits => Panic case Undef => Undefined
    {
      var ok, sector := GetSector();
      if !ok {
        return Exits;
      }
      var pos := Signed(Wrap(sector as int * 256));
      if pos + 256 * sectors > Ata.INT_MAX {
        return Undef;
      }
      bufBase := diskChunk;
      bufPos := pos;
      bufLen := pos + 256 * sectors;
      status := Ata.STATUS_TRANSFER;
      error := 0;
      st := Fine;
    }

    method Identify()
      requires Valid()
      modifies this
      ensures Valid()
      ensures View() == old(View()).(base := Ata.IdBuffer, pos := 0, len := 256, status := Ata.STATUS_TRANSFER)
    {
      bufBase := id16;
      bufPos := 0;
      bufLen := 256;
      status := Ata.STATUS_TRANSFER;
    }

    /** The read and write commands; `whole` opens the window at once. */
    method StartTransfer(whole: bool) returns (st: Status)
      requires Valid()
      modifies this
      ensures Valid()
      ensures var d := old(View());
              var count: Half := if d.sectorCount == 0 then 256 else d.sectorCount;
              Ata.OpenWindow(d.(sectorCount := count), if whole then count else 1)
              == match st case Fine => Ok(View()) case Exits => Panic case Undef => Undefined
    {
      hide Ata.OpenWindow;
      if sectorCount == 0 {
        sectorCount := 256;
      }
      st := OpenWindow(if whole then sectorCount else 1);
    }

    method WriteCommand(v: Byte, msr: MsrRegs.MsrRegs) returns (st: Status)
      requires Valid()
      modifies this, msr`irr
      ensures Valid()
      ensures Ata.WriteCommand(old(Bus(msr)), v)
           == match st case Fine => Ok(Bus(msr)) case Exits => Panic case Undef => Undefined
    {
      hide Ata.OpenWindow, Ata.Interrupt, SetLine;
      command := v;
      st := Fine;
      if v == Ata.CMD_IDENTIFY {
        Identify();
        Interrupt(msr);
      } else if v == Ata.CMD_INIT_PARAMETERS {
        status := Ata.STATUS_READY;
        error := 0;
        Interrupt(msr);
      } else if v == Ata.CMD_READ_SECTORS || v == Ata.CMD_WRITE_SECTORS {
        st := StartTransfer(false);
        if st == Fine && v == Ata.CMD_READ_SECTORS {
          Interrupt(msr);
        }
      } else if v == Ata.CMD_READ_MULTIPLE || v == Ata.CMD_WRITE_MULTIPLE {
        st := StartTransfer(true);
        if st == Fine && v == Ata.CMD_READ_MULTIPLE {
          Interrupt(msr);
        }
      } else {
        st := Exits;
      }
    }

    /** `dev_ata_writereg8`. */
    method WriteReg8(addr: Word, v: Byte, msr: MsrRegs.MsrRegs) returns (st: Status)
      requires Valid()
      modifies this, msr`irr
      ensures Valid()
      ensures Ata.WriteReg8(old(Bus(msr)), addr, v)
           == match st case Fine => Ok(Bus(msr)) case Exits => Panic case Undef => Undefined
    {
      hide Ata.WriteCommand, Ata.WriteControl;
      var reg := addr % 0x1000;
      st := Fine;
      if reg == Ata.REG_DRIVER_HEAD {
        driverHead := v;
        drv := v / 0x10 % 2 == 0;
      } else if reg == Ata.REG_CONTROL {
        WriteControl(v);
      } else if !drv {
      } else if reg == Ata.REG_ERROR {
        feature := v;
      } else if reg == Ata.REG_SECTOR_COUNT {
        sectorCount := v;
      } else if reg == Ata.REG_SECTOR_NUMBER {
        sectorNumber := v;
      } else if reg == Ata.REG_CYLINDER_LOW {
        cylinderLow := v;
      } else if reg == Ata.REG_CYLINDER_HIGH {
        cylinderHigh := v;
      } else if reg == Ata.REG_STATUS {
        st := WriteCommand(v, msr);
      } else {
        st := Exits;
      }
    }

    /** `dev_ata_readreg8`. */
    method ReadReg8(addr: Word, msr: MsrRegs.MsrRegs) returns (st: Status, value: Half)
      requires Valid()
      modifies msr`irr
      ensures Ata.ReadReg8(old(Bus(msr)), addr)
           == match st case Fine => Ok(Ata.ReadOut(Bus(msr), value)) case Exits => Panic case Undef => Undefined
    {
      var reg := addr % 0x1000;
      st, value := Fine, 0;
      if !drv {
        value := 0xff;
      } else if reg == Ata.REG_CONTROL {
        value := status;
      } else if reg == Ata.REG_ERROR {
        value := error;
      } else if reg == Ata.REG_SECTOR_COUNT {
        value := sectorCount % 0x100;
      } else if reg == Ata.REG_SECTOR_NUMBER {
        value := sectorNumber;
      } else if reg == Ata.REG_CYLINDER_LOW {
        value := cylinderLow;
      } else if reg == Ata.REG_CYLINDER_HIGH {
        value := cylinderHigh;
      } else if reg == Ata.REG_DRIVER_HEAD {
        value := driverHead;
      } else if reg == Ata.REG_STATUS {
        msr.SetInterrupt(Ata.IRQ_ATA, false);
        value := status;
      } else {
        st := Exits;
      }
    }

    method StepSector() returns (ok: bool)
      requires Valid() && sectorCount > 0
      modifies this
      ensures Valid() && Ata.StepSector(old(View())) == if ok then Ok(View()) else Panic
    {
      hide Ata.GetSector, Ata.SetSector;
      var found, sector := GetSector();
      if !found {
        return false;
      }
      sectorCount := sectorCount - 1;
      ok := SetSector(Wrap(sector as int + 1));
    }

    /** The tail of `dev_ata_readreg16` once the window is used up. */
    method EndOfWindow(msr: MsrRegs.MsrRegs) returns (st: Status)
      requires Valid()
      modifies this, msr`irr
      ensures Valid()
      ensures Ata.EndOfWindow(old(Bus(msr)))
           == match st case Fine => Ok(Bus(msr)) case Exits => Panic case Undef => Undefined
    {
      hide Ata.StepSector, Ata.Interrupt, SetLine;
      status := Ata.STATUS_READY;
      if command == Ata.CMD_READ_SECTORS && sectorCount > 1 {
        var ok := StepSector();
        if !ok {
          return Exits;
        }
        if bufLen + 256 > Ata.INT_MAX {
          return Undef;
        }
        bufLen := bufLen + 256;
        status := Ata.STATUS_TRANSFER;
        Interrupt(msr);
      }
      st := Fine;
    }

    /** `dev_ata_readreg16`. */
    method ReadReg16(addr: Word, msr: MsrRegs.MsrRegs) returns (st: Status, value: Half)
      requires Valid()
      modifies this, msr`irr
      ensures Valid()
      ensures Ata.ReadReg16(old(Bus(msr)), addr)
           == match st case Fine => Ok(Ata.ReadOut(Bus(msr), value)) case Exits => Panic case Undef => Undefined
    {
      hide Ata.EndOfWindow;
      value := 0;
      if addr % 0x1000 != Ata.REG_DATA {
        return Exits, 0;
      }
      if !(0 <= bufPos < bufBase.Length) {
        return Undef, 0;
      }
      value := bufBase[bufPos];
      bufPos := bufPos + 1;
      st := Fine;
      if bufPos >= bufLen {
        st := EndOfWindow(msr);
      }
    }
  }
}
