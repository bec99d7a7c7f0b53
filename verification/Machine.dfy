/** The emulator's globals as one object (exec.c, i-mmu.c, d-mmu.c, irqc.c,
    memory-mmio.c), updated in place by the loop of `cpu_exec`.  Each method is
    proved against the function of Exec.dfy it implements. */
module Machine {
  import opened Words
  import opened Msr
  import opened Mmu
  import opened Memory
  import opened Mmio
  import opened Decode
  import opened Exec
  import Interrupts
  import Runs
  import Invariants
  import CallStack
  import Ata
  import opened AtaDevice
  import opened MsrRegs
  import opened Peripherals

  /** How an instruction leaves the loop body, or that the process exits or
      runs into undefined behaviour. */
  datatype Leave = Falls | Flushes | HasRaised | Stops(st: Status)

  ghost predicate Implements(l: Leave, spec: Res<Next>, now: Cpu) {
    match spec
    case Ok(Fall(c)) => l == Falls && now == c
    case Ok(Flush(c)) => l == Flushes && now == c
    case Ok(Raised(c)) => l == HasRaised && now == c
    case Panic => l == Stops(Exits)
    case Undefined => l == Stops(Undef)
  }

  function LoadFrom(c: Cpu, pa: Word, w: Width, n: nat): Res<Next> {
    var l :- BusLoad(c, pa, w);
    SetRegNext(l.cpu, n, l.value)
  }

  lemma LoadByParts(c: Cpu, w: Width, ins: Word, base: Word)
    requires Exec.GetReg(c, Rs1(ins)) == Ok(base)
    ensures var va := Wrap(base + Simm14(ins));
            var t := Dmmu(c.msr, va, false);
            Exec.ExecLoad(c, w, ins) == if t.Hit? then LoadFrom(c, t.pa, w, Rd(ins))
                                        else Ok(Raised(Exec.RaiseException(c, DataVector(t), va, false)))
  {
    hide Exec.GetReg, BusLoad, Dmmu, Exec.RaiseException, Simm14, Rs1, Rd, SetRegNext;
  }

  function StoreTo(c: Cpu, pa: Word, w: Width, n: nat): Res<Next> {
    var v :- Exec.GetReg(c, n);
    var c' :- BusStore(c, pa, w, v);
    Ok(Fall(c'))
  }

  lemma StoreByParts(c: Cpu, w: Width, ins: Word, base: Word)
    requires Exec.GetReg(c, Rd(ins)) == Ok(base)
    ensures var va := Wrap(base + Simm14(ins));
            var t := Dmmu(c.msr, va, true);
            Exec.ExecStore(c, w, ins) == if t.Hit? then StoreTo(c, t.pa, w, Rs1(ins))
                                         else Ok(Raised(Exec.RaiseException(c, DataVector(t), va, false)))
  {
    hide Exec.GetReg, BusStore, Dmmu, Exec.RaiseException, Simm14, Rs1, Rd;
  }

  /** The handler registrations of `dev_ata_init`, in its order. */
  method RegisterAta() returns (list8: HandlerList, list16: HandlerList, list32: HandlerList)
    ensures fresh({list8, list16, list32}) && list8 != list16 && list8 != list32 && list16 != list32
    ensures list8.nodes == DOMAIN8 && list16.nodes == DOMAIN16 && list32.nodes == DOMAIN32
  {
    list8 := new HandlerList();
    list16 := new HandlerList();
    list32 := new HandlerList();
    var ok := list8.Append(Node(true, ATA_BASE, ATA_LAST, AtaWrite8));
    ok := list32.Append(Node(true, ATA_BASE, ATA_LAST, AtaWrite32));
    ok := list8.Append(Node(false, ATA_BASE, ATA_LAST, AtaRead8));
    ok := list16.Append(Node(false, ATA_BASE, ATA_LAST, AtaRead16));
    ok := list32.Append(Node(false, ATA_BASE, ATA_LAST, AtaRead32));
  }

  /** The general registers after reset. */
  method ClearedRegisters() returns (r: array<Word>)
    ensures fresh(r) && r.Length == 32 && r[..] == seq(32, _ => 0)
  {
    r := new Word[32](_ => 0);
  }

  class Machine {
    var pc: Word
    const r: array<Word>
    const msr: MsrRegs
    const memory: array<Byte>
    const ata: AtaDevice
    const trace: CallTrace
    const mmio8: HandlerList
    const mmio16: HandlerList
    const mmio32: HandlerList

    ghost predicate Valid()
      reads ata, trace, mmio8, mmio16, mmio32
    {
      && r.Length == 32
      && msr.Valid() && ata.Valid() && trace.Valid()
      && mmio8.nodes == DOMAIN8 && mmio16.nodes == DOMAIN16 && mmio32.nodes == DOMAIN32
    }

    ghost function View(): Cpu
      requires Valid()
      reads this, r, memory, msr, msr.itlbl, msr.itlbh, msr.dtlbl, msr.dtlbh
      reads ata, ata.id16, ata.diskChunk, trace, trace.traces, mmio8, mmio16, mmio32
    {
      Cpu(pc, r[..], msr.View(), memory[..], ata.View(), trace.View())
    }

    /** What `main` sets up: memory, the device and its handlers, then the
        processor reset. */
    constructor (ram: array<Byte>, id: array<Half>, disk: array<Half>, vector: Word)
      requires id != disk
      ensures Valid() && ata.id16 == id && ata.diskChunk == disk
      ensures memory == ram && View().pc == vector && Invariants.Boot(View())
    {
      pc := vector;
      memory := ram;
      var cleared := ClearedRegisters();
      var regs := new MsrRegs();
      var device := new AtaDevice(id, disk);
      var calls := new CallTrace();
      var list8, list16, list32 := RegisterAta();
      r, msr, ata, trace, mmio8, mmio16, mmio32 := cleared, regs, device, calls, list8, list16, list32;
      new;
      hide MSR_RESET, Ata.Reset;
    }

    /** `cpu_get_reg`. */
    method GetReg(n: nat) returns (ok: bool, v: Word)
      requires Valid()
      ensures Exec.GetReg(View(), n) == if ok then Ok(v) else Panic
    {
      if n >= 32 {
        return false, 0;
      }
      ok, v := true, if n == 0 then 0 else r[n];
    }

    /** `cpu_set_reg`. */
    method SetReg(n: nat, v: Word) returns (ok: bool)
      requires Valid()
      modifies r
      ensures Valid() && Exec.SetReg(old(View()), n, v) == if ok then Ok(View()) else Panic
    {
      ok := n < 32;
      if ok && n != 0 {
        r[n] := v;
      }
    }

    /** `cpu_raise_exception`. */
    method RaiseException(vector: Word, lsa: Word, syscall: bool)
      requires Valid()
      modifies this`pc, msr
      ensures Valid() && View() == Exec.RaiseException(old(View()), vector, lsa, syscall)
    {
      msr.EnterException(Wrap(pc + (if syscall then 4 else 0)), lsa);
      pc := Wrap(vector - 4);
    }

    // ---------- translation ----------

    /** `immu_translate_vma`: the physical address, or None with the exception
        raised. */
    method ImmuTranslate(va: Word) returns (pa: Option<Word>)
      requires Valid()
      modifies this`pc, msr
      ensures Valid()
      ensures match Immu(old(View()).msr, va)
              case Hit(p) => pa == Some(p) && View() == old(View())
              case Miss => pa == None && View() == Exec.RaiseException(old(View()), VECT_EITM, va, false)
              case Denied => pa == None && View() == Exec.RaiseException(old(View()), VECT_EIPF, va, false)
    {
      hide Exec.RaiseException;
      if msr.psr.imme {
        var vpn := va / 0x2000;
        var offset := vpn % 128;
        if msr.itlbl[offset].v && msr.itlbl[offset].vpn == vpn {
          if (msr.psr.rm && !msr.itlbh[offset].rx) || (!msr.psr.rm && !msr.itlbh[offset].ux) {
            RaiseException(VECT_EIPF, va, false);
            return None;
          }
          return Some(msr.itlbh[offset].ppn % 0x8_0000 * 0x2000 + va % 0x2000);
        } else {
          RaiseException(VECT_EITM, va, false);
          return None;
        }
      }
      pa := Some(va);
    }

    /** `dmmu_translate_vma`. */
    method DmmuTranslate(va: Word, store: bool) returns (pa: Option<Word>)
      requires Valid()
      modifies this`pc, msr
      ensures Valid()
      ensures var t := Dmmu(old(View()).msr, va, store);
              if t.Hit? then pa == Some(t.pa) && View() == old(View())
              else pa == None && View() == Exec.RaiseException(old(View()), DataVector(t), va, false)
    {
      hide Exec.RaiseException;
      if msr.psr.dmme {
        var vpn := va / 0x2000;
        var offset := vpn % 128;
        if msr.dtlbl[offset].v && msr.dtlbl[offset].vpn == vpn {
          if msr.psr.rm {
            if (store && !msr.dtlbh[offset].rw) || (!store && !msr.dtlbh[offset].rr) {
              RaiseException(VECT_EDPF, va, false);
              return None;
            }
          } else {
            if (store && !msr.dtlbh[offset].uw) || (!store && !msr.dtlbh[offset].ur) {
              RaiseException(VECT_EDPF, va, false);
              return None;
            }
          }
          return Some(msr.dtlbh[offset].ppn % 0x8_0000 * 0x2000 + va % 0x2000);
        } else {
          RaiseException(VECT_EDTM, va, false);
          return None;
        }
      }
      pa := Some(va);
    }

    // ---------- physical memory ----------

    method FindHandler(pa: Word, w: Width, write: bool) returns (ok: bool, node: Option<Node>)
      requires Valid()
      ensures Dispatch(Domain(w), pa, write) == if ok then Ok(node) else Panic
    {
      match w {
        case W8 => ok, node := mmio8.Find(pa, write);
        case W16 => ok, node := mmio16.Find(pa, write);
        case W32 => ok, node := mmio32.Find(pa, write);
      }
    }

    method ReadMemory(pa: Word, w: Width) returns (v: Word)
      requires Valid() && pa + w.Bytes() <= memory.Length
      ensures v == LoadRam(memory[..], pa, w)
    {
      match w {
        case W8 => v := memory[pa];
        case W16 => v := memory[pa + 1] as int * 0x100 + memory[pa];
        case W32 =>
          v := memory[pa + 3] as int * 0x100_0000 + memory[pa + 2] as int * 0x1_0000
               + memory[pa + 1] as int * 0x100 + memory[pa];
      }
    }

    method WriteMemory(pa: Word, w: Width, v: Word)
      requires Valid() && pa + w.Bytes() <= memory.Length
      modifies memory
      ensures memory[..] == StoreRam(old(memory[..]), pa, w, v)
    {
      memory[pa] := v % 0x100;
      if w == W16 {
        memory[pa + 1] := v / 0x100 % 0x100;
      } else if w == W32 {
        memory[pa + 1] := v / 0x100 % 0x100;
        memory[pa + 2] := v / 0x1_0000 % 0x100;
        memory[pa + 3] := v / 0x100_0000;
      }
    }

    /** `phy_readm8/16/32`. */
    method PhyRead(pa: Word, w: Width) returns (st: Status, v: Word)
      requires Valid()
      modifies ata, msr`irr
      ensures Valid()
      ensures BusLoad(old(View()), pa, w)
           == match st case Fine => Ok(Loaded(View(), v)) case Exits => Panic case Undef => Undefined
    {
      hide Dispatch, Ata.ReadReg8, Ata.ReadReg16, LoadRam;
      v := 0;
      var ok, node := FindHandler(pa, w, false);
      if !ok {
        return Exits, 0;
      }
      if node.Some? {
        match node.value.handler {
          case AtaRead8 => st, v := ata.ReadReg8(pa, msr);
          case AtaRead16 => st, v := ata.ReadReg16(pa, msr);
          case _ => st := Exits;
        }
      } else if pa + w.Bytes() > memory.Length {
        st := Undef;
      } else {
        st := Fine;
        v := ReadMemory(pa, w);
      }
    }

    /** `phy_writem8/16/32`. */
    method PhyWrite(pa: Word, w: Width, v: Word) returns (st: Status)
      requires Valid()
      modifies ata, msr`irr, memory
      ensures Valid()
      ensures BusStore(old(View()), pa, w, v)
           == match st case Fine => Ok(View()) case Exits => Panic case Undef => Undefined
    {
      hide Dispatch, Ata.WriteReg8, StoreRam;
      var ok, node := FindHandler(pa, w, true);
      if !ok {
        return Exits;
      }
      if node.Some? {
        match node.value.handler {
          case AtaWrite8 => st := ata.WriteReg8(pa, v % 0x100, msr);
          case _ => st := Exits;
        }
      } else if pa + w.Bytes() > memory.Length {
        st := Undef;
      } else {
        st := Fine;
        WriteMemory(pa, w, v);
      }
    }

    // ---------- instructions ----------

    method SecondOperand(second: Operand, ins: Word) returns (ok: bool, v: Word)
      requires Valid()
      ensures Exec.SecondOperand(View(), second, ins) == if ok then Ok(v) else Panic
    {
      match second {
        case Register => ok, v := GetReg(Rs2(ins));
        case Zimm => ok, v := true, Imm14(ins);
        case Simm => ok, v := true, Simm14(ins);
      }
    }

    method ExecAlu(form: AluForm, ins: Word) returns (l: Leave)
      requires Valid() && form.AluForm?
      modifies r
      ensures Valid() && Implements(l, Exec.ExecAlu(old(View()), form, ins), View())
    {
      hide AluValue, Exec.GetReg, Exec.SetReg, Exec.SecondOperand;
      var ok, a := GetReg(Rs1(ins));
      if !ok {
        return Stops(Exits);
      }
      var b;
      ok, b := SecondOperand(form.second, ins);
      if !ok {
        return Stops(Exits);
      }
      match AluValue(form.alu, a, b) {
        case Ok(v) =>
          ok := SetReg(Rd(ins), v);
          l := if ok then Falls else Stops(Exits);
        case Panic => l := Stops(Exits);
        case Undefined => l := Stops(Undef);
      }
    }

    /** Writes a result register and falls through. */
    method Retire(n: nat, v: Word) returns (l: Leave)
      requires Valid()
      modifies r
      ensures Valid() && Implements(l, SetRegNext(old(View()), n, v), View())
    {
      var ok := SetReg(n, v);
      l := if ok then Falls else Stops(Exits);
    }

    /** The call tracing of JMP. */
    method TraceJmp(ins: Word, frame: CallStack.Frame) returns (ok: bool)
      requires Valid()
      modifies trace, trace.traces
      ensures Valid()
      ensures if !ok then Rs1(ins) != RLNK && Rd(ins) == RLNK && CallStack.Jmp(old(View()).trace, frame) == Panic
              else View() == old(View()).(trace := View().trace)
                   && if Rs1(ins) == RLNK then View().trace == CallStack.Return(old(View()).trace)
                      else if Rd(ins) == RLNK then CallStack.Jmp(old(View()).trace, frame) == Ok(View().trace)
                      else View().trace == old(View()).trace
    {
      hide CallStack.Jmp, CallStack.Return;
      ok := true;
      if Rs1(ins) == RLNK {
        trace.Return();
      } else if Rd(ins) == RLNK {
        ok := trace.Jmp(frame);
      }
    }

    method ExecJmp(ins: Word) returns (l: Leave)
      requires Valid()
      modifies this`pc, r, trace, trace.traces
      ensures Valid() && Implements(l, Exec.ExecJmp(old(View()), ins), View())
    {
      hide Exec.GetReg, Exec.SetReg, CallStack.Jmp, CallStack.Return, Rs1, Rd;
      var insnPc, lnk := pc, Wrap(pc + 4);
      var ok := SetReg(Rd(ins), lnk);
      if !ok {
        return Stops(Exits);
      }
      var target;
      ok, target := GetReg(Rs1(ins));
      if !ok {
        return Stops(Exits);
      }
      pc := target;
      ok := TraceJmp(ins, CallStack.Frame(insnPc, lnk, target));
      l := if ok then Flushes else Stops(Exits);
    }

    method ExecJmpLnk(ins: Word) returns (l: Leave)
      requires Valid()
      modifies this`pc, r, trace, trace.traces
      ensures Valid() && Implements(l, Exec.ExecJmpLnk(old(View()), ins), View())
    {
      hide CallStack.Jmp, Displacement, Rel26;
      var insnPc, lnk := pc, Wrap(pc + 4);
      var ok := SetReg(RLNK, lnk);
      pc := Wrap(pc + Displacement(Rel26(ins)));
      ok := trace.Jmp(CallStack.Frame(insnPc, lnk, pc));
      l := if ok then Flushes else Stops(Exits);
    }

    /** JMP_I, and BT and BF when they are taken. */
    method JumpRelative(ins: Word) returns (l: Leave)
      requires Valid()
      modifies this`pc
      ensures Valid() && l == Flushes && View() == old(View()).(pc := PcRelative(old(View()), ins))
    {
      hide Displacement;
      pc := Wrap(pc + Displacement(Rel26(ins)));
      l := Flushes;
    }

    method IllegalInsn() returns (l: Leave)
      requires Valid()
      modifies this`pc, msr
      ensures Valid() && Implements(l, Ok(Illegal(old(View()))), View())
    {
      RaiseException(VECT_EINSN, pc, false);
      l := HasRaised;
    }

    method ExecCmp(ins: Word) returns (l: Leave)
      requires Valid()
      modifies this`pc, msr
      ensures Valid() && Implements(l, Exec.ExecCmp(old(View()), ins), View())
    {
      hide Exec.GetReg, Illegal, Signed;
      if Attr(ins) > ATTR_CMPGTU {
        l := IllegalInsn();
        return;
      }
      var ok, a := GetReg(Rs1(ins));
      if !ok {
        return Stops(Exits);
      }
      var b;
      ok, b := GetReg(Rs2(ins));
      if !ok {
        return Stops(Exits);
      }
      if Attr(ins) == ATTR_CMPEQ {
        msr.psr := msr.psr.(cc := (a == b));
      } else if Attr(ins) == ATTR_CMPGT {
        msr.psr := msr.psr.(cc := Signed(a) > Signed(b));
      } else {
        msr.psr := msr.psr.(cc := a > b);
      }
      l := Falls;
    }

    /** The part of a load after its address is translated. */
    method LoadAt(pa: Word, w: Width, n: nat) returns (l: Leave)
      requires Valid()
      modifies msr`irr, ata, r
      ensures Valid() && Implements(l, LoadFrom(old(View()), pa, w, n), View())
    {
      hide BusLoad, SetRegNext;
      var st, v := PhyRead(pa, w);
      if st != Fine {
        return Stops(st);
      }
      l := Retire(n, v);
    }

    method ExecLoad(w: Width, ins: Word) returns (l: Leave)
      requires Valid()
      modifies this`pc, r, msr, ata
      ensures Valid() && Implements(l, Exec.ExecLoad(old(View()), w, ins), View())
    {
      hide Exec.GetReg, Exec.SetReg, BusLoad, Dmmu, Exec.RaiseException, Simm14, Rs1, Rd;
      var ok, base := GetReg(Rs1(ins));
      if !ok {
        return Stops(Exits);
      }
      LoadByParts(View(), w, ins, base);
      hide Exec.ExecLoad, LoadFrom;
      var pa := DmmuTranslate(Wrap(base + Simm14(ins)), false);
      if pa.None? {
        return HasRaised;
      }
      l := LoadAt(pa.value, w, Rd(ins));
    }

    /** The part of a store after its address is translated. */
    method StoreAt(pa: Word, w: Width, n: nat) returns (l: Leave)
      requires Valid()
      modifies msr`irr, ata, memory
      ensures Valid() && Implements(l, StoreTo(old(View()), pa, w, n), View())
    {
      hide BusStore;
      var ok, v := GetReg(n);
      if !ok {
        return Stops(Exits);
      }
      var st := PhyWrite(pa, w, v);
      l := if st == Fine then Falls else Stops(st);
    }

    method ExecStore(w: Width, ins: Word) returns (l: Leave)
      requires Valid()
      modifies this`pc, msr, ata, memory
      ensures Valid() && Implements(l, Exec.ExecStore(old(View()), w, ins), View())
    {
      hide Exec.GetReg, BusStore, Dmmu, Exec.RaiseException, Simm14, Rs1, Rd;
      var ok, base := GetReg(Rd(ins));
      if !ok {
        return Stops(Exits);
      }
      StoreByParts(View(), w, ins, base);
      hide Exec.ExecStore, StoreTo;
      var pa := DmmuTranslate(Wrap(base + Simm14(ins)), true);
      if pa.None? {
        return HasRaised;
      }
      l := StoreAt(pa.value, w, Rs1(ins));
    }

    method ExecWmsr(ins: Word) returns (l: Leave)
      requires Valid()
      modifies msr, msr.itlbl, msr.itlbh, msr.dtlbl, msr.dtlbh
      ensures Valid() && Implements(l, Exec.ExecWmsr(old(View()), ins), View())
    {
      hide Exec.GetReg, Wmsr, MsrIndex;
      var ok, base := GetReg(Rd(ins));
      if !ok {
        return Stops(Exits);
      }
      var v;
      ok, v := GetReg(Rs1(ins));
      if !ok {
        return Stops(Exits);
      }
      ok := msr.Wmsr(MsrIndex(base, ins), v);
      l := if ok then Falls else Stops(Exits);
    }

    method ExecRmsr(ins: Word) returns (l: Leave)
      requires Valid()
      modifies r
      ensures Valid() && Implements(l, Exec.ExecRmsr(old(View()), ins), View())
    {
      hide Exec.GetReg, Exec.SetReg, Rmsr, MsrIndex;
      var ok, base := GetReg(Rs1(ins));
      if !ok {
        return Stops(Exits);
      }
      var v := msr.Rmsr(MsrIndex(base, ins));
      if v.None? {
        return Stops(Exits);
      }
      l := Retire(Rd(ins), v.value);
    }

    /** RET, SYSCALL, the MSR accesses and the instructions that do nothing. */
    method ExecSystem(ins: Word) returns (l: Leave)
      requires Valid() && Opcode(ins) in {OP_SYSCALL, OP_RET, OP_WMSR, OP_RMSR, OP_BARR, OP_VENTER, OP_VLEAVE}
      modifies this`pc, r, msr, msr.itlbl, msr.itlbh, msr.dtlbl, msr.dtlbh
      ensures Valid() && Implements(l, Exec.Execute(old(View()), ins), View())
    {
      SystemInsns(View(), ins);
      hide Exec.Execute, Exec.ExecWmsr, Exec.ExecRmsr, Exec.RaiseException, Opcode;
      var op := Opcode(ins);
      l := Falls;
      if op == OP_SYSCALL {
        RaiseException(VECT_ESYSCALL, 0, true);
        l := HasRaised;
      } else if op == OP_RET {
        msr.psr := msr.epsr;
        pc := msr.epc;
        l := Flushes;
      } else if op == OP_WMSR {
        l := ExecWmsr(ins);
      } else if op == OP_RMSR {
        l := ExecRmsr(ins);
      }
    }

    /** The `switch` on the opcode. */
    method Execute(ins: Word) returns (l: Leave)
      requires Valid()
      modifies this`pc, r, memory, msr, msr.itlbl, msr.itlbh, msr.dtlbl, msr.dtlbh, ata, trace, trace.traces
      ensures Valid() && Implements(l, Exec.Execute(old(View()), ins), View())
    {
      hide Exec.ExecAlu, Exec.ExecLoad, Exec.ExecStore, Exec.ExecJmp, Exec.ExecJmpLnk, Exec.ExecCmp, Exec.ExecWmsr,
           Exec.ExecRmsr, ExecRet, SetRegNext, Illegal, PcRelative, Exec.RaiseException, Opcode, Rd, Imm18, Implements;
      var op := Opcode(ins);
      if AluOf(op).AluForm? {
        l := ExecAlu(AluOf(op), ins);
      } else if LoadWidth(op).Some? {
        l := ExecLoad(LoadWidth(op).value, ins);
      } else if StoreWidth(op).Some? {
        l := ExecStore(StoreWidth(op).value, ins);
      } else if op == OP_MHI {
        l := Retire(Rd(ins), Wrap(Imm18(ins) * 0x4000));
      } else if op == OP_JMP {
        l := ExecJmp(ins);
      } else if op == OP_JMP_I_LNK {
        l := ExecJmpLnk(ins);
      } else if op == OP_JMP_I || op == OP_BT || op == OP_BF {
        l := ExecBranch(ins);
      } else if op == OP_CMP {
        l := ExecCmp(ins);
      } else if op in {OP_SYSCALL, OP_RET, OP_WMSR, OP_RMSR, OP_BARR, OP_VENTER, OP_VLEAVE} {
        l := ExecSystem(ins);
      } else {
        l := IllegalInsn();
      }
    }

    method ExecBranch(ins: Word) returns (l: Leave)
      requires Valid() && Opcode(ins) in {OP_JMP_I, OP_BT, OP_BF}
      modifies this`pc
      ensures Valid() && Implements(l, Exec.Execute(old(View()), ins), View())
    {
      BranchInsns(View(), ins);
      hide Exec.Execute, Opcode, PcRelative;
      var op := Opcode(ins);
      l := Falls;
      if op == OP_JMP_I || (op == OP_BT && msr.psr.cc) || (op == OP_BF && !msr.psr.cc) {
        l := JumpRelative(ins);
      }
    }

    // ---------- the loop ----------

    /** Fetch, decode and execute. */
    method FetchExecute() returns (l: Leave)
      requires Valid()
      modifies this`pc, r, memory, msr, msr.itlbl, msr.itlbh, msr.dtlbl, msr.dtlbh, ata, trace, trace.traces
      ensures Valid() && Implements(l, FetchExecuteSpec(old(View())), View())
    {
      hide Exec.Execute, Exec.RaiseException, BusLoad, Immu;
      var pa := ImmuTranslate(pc);
      if pa.None? {
        return HasRaised;
      }
      var st, ins := PhyRead(pa.value, W32);
      if st != Fine {
        return Stops(st);
      }
      l := Execute(ins);
    }

    /** Poll interrupts, then fetch, decode and execute. */
    method PollAndExecute() returns (l: Leave)
      requires Valid()
      modifies this`pc, r, memory, msr, msr.itlbl, msr.itlbh, msr.dtlbl, msr.dtlbh, ata, trace, trace.traces
      ensures Valid() && Implements(l, PollAndExecuteSpec(old(View())), View())
    {
      hide FetchExecuteSpec, Exec.RaiseException, Interrupts.IrqPending;
      var taken := HandleIrqs();
      if taken {
        return HasRaised;
      }
      l := FetchExecute();
    }

    method Clock()
      requires Valid()
      modifies msr
      ensures Valid() && View() == Tick(old(View()))
    {
      hide Interrupts.TscClk;
      msr.TscClk();
    }

    /** The end of the loop body: `handle_exception` falls into `flush_pc`. */
    method EndOfBody(l: Leave, ghost n: Next)
      requires Valid() && Implements(l, Ok(n), View())
      modifies this`pc
      ensures Valid() && View() == Finish(n).cpu && (l == HasRaised) == Finish(n).trapped
    {
      if l != Flushes {
        pc := Wrap(pc + 4);
      }
    }

    /** One iteration of the loop in `cpu_exec`: whether an exception was
        raised, or that the process does not go on. */
    method Step() returns (st: Status, trapped: bool)
      requires Valid()
      modifies this`pc, r, memory, msr, msr.itlbl, msr.itlbh, msr.dtlbl, msr.dtlbh, ata, trace, trace.traces
      ensures Valid()
      ensures Exec.Step(old(View()))
           == match st case Fine => Ok(Stepped(View(), trapped)) case Exits => Panic case Undef => Undefined
    {
      hide Exec.Step, PollAndExecuteSpec, Finish, Tick;
      ghost var c := View();
      StepParts(c);
      Clock();
      var l := PollAndExecute();
      if l.Stops? {
        return l.st, false;
      }
      EndOfBody(l, PollAndExecuteSpec(Tick(c)).value);
      st, trapped := Fine, l == HasRaised;
    }

    /** `irqc_handle_irqs`. */
    method HandleIrqs() returns (taken: bool)
      requires Valid()
      modifies this`pc, msr
      ensures Valid() && taken == Interrupts.IrqPending(old(View()).msr)
      ensures View() == if taken then Exec.RaiseException(old(View()), VECT_EIRQ, 0, false) else old(View())
    {
      hide Exec.RaiseException;
      taken := msr.psr.ire && And(msr.irr, Not(msr.imr)) != 0;
      if taken {
        RaiseException(VECT_EIRQ, 0, false);
      }
    }

    /** `n` iterations of the loop, or fewer if the process stops. */
    method Run(n: nat) returns (st: Status)
      requires Valid()
      modifies this`pc, r, memory, msr, msr.itlbl, msr.itlbh, msr.dtlbl, msr.dtlbh, ata, trace, trace.traces
      ensures Valid()
      ensures st == Fine <==> Runs.After(old(View()), n).Ok?
      ensures st == Fine ==> Runs.After(old(View()), n) == Ok(View())
    {
      hide Exec.Step;
      for i := 0 to n
        invariant Valid() && Runs.After(old(View()), i) == Ok(View())
      {
        var trapped;
        st, trapped := Step();
        if st != Fine {
          if Runs.After(old(View()), n).Ok? {
            Runs.PrefixRuns(old(View()), i, n);
          }
          return;
        }
      }
      st := Fine;
    }
  }

  /** The loop body after the interrupt poll. */
  function FetchExecuteSpec(c: Cpu): Res<Next> {
    match Immu(c.msr, c.pc)
    case Miss => Ok(Raised(Exec.RaiseException(c, VECT_EITM, c.pc, false)))
    case Denied => Ok(Raised(Exec.RaiseException(c, VECT_EIPF, c.pc, false)))
    case Hit(pa) =>
      var l :- BusLoad(c, pa, W32);
      Exec.Execute(l.cpu, l.value)
  }

  function PollAndExecuteSpec(c: Cpu): Res<Next> {
    if Interrupts.IrqPending(c.msr) then Ok(Raised(Exec.RaiseException(c, VECT_EIRQ, 0, false)))
    else FetchExecuteSpec(c)
  }

  lemma StepParts(c: Cpu)
    ensures Exec.Step(c) == match PollAndExecuteSpec(Tick(c))
                            case Ok(n) => Ok(Stepped(Finish(n).cpu, Finish(n).trapped))
                            case Panic => Panic
                            case Undefined => Undefined
  {
    hide Interrupts.TscClk, Interrupts.IrqPending, Immu, BusLoad, Exec.Execute, Exec.RaiseException;
  }

  lemma BranchInsns(c: Cpu, ins: Word)
    requires Opcode(ins) in {OP_JMP_I, OP_BT, OP_BF}
    ensures Exec.Execute(c, ins)
         == Ok(if Opcode(ins) == OP_JMP_I || (Opcode(ins) == OP_BT && c.msr.psr.cc)
                  || (Opcode(ins) == OP_BF && !c.msr.psr.cc)
               then Flush(c.(pc := PcRelative(c, ins))) else Fall(c))
  {
    hide Opcode, PcRelative;
    BranchOpcode(Opcode(ins));
    hide AluOf, LoadWidth, StoreWidth;
  }

  lemma BranchOpcode(op: nat)
    requires op in {OP_JMP_I, OP_BT, OP_BF}
    ensures AluOf(op).NotAlu? && LoadWidth(op).None? && StoreWidth(op).None?
  {
  }

  lemma SystemInsns(c: Cpu, ins: Word)
    requires Opcode(ins) in {OP_SYSCALL, OP_RET, OP_WMSR, OP_RMSR, OP_BARR, OP_VENTER, OP_VLEAVE}
    ensures Exec.Execute(c, ins)
         == if Opcode(ins) == OP_SYSCALL then Ok(Raised(Exec.RaiseException(c, VECT_ESYSCALL, 0, true)))
            else if Opcode(ins) == OP_RET then Ok(ExecRet(c))
            else if Opcode(ins) == OP_WMSR then Exec.ExecWmsr(c, ins)
            else if Opcode(ins) == OP_RMSR then Exec.ExecRmsr(c, ins)
            else Ok(Fall(c))
  {
    hide Opcode, Exec.ExecWmsr, Exec.ExecRmsr, ExecRet, Exec.RaiseException;
    PlainOpcode(Opcode(ins));
    hide AluOf, LoadWidth, StoreWidth;
  }

  /** Opcodes outside the arithmetic and memory groups. */
  lemma PlainOpcode(op: nat)
    requires op in {OP_SYSCALL, OP_RET, OP_WMSR, OP_RMSR, OP_BARR, OP_VENTER, OP_VLEAVE}
    ensures AluOf(op).NotAlu? && LoadWidth(op).None? && StoreWidth(op).None?
  {
  }
}
