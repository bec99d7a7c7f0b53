# A verified model of the NCPU32K emulator

The emulator interprets the NCPU32K instruction set: one loop clocks a timer,
polls interrupts, translates and fetches an instruction word, and executes it.
Around the loop sit two software-filled translation tables, a file of
machine-specific registers (MSRs), little-endian physical memory with a list of
device handlers, one ATA disk, and a shadow call stack.

The project has two layers.

* **Values.** `Exec.Step` is one iteration of the loop as a function on a record
  of the whole machine. `Words`, `Decode`, `Msr`, `Interrupts`, `Mmu`, `Memory`,
  `Mmio`, `Ata` and `CallStack` hold the parts it uses. Reference laws say what
  each part means without naming its functions: `Isa` for every instruction word,
  `MsrLaws` for the register layout, `AtaHost` for the disk's registers,
  `AddressLaws` for translated addresses, `AluLaws` for the operators. All run
  properties are proved about `Step` and its iteration `Runs.After`, in `Precise`,
  `Invariants`, `Handlers`, `Refill`, `Modes`, `Timer`, `VirtualMemory`,
  `Preemption`, `Calls`, `DiskReads`, `AtaRead` and `Reach`.
* **Objects.** `MsrRegs`, `AtaDevice`, `Peripherals` and `Machine` are classes
  with the emulator's own variables: register, table, memory and frame arrays,
  a buffer reference that aliases one of two arrays, handler lists extended at the
  front, registers assigned bit by bit. Each method is proved to move its
  object's `View` exactly as the corresponding function does, up to
  `Machine.Step` for `Exec.Step` and `Machine.Run` for `Runs.After`, so every
  theorem about runs holds of the imperative machine.

Conventions. A 32-bit word is an integer in [0, 2^32); wrap-around is written
`Wrap`, signed readings `Signed`. Masks and shifts over contiguous fields are
remainders and quotients; `Decode.FieldsAreMasks` ties them to the mask-and-shift
macro, and `Words.Combine` defines the bitwise operators bit by bit. `Panic`
stands for `exit`, `Undefined` for an operation C leaves undefined; both end a run.

Where the code departs from what its names or comments suggest, the code is what
is modelled: reading a DTLBL register yields 0; LDB and LDH zero-extend; DIVU and
MODU divide signed values; JMP writes its link before it reads its target; RET is
not gated by the root-mode bit; the handler overlap check compares inclusive ends
strictly; the status bit called IEN in the source is the busy bit, `STATUS_BSY`.

## Model

| member | source | states |
|---|---|---|
| Precise.PreciseExceptions | exec.c:76-98 | a step takes an exception exactly when it has a cause (interrupt before fetch before instruction), and then the whole next state is fixed: registers, memory, tables, device and call stack as the clock edge left them, pc at the vector, EPSR the old PSR, EPC the step's pc (after it for a system call), ELSA the faulting address |
| Precise.InsnTrapExactly | exec.c:176-249 | an instruction raises exactly when its encoding is undefined, it is SYSCALL, or its data translation misses or is denied, with that vector and address, before any effect |
| Precise.WordLoadIsRam | memory-mmio.c:86-101 | 32-bit reads, and so fetches, either come from memory or do not return |
| Precise.TickFrame | tsc.c:12-24 | a clock edge touches only TSR, TCR.P and the request register, and never clears P |
| Isa.ArithmeticInsn | exec.c:111-299 | for each of the twenty arithmetic opcodes: a step that fetches it retires if and only if its fields name registers and C defines the operation, and then writes to rd, in bits, signed numbers modulo 2^32, quotients or remainders, what the opcode computes of rs1 (left) and rs2 or the immediate (zero-extended for AND_I, OR_I and the shifts, sign-extended for XOR_I and ADD_I), and changes nothing else but pc and the timer |
| Isa.JmpInsn | exec.c:146-158 | JMP goes to what rs1 held before the step, or to the next instruction when rd is rs1 and not r0; it links in rd, changes no other register, and through r1 pops the call stack, else linking in r1 pushes a frame with that same target; it retires if and only if its fields name registers and the frame fits |
| Isa.CallInsn | exec.c:165-174 | JMP_I_LNK goes to pc plus four times the signed 26-bit field, links in r1 and pushes a frame with that target, if and only if the frame fits |
| Isa.RelativeInsn | exec.c:160-212 | JMP_I always, BT exactly with CC set and BF exactly with CC clear, go to pc plus four times the signed 26-bit field; they always retire and move pc alone |
| Isa.CmpInsn | exec.c:176-196 | CMP sets CC to equality, the signed or the unsigned order of rs1 and rs2 as its attribute says and changes nothing else; any other attribute raises the undefined-instruction exception |
| Isa.LoadInsn | exec.c:214-344 | for each load opcode, the whole next state: refused by translation, the 4, 2 or 1 bytes at the translated address in little-endian order zero-extended into rd, or the value and effect of the device read; with the exact condition for each to complete |
| Isa.StoreInsn | exec.c:229-367 | for each store opcode, the same: the base is rd and the value rs1, the bytes stored read back as the value cut to their number and all others stay, and only a byte store reaches the device, with the low byte |
| Isa.WmsrInsn | exec.c:257-259 | WMSR writes rs1 to the index whose bits are those of rd or of the immediate, and retires exactly when that write does |
| Isa.RmsrInsn | exec.c:260-262 | RMSR puts in rd what the index with the bits of rs1 or of the immediate reads |
| Isa.MhiInsn | exec.c:369-371 | MHI puts its 18-bit field above fourteen zero bits in rd |
| Isa.RetInsn | exec.c:251-255 | RET retires in every mode and moves exactly pc and PSR |
| Isa.IdleInsn | exec.c:244-267 | BARR, VENTER and VLEAVE go to the next instruction and do nothing |
| Isa.RaisingInsn | exec.c:247-376 | SYSCALL and every undefined encoding take their exception with its vector and address |
| Isa.EveryInstruction | exec.c:109-376 | these laws cover every instruction word |
| Handlers.HandlerTransparency | exec.c:251-255 | from any exception, a run of any length whose fetched instructions are defined and contain no RET, SYSCALL or write to PSR, EPSR or EPC executes an instruction at every step and takes no further exception, whatever interrupts are raised meanwhile; when it arrives at a RET in memory, that RET restores the entire interrupted PSR and resumes at the interrupted pc, or after it for a system call |
| Handlers.FetchesInHandler | exec.c:76-98 | with IRE and IMME clear inside a handler no interrupt precedes an instruction and the fetch is physical: every completed step executes the word in memory at pc |
| Handlers.NullSyscall | exec.c:247-255 | an instance: from every step that executes a SYSCALL, in either mode and translated or not, with a RET in memory at its vector, two steps bring the program to the next instruction with PSR, registers, memory, device and call stack unchanged |
| Handlers.QuietRun | exec.c:392-406 | such a run keeps root mode, interrupts and translation off, and both shadow registers intact at every step, and each of its steps executes an instruction without an exception |
| Handlers.RetStep | exec.c:251-255 | inside a handler a RET in memory at pc always retires, moving exactly pc and PSR |
| Refill.FetchRetry | i-mmu.c:16-45 | miss, fill, retry: after a fetch miss, a non-nesting handler whose last writes to the page's slot install the page with permission, and its RET, the resumed step takes an interrupt exactly when one is pending and otherwise fetches the word in memory at the page offset in the written frame |
| Refill.DataRetry | d-mmu.c:17-58 | the same for a data miss: at the resumed pc the faulting address translates to the written frame; the resumed step takes no exception at all if it fetches the same instruction with the same base register, and if it fetches nothing, only an interrupt or a fetch exception |
| Refill.LastWriteStands | msr.c:145-188 | the last write of a run to a table register is what its slot holds at the end of the run |
| Refill.SlotStep | msr.c:142-188 | a retiring step changes a table slot only by a root-mode write to that slot's own index, and then to the unpacked value |
| Modes.UserRun | exec.c:251-262 | from a state with PSR.RM and EPSR.RM clear, any number of steps without an exception keeps both clear and leaves both tables, IMR, EPC, ELSA, EPSR and the timer's CNT, EN and I alone; the exception that ends the run enters root mode with EPSR.RM clear |
| Modes.UserStep | msr.c:196-202 | outside root mode a retiring step leaves the configuration alone and regains root mode exactly when it is a RET with EPSR.RM set |
| Modes.TrapEntersRoot | exec.c:397-403 | every exception enters root mode and records the PSR it left |
| Modes.ModeInvBrokenExactly | msr.c:70-86 | "outside root mode EPSR.RM is clear" is kept by every step but exactly the root-mode write to PSR that clears RM while EPSR.RM is set |
| Modes.ModeInvBreaks | msr.c:70-86 | and it does break: a processor booted into a SYSCALL whose vector holds a write of r0 to PSR is outside root mode with EPSR.RM set after two steps |
| Timer.TimerRun | tsc.c:12-32 | over any run that does not write the timer, TSR counts one per step modulo 2^32 and P is set, if it was clear, by exactly edge ((CNT - TSR) mod 2^28) + 1, through any wrap-around |
| Timer.TimerInterrupts | exec.c:78-88 | the step bringing that edge latches P and, with IRE set and the timer line unmasked, itself enters the interrupt vector |
| Timer.MatchingEdge | irqc.c:33-41 | the matching edge latches P, raises the timer line and moves no other; an interrupt is then pending if and only if IRE is set and the timer line or another raised line is unmasked |
| Timer.IdleTimerRun | tsc.c:12-24 | over any run that does not write the timer: with EN clear TSR, TCR and the timer line never move; with EN set and I clear TSR counts one per step modulo 2^32 and P and the line never move |
| Timer.InterruptGate | irqc.c:33-41 | a step takes the interrupt exactly when after its clock edge IRE is set and some raised line, whichever it is, is unmasked |
| Interrupts.EdgeCountsDown | tsc.c:16-21 | an edge that does not match only counts, and brings the match one edge nearer also when the counter wraps |
| Invariants.ReachableInv | exec.c:24-32 | after any number of steps from reset: r0 is 0, page numbers fit 19 bits and CNT 28, only request lines 0 and 3 are ever raised and line 0 is P and I, the device status is legal, the call stack fits its table |
| Invariants.StepKeepsInv | exec.c:76-382 | every single step keeps that invariant and the size of memory |
| Invariants.BootState | exec.c:24-32 | after reset: root mode with every other flag clear, registers, tables, timer and requests zero, and a first step that executes the word in memory at the reset vector |
| VirtualMemory.VirtualMemoryIsFlat | d-mmu.c:17-58 | with data translation on and the live pages in distinct frames of memory, over any run without exceptions that leaves the table and mode alone and whose accesses stay inside pages, memory as the program sees it is the byte map built by its stores of all widths, and every load returns that map's little-endian value |
| Preemption.PreemptedMemoryIsFlat | exec.c:76-98 | the same across exceptions: over any run made of such instructions and of exceptions of every kind, each handled by a non-nesting handler of any length that leaves the data table alone and stores outside the frames it maps, the program's memory is the byte map built by its own stores, and each of its loads returns that map's value |
| Preemption.HandlerIsInvisible | exec.c:392-406 | from an exception through such a handler and its RET, the interrupted program goes on with exactly the byte map it had |
| VirtualMemory.FlatStep | exec.c:301-367 | the same for one retired instruction of any kind |
| VirtualMemory.StoreIsFlat | memory-mmio.c:103-145 | a translated store changes exactly the virtual addresses it spans, each to its own byte of the value |
| VirtualMemory.LoadIsFlat | memory-mmio.c:62-101 | a translated load is the little-endian value of the map |
| VirtualMemory.TranslationInjective | d-mmu.c:43 | distinct mapped pages have distinct frames and offsets are kept |
| VirtualMemory.StoreReaches | exec.c:346-367 | the whole effect of a retired store of any alignment on the byte map: an address some byte of it reaches (inside the page that many bytes on, past its end at that offset of whatever page has the next frame) gets that byte, every other address keeps its own |
| VirtualMemory.LoadReaches | exec.c:301-344 | each byte a retired load of any alignment returns is the one the map holds where that byte reaches |
| VirtualMemory.CrossingStore | exec.c:226-241 | a byte stored past the page end arrives at the following virtual address if its page has the next frame, and otherwise that address is unchanged |
| VirtualMemory.CrossingAccessExactly | d-mmu.c:43 | byte i past the page end has the physical address translation would give it if and only if the next page's frame is the next frame |
| Memory.ReadAfterWrites | memory-mmio.c:62-145 | after any sequence of 8, 16 and 32-bit writes, overlapping or unaligned, each read assembles the last byte written at each address it covers |
| Memory.LoadAfterStore | memory-mmio.c:86-145 | a load of the width just stored returns the value cut to that width |
| Mmu.IndexedIsAssociative | d-mmu.c:21-49 | with every valid entry in its own slot, the indexed lookup finds exactly what a search of the whole table finds, with the same entry |
| Mmu.TranslationIsLookup | d-mmu.c:21-58 | with translation on, both routines miss exactly when the lookup finds no entry, deny exactly when it finds one without permission for the mode and access, and else use that entry's frame |
| Mmu.TranslationIsAssociative | i-mmu.c:16-45 | with every valid entry in its own slot, fetch and data translation miss exactly the pages no entry of the whole table maps, and obey any entry that does |
| Mmu.IndexedHitsAllExactly | i-mmu.c:20-37 | with no placement assumed, indexed and associative lookup hit the same pages if and only if each valid entry's page is also held by that page's own slot |
| Mmu.FillThroughWmsr | msr.c:144-188 | the two register writes of a fill keep a table well placed, map the page to the new entry, evict exactly the page the slot held, change no other page and nothing else in the register file |
| AddressLaws.SlotBits | i-mmu.c:20-22 | bits 13 to 19 of an address choose its table slot, and bits 13 and up are the page number compared there |
| AddressLaws.PhysicalBits | d-mmu.c:43 | a translated address keeps its low 13 bits and takes each higher one from the entry's page number |
| Msr.WriteThenRead | msr.c:70-195 | in root mode, reading any read/write index after writing it gives the written bits the index implements; DTLBL reads as 0, and clearing PSR.RM makes the read 0 |
| Msr.WriteFrame | msr.c:200-343 | no write changes what another index reads, except that TCR drives bit 0 of IRR to P and I, and that clearing PSR.RM makes every read 0 |
| MsrLaws.WriteLands | msr.c:70-140 | which bit is which: a root-mode write to PSR or EPSR sets each of the ten flags to its own bit 0 to 9, to TCR the count to the low 28 bits and EN, I and P to bits 28, 29 and 30, to the word registers the word; nothing else moves but, for TCR, the timer line |
| MsrLaws.TlbWriteLands | msr.c:144-188 | the same for the four table banks: one slot takes V, VPN, the permission and attribute flags and PPN from their own bits |
| MsrLaws.ReadShows | msr.c:200-290 | a root-mode read shows each field at its own bit and nothing else; CPUID shows version 1 and features at bits 18, 19, 22, 24 and 25, COREID 0, IMMID and DMMID the logarithm of the table size |
| MsrLaws.TlbReadShows | msr.c:291-343 | the same for the banks; a DTLBL read shows 0 |
| Msr.DtlblRoundTripExactly | msr.c:310-316 | for the DTLBL bank the masked round trip holds if and only if the written V and VPN are zero |
| Msr.AccessPanics | msr.c:142-193 | the accesses that end the process are exactly the root-mode ones outside the writable and the readable indices |
| Msr.PsrRoundTrip | msr.c:75-86 | packing after unpacking the PSR keeps exactly the ten implemented bits (`MsrLaws.WriteLands` says which flag each is) |
| Msr.TcrRoundTrip | msr.c:129-135 | the same for TCR and its 31 bits |
| Msr.ItlbHighRoundTrip | msr.c:152-164 | the same for ITLBH and mask 0xffffe19f |
| Msr.DtlbHighRoundTrip | msr.c:174-188 | the same for DTLBH and mask 0xffffe1ff |
| Words.SetLineBit | irqc.c:10-16 | setting or clearing a line changes that bit of the register and no other |
| Words.MaskedNonzero | irqc.c:35 | requests and not mask is nonzero exactly when some line is raised and unmasked |
| Ata.StatusMachine | device-ata.c:264-414 | over every sequence of host accesses the status is one of 0x40, 0x50, 0x58 and 0x90, so busy and data-request never meet, and busy implies the reset bit is held |
| Ata.DataRequestMeansData | device-ata.c:469-498 | a host that reads the data register only under DRQ always finds a word left in the window while DRQ is set |
| Ata.ReadKeepsWindowExactly | device-ata.c:478-496 | a data read, disciplined or not, keeps "DRQ means a word is left" exactly unless a READ SECTORS has sectors to come and its position is a whole sector past the window |
| Ata.RunKeepsWindowExactly | device-ata.c:469-498 | for every host, disciplined or not, "DRQ means a word is left" holds after each access of a run if and only if none of its data reads is made past the window, as in the row above |
| Ata.UndisciplinedHost | device-ata.c:469-498 | the discipline is needed: from reset, on any disk, one READ SECTORS, 511 data reads, a sector count of 2 and one more data read leave DRQ set with the position past the window |
| AtaRead.ReadSectors | device-ata.c:356-377 | for every driver, whatever it polls in between, the first k data reads after READ SECTORS deliver the first k words from the addressed sector in order; DRQ is set exactly until the last; the window end and the remaining count keep their sum and the window end follows the address; the transfer ends with count 1 at the last sector (count 0 asks for 256) |
| AtaRead.StreamStep | device-ata.c:469-498 | one data read delivers the next word, keeps the protocol on course, and interrupts the host exactly as each further sector starts |
| AtaRead.ReadMultiple | device-ata.c:379-399 | READ MULTIPLE delivers the same prefixes and drops DRQ after the last word |
| AtaRead.ReadCommandsAgree | device-ata.c:356-399 | the two commands are the same data stream for every driver and drop DRQ at the same read |
| AtaRead.NextSector | device-ata.c:242-262 | writing a 28-bit sector number to the address registers and reading it back is the identity, and touches no other register |
| AtaHost.HostReads | device-ata.c:301-399 | a whole host: writing a count and the bytes b0, b1, b2 and 0x40 + b3 to the registers at 0x08, 0x0c, 0x10, 0x14 and 0x18 of a device selected as drive 1, then command 0x20 or 0xc4, then any polls and k data reads, delivers the first k words from sector b0 + 2^8 b1 + 2^16 b2 + 2^24 b3 on, with bit 3 of the status set exactly until the last |
| AtaHost.HostAddresses | device-ata.c:301-331 | those five writes address that sector with that count (0 for 256), touching neither the disk nor the interrupt line |
| AtaHost.AddressPolls | device-ata.c:444-458 | the four address registers read back as the bytes of the sector the device would transfer, and polling them changes nothing |
| AtaHost.StatusPolls | device-ata.c:431-463 | the status and its alternate show the same byte; reading the status clears the device's request line and no other, reading the alternate changes nothing |
| AtaHost.CountPolls | device-ata.c:438-442 | the count reads back as its low byte, and the error register as it is, without effect |
| AtaHost.FeatureIsHidden | device-ata.c:309-311 | a write to the feature register, at the error register's offset, changes no poll and no line |
| AtaHost.AbsentDrive | device-ata.c:271-299 | with drive 0 selected every poll reads 0xff and every write but those to the drive and control registers is ignored |
| AtaHost.CommandLines | device-ata.c:337-399 | the read, identify and parameter commands raise line 3 exactly unless bit 1 of the control register is set, the write commands never, and no other line moves |
| AtaHost.WritesOpenAsReads | device-ata.c:356-399 | a write command leaves the device exactly as the read command does, but for the command register |
| AtaHost.ParameterCommand | device-ata.c:352-360 | the parameter command ends at once, ready, without data or error |
| AtaHost.HostIdentifies | device-ata.c:340-350 | IDENTIFY delivers the 256 identification words in order to every driver, with DRQ exactly until the last |
| AtaHost.SoftReset | device-ata.c:275-299 | setting the reset bit makes the device busy with error 1; clearing it leaves it ready, not busy, at sector 1 with count 1 and head 0, and each control write sets the interrupt bit |
| AtaHost.ControlWrite | device-ata.c:275-299 | every control write turns interrupts off or on by its bit 1, and one that leaves the reset bit as it is does nothing else |
| AtaHost.PowerOn | device-ata.c:221-240 | at power-on: drive 1, ready, no data, sector 1 with count 1, interrupts on, not in LBA mode |
| AtaHost.ExitsExactly | device-ata.c:264-502 | the register accesses that end the process are those of a register the device does not have, an unknown command, and a disk command outside LBA mode |
| DiskReads.ProgramReadsDisk | exec.c:323-344 | over any run of the processor whose steps either load from the data register or leave the device alone, interrupts included, the loads put the disk's words in order into their destination registers and the device shows exactly that progress |
| DiskReads.LoadReadsDevice | memory-mmio.c:74-84 | a retired half-word load at the data register is one device read: its value in the destination register, its effect on the device and on the request register |
| DiskReads.NeutralBefore | exec.c:301-367 | a condition known before the step under which it leaves the device alone: it takes an exception, or its data access, if any, is refused, loads a byte or a word, or goes outside the device |
| Mmio.AcceptedExactly | memory-mmio.c:151-176 | a sequence of registrations goes through if and only if no range overlaps an earlier one of its direction |
| Mmio.AcceptedShareOneAddress | memory-mmio.c:158-166 | two accepted non-empty ranges of one direction share at most one address, and it is where one ends and the other starts |
| Mmio.LatestWins | memory-mmio.c:38-54 | an address goes to the most recently registered range covering it, and to none exactly when none covers it |
| Mmio.OrderIrrelevant | memory-mmio.c:168-176 | an address only one range covers is dispatched alike by every accepted order of the same registrations |
| CallStack.StackIsReflectedWalk | trace-runtime-stack.c:24-47 | for every event sequence within the depth limit, the depth is the balance above its lowest prefix, the damage flag is set exactly when a prefix goes negative, and the live frames are exactly the unmatched calls in order |
| CallStack.WalkPanicsExactly | trace-runtime-stack.c:27-31 | the process ends exactly when some prefix's reflected depth exceeds the table |
| CallStack.LowestIsMinimum | trace-runtime-stack.c:39-47 | the lowest level is attained by a prefix and bounds all of them |
| CallStack.StackBelowIsKept | trace-runtime-stack.c:24-47 | events no prefix of which returns more than it calls keep the whole stack they start from below their own frames and do not damage it |
| Calls.TraceOfRun | exec.c:146-174 | the shadow stack of any run of the processor, from any stack, is the walk of the calls and returns the run executed; from reset, the reflected walk |
| Calls.CallThenReturn | exec.c:146-174 | over a run: after a call (JMP_I_LNK, or a JMP linking in r1), any number of steps whose calls and returns are balanced, and a JMP through r1, the shadow stack is the one before the call; control is after the call whenever that JMP found the link in r1 and does not itself link there, and it changes no register but its own link |
| Calls.JmpThroughItsLink | exec.c:146-158 | a JMP whose link and target are one register goes to the next instruction |
| Reach.MhiOrILoads | exec.c:369-371 | for every 32-bit constant, retiring MHI and OR_I with its two halves loads it into any register from 1 to 31, touching no other |
| Reach.JumpArrives | exec.c:160-163 | every 4-byte-aligned displacement in [-2^27, 2^27) is reached modulo 2^32 by the jumps, and by the branches exactly when their condition holds |
| Decode.FieldsAreMasks | ncpu32k-opcodes.h:53-71 | every decoded field is the header's mask followed by its shift |
| Decode.RelFields | exec.c:63-67 | encoding and sign-extending a displacement is the identity |
| AluLaws.ModularArithmetic | exec.c:276-289 | the adding, subtracting and multiplying operators are those of the signed values modulo 2^32, and subtraction undoes addition (`Isa.ArithmeticInsn` says which opcode is which) |
| AluLaws.DivisionLaw | exec.c:291-299 | DIV and MOD satisfy dividend = quotient * divisor + remainder with a smaller remainder of the dividend's sign, and are undefined exactly for a zero divisor and -2^31 / -1 |
| AluLaws.LogicalShiftRight | exec.c:139-144 | LSR moves bit i + k to bit i and clears the rest |
| AluLaws.ArithmeticShiftRight | exec.c:269-274 | ASR is the floor of the signed value over 2^k |
| AluLaws.ShiftLeft | exec.c:132-137 | LSL moves bit i to bit i + k and clears the bits below k |
| AluLaws.BitwiseOperations | exec.c:111-130 | AND, OR and XOR work bit by bit |
| AluLaws.ComparisonLaws | exec.c:176-196 | with equality, each of the two comparisons is a strict total order (trichotomy, asymmetry, transitivity), and the signed one is the unsigned one after moving both operands by 2^31 |
| Decode.SimmIsSigned | exec.c:104-105 | the extended 14-bit immediate is the signed number with those bits |
| MsrRegs.MsrRegs.Wmsr | msr.c:50-198 | the in-place register writes, bit by bit and slot by slot, are the write function, and fail exactly where it panics |
| MsrRegs.MsrRegs.Rmsr | msr.c:200-343 | the accumulation of fields by or is the read function |
| MsrRegs.PackPsrBits | msr.c:209-218 | or-ing the ten flags one at a time gives the packed PSR |
| MsrRegs.PackTcrBits | msr.c:271-276 | or-ing the three flags onto the count gives the packed TCR |
| MsrRegs.PackDtlbHighBits | msr.c:317-331 | or-ing the nine flags and the page number gives the packed DTLBH |
| MsrRegs.MsrRegs.TscClk | tsc.c:12-24 | the in-place clock edge is the edge function |
| MsrRegs.MsrRegs.SetInterrupt | irqc.c:10-16 | the in-place line update is the line function |
| AtaDevice.AtaDevice.WriteReg8 | device-ata.c:264-414 | every register write, through the device's own fields and buffer reference, is the write function, with the same exits |
| AtaDevice.AtaDevice.ReadReg8 | device-ata.c:422-467 | every register read is the read function; only the status read touches the interrupt line |
| AtaDevice.AtaDevice.ReadReg16 | device-ata.c:469-502 | the data read through the aliased buffer is the data-read function |
| AtaDevice.AtaDevice.constructor | device-ata.c:221-240 | a new device is in the reset state |
| Peripherals.HandlerList.Append | memory-mmio.c:151-176 | the checking loop and the prepend are the registration function |
| Peripherals.HandlerList.Find | memory-mmio.c:38-54 | the search loop is the first match |
| Peripherals.CallTrace.Jmp | trace-runtime-stack.c:24-36 | the table and depth move as a push |
| Peripherals.CallTrace.Return | trace-runtime-stack.c:38-47 | the depth moves as a pop with clamped underflow |
| Machine.RegisterAta | device-ata.c:208-213 | the device's five registrations are all accepted and yield the handler lists the processor dispatches on |
| Machine.Machine.constructor | exec.c:24-32 | the initial machine is a booted one, so the reachable-state invariant starts there |
| Machine.Machine.RaiseException | exec.c:392-412 | the in-place exception entry is the entry function |
| Machine.Machine.ImmuTranslate | i-mmu.c:16-45 | the fetch translation with its raised exceptions is the lookup function |
| Machine.Machine.DmmuTranslate | d-mmu.c:17-58 | the data translation with its raised exceptions is the lookup function |
| Machine.Machine.PhyRead | memory-mmio.c:62-101 | physical reads, memory or device, are the bus-load function |
| Machine.Machine.PhyWrite | memory-mmio.c:103-145 | physical writes are the bus-store function |
| Machine.Machine.Execute | exec.c:109-376 | the opcode switch over the machine's arrays is the execute function |
| Machine.Machine.Step | exec.c:76-382 | one loop iteration on the objects is exactly `Exec.Step` on their view |
| Machine.Machine.Run | exec.c:74-383 | n iterations are `Runs.After`, so every theorem about runs holds of the object machine |

## Left out

- VirtualMemory.VirtualMemoryIsFlat: accesses that cross a page are outside it, because the source translates their first byte only; `LoadReaches` and `StoreReaches` say where the other bytes go, and `CrossingStore` when they go where the map has them.
- Ata.DataRequestMeansData: hosts that read data without a request are outside it, because for them it is false: `UndisciplinedHost` is such a host, and `ReadKeepsWindowExactly` says when.
- Program start, image loading and the debug console: I/O; writes to the two debug ports are no-ops on the modelled state.
- The symbol table: file scanning and a list lookup.
- Accesses from below 0x8000_0000 that reach across it: the source reads or writes their upper bytes through the 8-bit handlers, the model takes them from memory if memory reaches that far. It cannot: the size is an int, so such an access starts or continues beyond the allocated memory and is `Undefined` in the model.
- Memory addresses beyond the allocated size: the source does not check them; such an access is `Undefined` and ends the run.
- Shifts by 32 or more, division by zero and -2^31 / -1: undefined in C, `Undefined` here. Overflow of ADD, SUB, MUL, effective addresses and MHI is taken modulo 2^32.
- Buffer positions outside their array and window ends above the largest int: `Undefined`.
- Device identification contents: an arbitrary word array; the source's own string filling reads past the end of an odd-length string.
- Cylinder/head/sector addressing: the source exits, and so does the model.
- ATA writes: the commands set up a window as in the source, but no 16-bit write handler exists, so no data can move.
- Cache registers and the vectors the code never raises: empty cases in the source.
- Function pointers: the five callbacks are a datatype, and the lists the processor uses are those the one device registers.
- Flag fields are booleans, where the source keeps the normalised 0 or 1 in a char.
- State left behind by a call that ends the process: not described, since nothing observes it.
