/** Virtual and physical addresses bit by bit (i-mmu.c:20-43, d-mmu.c:21-56):
    which bits choose the table slot, which are compared and which pass. */
module AddressLaws {
  import opened Words
  import opened Msr
  import opened Mmu
  import AluLaws
  import MsrLaws

  lemma PageBits(x: nat, k: nat)
    ensures Bit(x / 0x2000, k) == Bit(x, 13 + k)
    ensures k < 13 ==> Bit(x % 0x2000, k) == Bit(x, k)
  {
    At13(x);
    HighPowers();
    AluLaws.ShrBit(x, 13, k);
    hide Bit, Shr, Pow2, Low;
    if k < 13 {
      MsrLaws.RemainderBit(x, 13, k);
    }
  }

  /** Bits 13 to 19 of an address choose its slot, and bits 13 and up are the
      page number compared there. */
  lemma SlotBits(va: Word, k: nat)
    ensures Slot(Vpn(va)) < 128 && Pow2(7) == 128
    ensures k < 7 ==> Bit(Slot(Vpn(va)), k) == Bit(va, 13 + k)
    ensures Bit(Vpn(va), k) == Bit(va, 13 + k)
  {
    BitWeights();
    PageBits(va, k);
    hide Bit, Pow2;
    if k < 7 {
      MsrLaws.RemainderBit(Vpn(va), 7, k);
    }
  }

  /** A translated address keeps the low 13 bits and takes the rest from the
      entry's page number. */
  lemma PhysicalBits(ppn: Word, va: Word, k: nat)
    requires k < 32
    ensures Bit(Physical(ppn, va), k) == if k < 13 then Bit(va, k) else Bit(ppn, k - 13)
  {
    var pa := Physical(ppn, va);
    DivModUnique(pa, 0x2000, ppn % 0x8_0000, va % 0x2000);
    Pow2Of32();
    hide Bit, Pow2, Physical;
    if k < 13 {
      PageBits(pa, k);
      PageBits(va, k);
    } else {
      PageBits(pa, k - 13);
      MsrLaws.RemainderBit(ppn, 19, k - 13);
    }
  }
}
