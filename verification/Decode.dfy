/** Instruction encoding (ncpu32k-opcodes.h, exec.c:63-67, 98-107). */
module Decode {
  import opened Words

  const OP_AND: nat := 0x00
  const OP_AND_I: nat := 0x01
  const OP_OR: nat := 0x02
  const OP_OR_I: nat := 0x03
  const OP_XOR: nat := 0x04
  const OP_XOR_I: nat := 0x05
  const OP_LSL: nat := 0x06
  const OP_LSL_I: nat := 0x07
  const OP_LSR: nat := 0x08
  const OP_LSR_I: nat := 0x09
  const OP_JMP: nat := 0x0a
  const OP_JMP_I: nat := 0x0b
  const OP_CMP: nat := 0x0c
  const OP_BT: nat := 0x0d
  const OP_BF: nat := 0x0e
  const OP_LDWU: nat := 0x0f
  const OP_STW: nat := 0x10
  const OP_BARR: nat := 0x11
  const OP_SYSCALL: nat := 0x12
  const OP_RET: nat := 0x13
  const OP_WMSR: nat := 0x14
  const OP_RMSR: nat := 0x15
  const OP_VENTER: nat := 0x16
  const OP_VLEAVE: nat := 0x17
  const OP_JMP_I_LNK: nat := 0x18
  const OP_ASR: nat := 0x1a
  const OP_ASR_I: nat := 0x1b
  const OP_ADD: nat := 0x1c
  const OP_ADD_I: nat := 0x1d
  const OP_SUB: nat := 0x1e
  const OP_MUL: nat := 0x1f
  const OP_DIV: nat := 0x20
  const OP_DIVU: nat := 0x21
  const OP_MOD: nat := 0x22
  const OP_MODU: nat := 0x23
  const OP_LDB: nat := 0x24
  const OP_LDBU: nat := 0x25
  const OP_LDH: nat := 0x26
  const OP_LDHU: nat := 0x27
  const OP_STB: nat := 0x28
  const OP_STH: nat := 0x29
  const OP_MHI: nat := 0x2a

  const ATTR_CMPEQ: nat := 0
  const ATTR_CMPGT: nat := 1
  const ATTR_CMPGTU: nat := 2

  const RLNK: nat := 1

  function Opcode(ins: Word): nat { ins % 0x40 }
  function Rd(ins: Word): nat { ins / 0x40 % 0x40 }
  function Rs1(ins: Word): nat { ins / 0x1000 % 0x40 }
  function Rs2(ins: Word): nat { ins / 0x4_0000 % 0x40 }
  function Imm14(ins: Word): Word { ins / 0x4_0000 }
  function Imm18(ins: Word): Word { ins / 0x1000 % 0x4_0000 }
  function Rel26(ins: Word): Word { ins / 0x40 }
  function Attr(ins: Word): nat { ins / 0x100_0000 }

  /** The sign-extended 14-bit immediate, as a word. */
  function Simm14(ins: Word): Word {
    if Imm14(ins) < 0x2000 then Imm14(ins) else Wrap(Imm14(ins) - 0x4000)
  }

  /** The extended immediate is the signed 14-bit number with those bits. */
  lemma SimmIsSigned(ins: Word)
    ensures -0x2000 <= Signed(Simm14(ins)) < 0x2000
    ensures Signed(Simm14(ins)) % 0x4000 == Imm14(ins)
  {
  }

  /** `rel26_sig_ext`: a signed displacement in instructions, in bytes. */
  function Displacement(rel26: Word): int {
    if rel26 % 0x400_0000 < 0x200_0000 then rel26 % 0x400_0000 * 4 else rel26 % 0x400_0000 * 4 - 0x1000_0000
  }

  /** `INS32_GET_BITS`: mask, then shift. */
  function GetBits(src: Word, mask: Word, shift: nat): nat {
    Shr(And(src, mask), shift)
  }

  /** A field read by its mask and shift is the field read by division. */
  lemma FieldByMask(v: Word, lo: nat, d: nat, len: nat, p: nat, mask: Word)
    requires lo + len <= 32 && IsWeight(lo, d) && IsWeight(len, p) && Pow2(len) == p && mask == d * (p - 1)
    ensures GetBits(v, mask, lo) == v / d % p
  {
    AndFieldMask(v, lo, len, 32);
    assert Shl(p - 1, lo) == d * (p - 1);
    var q := Shr(v, lo);
    Rebuild(q, len);
    LowBound(q, len);
    assert Shl(Shr(q, len), len) == p * Shr(q, len);
    RemainderIs(q, p, Low(q, len));
  }

  lemma FieldPowers()
    ensures Pow2(6) == 0x40 && Pow2(8) == 0x100 && Pow2(14) == 0x4000 && Pow2(18) == 0x4_0000 && Pow2(26) == 0x400_0000
  {
    assert Pow2(6) == 0x40;
    assert Pow2(14) == 0x100 * Pow2(6);
    assert Pow2(18) == 0x10 * Pow2(14);
    assert Pow2(26) == 0x100 * Pow2(18);
  }

  /** The decoded fields are the masks and shifts of the opcode header. */
  lemma FieldsAreMasks(ins: Word)
    ensures Opcode(ins) == GetBits(ins, 0x3f, 0)
    ensures Rd(ins) == GetBits(ins, 0xfc0, 6)
    ensures Rs1(ins) == GetBits(ins, 0x3_f000, 12)
    ensures Rs2(ins) == GetBits(ins, 0xfc_0000, 18)
    ensures Imm14(ins) == GetBits(ins, 0xfffc_0000, 18)
    ensures Imm18(ins) == GetBits(ins, 0x3fff_f000, 12)
    ensures Rel26(ins) == GetBits(ins, 0xffff_ffc0, 6)
    ensures Attr(ins) == GetBits(ins, 0xff00_0000, 24)
  {
    FieldWeights();
    FieldPowers();
    assert IsWeight(0, 1);
    hide *;
    FieldByMask(ins, 0, 1, 6, 0x40, 0x3f);
    FieldByMask(ins, 6, 0x40, 6, 0x40, 0xfc0);
    FieldByMask(ins, 12, 0x1000, 6, 0x40, 0x3_f000);
    FieldByMask(ins, 18, 0x4_0000, 6, 0x40, 0xfc_0000);
    FieldByMask(ins, 18, 0x4_0000, 14, 0x4000, 0xfffc_0000);
    FieldByMask(ins, 12, 0x1000, 18, 0x4_0000, 0x3fff_f000);
    FieldByMask(ins, 6, 0x40, 26, 0x400_0000, 0xffff_ffc0);
    FieldByMask(ins, 24, 0x100_0000, 8, 0x100, 0xff00_0000);
    FieldDefinitions(ins);
  }

  lemma FieldDefinitions(ins: Word)
    ensures Opcode(ins) == ins / 1 % 0x40
    ensures Rd(ins) == ins / 0x40 % 0x40
    ensures Rs1(ins) == ins / 0x1000 % 0x40
    ensures Rs2(ins) == ins / 0x4_0000 % 0x40
    ensures Imm14(ins) == ins / 0x4_0000 % 0x4000
    ensures Imm18(ins) == ins / 0x1000 % 0x4_0000
    ensures Rel26(ins) == ins / 0x40 % 0x400_0000
    ensures Attr(ins) == ins / 0x100_0000 % 0x100
  {
  }

  // ---------- encoders ----------

  function EncodeMhi(rd: nat, imm18: nat): Word
    requires rd < 0x40 && imm18 < 0x4_0000
  {
    OP_MHI + rd * 0x40 + imm18 * 0x1000
  }

  function EncodeOrI(rd: nat, rs1: nat, imm14: nat): Word
    requires rd < 0x40 && rs1 < 0x40 && imm14 < 0x4000
  {
    OP_OR_I + rd * 0x40 + rs1 * 0x1000 + imm14 * 0x4_0000
  }

  /** `op` is any of the opcodes with a 26-bit displacement. */
  function EncodeRel(op: nat, d: int): Word
    requires op < 0x40 && d % 4 == 0 && -0x800_0000 <= d < 0x800_0000
  {
    op + d / 4 % 0x400_0000 * 0x40
  }

  lemma MhiFields(rd: nat, imm18: nat)
    requires rd < 0x40 && imm18 < 0x4_0000
    ensures var i := EncodeMhi(rd, imm18); Opcode(i) == OP_MHI && Rd(i) == rd && Imm18(i) == imm18
  {
  }

  lemma OrIFields(rd: nat, rs1: nat, imm14: nat)
    requires rd < 0x40 && rs1 < 0x40 && imm14 < 0x4000
    ensures var i := EncodeOrI(rd, rs1, imm14);
            Opcode(i) == OP_OR_I && Rd(i) == rd && Rs1(i) == rs1 && Imm14(i) == imm14
  {
    var i := EncodeOrI(rd, rs1, imm14);
    DivModUnique(i, 0x40, rd + rs1 * 0x40 + imm14 * 0x1000, OP_OR_I);
    DivModUnique(i, 0x1000, rs1 + imm14 * 0x40, OP_OR_I + rd * 0x40);
    DivModUnique(i, 0x4_0000, imm14, OP_OR_I + rd * 0x40 + rs1 * 0x1000);
    DivModUnique(i / 0x40, 0x40, rs1 + imm14 * 0x40, rd);
    DivModUnique(i / 0x1000, 0x40, imm14, rs1);
    hide EncodeOrI;
  }

  /** Every 4-byte-aligned displacement in [-2^27, 2^27) survives encoding. */
  lemma RelFields(op: nat, d: int)
    requires op < 0x40 && d % 4 == 0 && -0x800_0000 <= d < 0x800_0000
    ensures var i := EncodeRel(op, d); Opcode(i) == op && Displacement(Rel26(i)) == d
  {
  }

  /** The two halves of a word, put together again by MHI and OR_I. */
  lemma HalvesJoin(v: Word)
    ensures v / 0x4000 < 0x4_0000
    ensures Or(v / 0x4000 * 0x4000, v % 0x4000) == v
  {
    JoinShifts(v / 0x4000);
    hide *;
    assert 32 - 14 == 18;
    OrDisjoint(v / 0x4000, v % 0x4000, 14, 32);
    OrIsCombine(v / 0x4000 * 0x4000, v % 0x4000);
  }

  lemma JoinShifts(hi: nat)
    ensures Shl(hi, 14) == hi * 0x4000 && Pow2(14) == 0x4000 && Pow2(18) == 0x4_0000
  {
    FieldWeights();
    FieldPowers();
    hide Pow2;
    assert Shl(hi, 14) == 0x4000 * hi;
  }

  lemma OrIsCombine(a: Word, b: Word)
    ensures Or(a, b) == Combine(OrGate, a, b, 32)
  {
    hide Combine;
  }
}
