/** Physical memory in little-endian order (memory-mmio.c:62-145). */
module Memory {
  import opened Words

  datatype Width = W8 | W16 | W32 {
    function Bytes(): nat {
      match this
      case W8 => 1
      case W16 => 2
      case W32 => 4
    }
  }

  /** `phy_readm8/16/32` below the MMIO base. */
  function LoadRam(ram: seq<Byte>, a: nat, w: Width): Word
    requires a + w.Bytes() <= |ram|
  {
    match w
    case W8 => ram[a]
    case W16 => ram[a + 1] as int * 0x100 + ram[a]
    case W32 =>
      ram[a + 3] as int * 0x100_0000 + ram[a + 2] as int * 0x1_0000 + ram[a + 1] as int * 0x100 + ram[a]
  }

  /** `phy_writem8/16/32` below the MMIO base. */
  function StoreRam(ram: seq<Byte>, a: nat, w: Width, v: Word): (r: seq<Byte>)
    requires a + w.Bytes() <= |ram|
    ensures |r| == |ram|
  {
    match w
    case W8 => ram[a := v % 0x100]
    case W16 => ram[a := v % 0x100][a + 1 := v / 0x100 % 0x100]
    case W32 =>
      ram[a := v % 0x100][a + 1 := v / 0x100 % 0x100][a + 2 := v / 0x1_0000 % 0x100][a + 3 := v / 0x100_0000]
  }

  // ---------- the byte map ----------

  /** Byte `i` of a word, least significant first. */
  function ByteOf(v: Word, i: nat): Byte
    requires i < 4
  {
    v / [1, 0x100, 0x1_0000, 0x100_0000][i] % 0x100
  }

  datatype Write = Write(addr: nat, width: Width, value: Word) {
    predicate Covers(a: nat) {
      addr <= a < addr + width.Bytes()
    }
  }

  predicate InRange(log: seq<Write>, size: nat) {
    forall w | w in log :: w.addr + w.width.Bytes() <= size
  }

  function Replay(ram: seq<Byte>, log: seq<Write>): (r: seq<Byte>)
    requires InRange(log, |ram|)
    ensures |r| == |ram|
  {
    if log == [] then ram
    else
      var w := log[|log| - 1];
      StoreRam(Replay(ram, log[..|log| - 1]), w.addr, w.width, w.value)
  }

  /** The byte the last write covering `a` put there, or the initial one. */
  function LastByte(ram: seq<Byte>, log: seq<Write>, a: nat): Byte
    requires a < |ram|
  {
    if log == [] then ram[a]
    else
      var w := log[|log| - 1];
      if w.Covers(a) then ByteOf(w.value, a - w.addr) else LastByte(ram, log[..|log| - 1], a)
  }

  /** One store changes exactly the bytes it covers, each to its own byte of
      the value. */
  lemma StoreByte(ram: seq<Byte>, w: Write, a: nat)
    requires w.addr + w.width.Bytes() <= |ram| && a < |ram|
    ensures StoreRam(ram, w.addr, w.width, w.value)[a]
         == if w.Covers(a) then ByteOf(w.value, a - w.addr) else ram[a]
  {
  }

  lemma {:induction false} ReplayByte(ram: seq<Byte>, log: seq<Write>, a: nat)
    requires InRange(log, |ram|) && a < |ram|
    ensures Replay(ram, log)[a] == LastByte(ram, log, a)
  {
    if log == [] {
    } else {
      var n := |log| - 1;
      ReplayByte(ram, log[..n], a);
      StoreByte(Replay(ram, log[..n]), log[n], a);
    }
  }

  /** The little-endian value of the last bytes written at `n` addresses. */
  function Assemble(ram: seq<Byte>, log: seq<Write>, a: nat, n: nat): nat
    requires a + n <= |ram|
    decreases n
  {
    if n == 0 then 0 else LastByte(ram, log, a) + 0x100 * Assemble(ram, log, a + 1, n - 1)
  }

  /** After any sequence of writes of any widths at any in-range addresses,
      overlapping or not, every read assembles the last byte written at each
      address it covers. */
  lemma ReadAfterWrites(ram: seq<Byte>, log: seq<Write>, a: nat, w: Width)
    requires InRange(log, |ram|) && a + w.Bytes() <= |ram|
    ensures LoadRam(Replay(ram, log), a, w) == Assemble(ram, log, a, w.Bytes())
  {
    ReplayByte(ram, log, a);
    match w
    case W8 =>
    case W16 =>
      ReplayByte(ram, log, a + 1);
      assert Assemble(ram, log, a + 1, 1) == LastByte(ram, log, a + 1);
    case W32 =>
      ReplayByte(ram, log, a + 1);
      ReplayByte(ram, log, a + 2);
      ReplayByte(ram, log, a + 3);
      assert Assemble(ram, log, a + 3, 1) == LastByte(ram, log, a + 3);
      assert Assemble(ram, log, a + 2, 2) == LastByte(ram, log, a + 2) + 0x100 * Assemble(ram, log, a + 3, 1);
      assert Assemble(ram, log, a + 1, 3) == LastByte(ram, log, a + 1) + 0x100 * Assemble(ram, log, a + 2, 2);
  }

  lemma FourBytes(v: Word)
    ensures v == v / 0x100_0000 * 0x100_0000 + v / 0x1_0000 % 0x100 * 0x1_0000 + v / 0x100 % 0x100 * 0x100 + v % 0x100
    ensures v % 0x1_0000 == v / 0x100 % 0x100 * 0x100 + v % 0x100
  {
    var q1 := v / 0x100;
    var q2 := q1 / 0x100;
    assert v / 0x1_0000 == q2;
    assert v / 0x100_0000 == q2 / 0x100;
  }

  /** A load of the width just stored at an address returns the stored value
      cut to that width. */
  lemma LoadAfterStore(ram: seq<Byte>, a: nat, w: Width, v: Word)
    requires a + w.Bytes() <= |ram|
    ensures LoadRam(StoreRam(ram, a, w, v), a, w)
         == match w case W8 => v % 0x100 case W16 => v % 0x1_0000 case W32 => v
  {
    FourBytes(v);
    var r := StoreRam(ram, a, w, v);
    assert r[a] == v % 0x100;
    if w == W16 {
      assert r[a + 1] == v / 0x100 % 0x100;
    }
    if w == W32 {
      assert r[a + 1] == v / 0x100 % 0x100 && r[a + 2] == v / 0x1_0000 % 0x100 && r[a + 3] == v / 0x100_0000;
    }
    hide StoreRam;
  }
}
