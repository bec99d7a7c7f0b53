/** Machine words as bounded integers, and the bitwise operators the emulator
    applies to them.  Shifts and masks with a constant contiguous mask are
    written as division and remainder; the lemmas below tie that form to the
    bit-by-bit operators. */
module Words {
  type Byte = x: int | 0 <= x < 0x100
  type Half = x: int | 0 <= x < 0x1_0000
  type Word = x: int | 0 <= x < 0x1_0000_0000

  /** Result of evaluating code that may call `panic` (the process exits) or
      run into an operation C leaves undefined. */
  datatype Res<+T> = Ok(value: T) | Panic | Undefined {
    predicate IsFailure() {
      !Ok?
    }

    function PropagateFailure<U>(): Res<U>
      requires !Ok?
    {
      if Panic? then Panic else Undefined
    }

    function Extract(): T
      requires Ok?
    {
      value
    }
  }

  datatype Option<+T> = None | Some(value: T)

  /** Unsigned 32-bit wrap-around. */
  function Wrap(x: int): Word {
    x % 0x1_0000_0000
  }

  /** The int32_t value of a word. */
  function Signed(w: Word): int {
    if w < 0x8000_0000 then w else w - 0x1_0000_0000
  }

  function Weight(b: bool, w: nat): (r: nat)
    ensures r <= w
  {
    if b then w else 0
  }

  function Pow2(k: nat): (p: nat)
    ensures p > 0
  {
    if k == 0 then 1 else 2 * Pow2(k - 1)
  }

  predicate Bit(x: nat, k: nat) {
    if k == 0 then x % 2 == 1 else Bit(x / 2, k - 1)
  }

  datatype Gate = AndGate | OrGate | XorGate {
    predicate Apply(a: bool, b: bool) {
      match this
      case AndGate => a && b
      case OrGate => a || b
      case XorGate => a != b
    }
  }

  /** The low `n` bits of the gate applied to `a` and `b` bit by bit. */
  function Combine(g: Gate, a: nat, b: nat, n: nat): (r: nat)
    ensures r < Pow2(n)
    decreases a, n
  {
    if n == 0 then 0
    else 2 * Combine(g, a / 2, b / 2, n - 1) + Weight(g.Apply(a % 2 == 1, b % 2 == 1), 1)
  }

  lemma Pow2Of32()
    ensures Pow2(19) == 0x8_0000 && Pow2(32) == 0x1_0000_0000
  {
    assert Pow2(8) == 256;
    assert Pow2(16) == 256 * Pow2(8);
    assert Pow2(19) == 8 * Pow2(16);
    assert Pow2(24) == 256 * Pow2(16);
    assert Pow2(32) == 256 * Pow2(24);
  }

  function And(a: Word, b: Word): Word {
    Pow2Of32();
    Combine(AndGate, a, b, 32)
  }

  function Or(a: Word, b: Word): Word {
    Pow2Of32();
    Combine(OrGate, a, b, 32)
  }

  function Xor(a: Word, b: Word): Word {
    Pow2Of32();
    Combine(XorGate, a, b, 32)
  }

  function Not(a: Word): Word {
    0xffff_ffff - a
  }

  /** Every bit of a combination is the gate applied to the operands' bits. */
  lemma {:induction false} CombineBit(g: Gate, a: nat, b: nat, n: nat, k: nat)
    requires k < n
    ensures Bit(Combine(g, a, b, n), k) == g.Apply(Bit(a, k), Bit(b, k))
  {
    if k == 0 {
    } else {
      CombineBit(g, a / 2, b / 2, n - 1, k - 1);
    }
  }

  /** A value is determined by its bits. */
  lemma {:induction false} SameBits(a: nat, b: nat, n: nat)
    requires a < Pow2(n) && b < Pow2(n)
    requires forall k: nat | k < n :: Bit(a, k) == Bit(b, k)
    ensures a == b
  {
    if n == 0 {
    } else {
      forall k: nat | k < n - 1
        ensures Bit(a / 2, k) == Bit(b / 2, k)
      {
        assert Bit(a, k + 1) == Bit(b, k + 1);
      }
      SameBits(a / 2, b / 2, n - 1);
      assert Bit(a, 0) == Bit(b, 0);
    }
  }

  lemma {:induction false} ZeroHasNoBits(k: nat)
    ensures !Bit(0, k)
  {
    if k == 0 {
    } else {
      ZeroHasNoBits(k - 1);
    }
  }

  lemma {:induction false} Pow2Bit(c: nat, k: nat)
    ensures Bit(Pow2(c), k) == (k == c)
  {
    if c == 0 {
      if k > 0 { ZeroHasNoBits(k - 1); }
    } else if k > 0 {
      Pow2Bit(c - 1, k - 1);
    }
  }

  lemma {:induction false} ComplementBit(x: nat, n: nat, k: nat)
    requires x < Pow2(n) && k < n
    ensures Bit(Pow2(n) - 1 - x, k) == !Bit(x, k)
  {
    if k == 0 {
    } else {
      assert (Pow2(n) - 1 - x) / 2 == Pow2(n - 1) - 1 - x / 2;
      ComplementBit(x / 2, n - 1, k - 1);
    }
  }

  lemma NotBit(x: Word, k: nat)
    requires k < 32
    ensures Bit(Not(x), k) == !Bit(x, k)
  {
    Pow2Of32();
    ComplementBit(x, 32, k);
  }

  /** `a & ~b` is nonzero exactly when some bit is set in `a` and clear in `b`. */
  lemma MaskedNonzero(a: Word, b: Word)
    ensures And(a, Not(b)) != 0 <==> exists k: nat :: k < 32 && Bit(a, k) && !Bit(b, k)
  {
    var r := And(a, Not(b));
    forall k: nat | k < 32
      ensures Bit(r, k) == (Bit(a, k) && !Bit(b, k))
    {
      CombineBit(AndGate, a, Not(b), 32, k);
      NotBit(b, k);
    }
    forall k: nat
      ensures r == 0 ==> !Bit(r, k)
    {
      ZeroHasNoBits(k);
    }
    if forall k: nat | k < 32 :: !Bit(r, k) {
      Pow2Of32();
      forall k: nat | k < 32
        ensures Bit(r, k) == Bit(0, k)
      {
        ZeroHasNoBits(k);
      }
      SameBits(r, 0, 32);
    } else {
      var k: nat :| k < 32 && Bit(r, k);
      assert Bit(a, k) && !Bit(b, k);
      assert r != 0;
      assert exists k: nat :: k < 32 && Bit(a, k) && !Bit(b, k);
    }
  }

  /** Right shift, low bits and left shift, one bit at a time. */
  function Shr(x: nat, k: nat): nat
    decreases x, k
  {
    if k == 0 then x else Shr(x / 2, k - 1)
  }

  function Low(x: nat, k: nat): (r: nat)
    ensures r <= x
    decreases x, k
  {
    if k == 0 then 0 else 2 * Low(x / 2, k - 1) + x % 2
  }

  function Shl(x: nat, k: nat): nat
    decreases x, k
  {
    if k == 0 then x else 2 * Shl(x, k - 1)
  }

  /** Combining splits at any bit position. */
  lemma {:induction false} CombineSplit(g: Gate, a: nat, b: nat, k: nat, n: nat)
    requires k <= n
    ensures Combine(g, a, b, n)
         == Shl(Combine(g, Shr(a, k), Shr(b, k), n - k), k) + Combine(g, Low(a, k), Low(b, k), k)
  {
    hide Pow2;
    if k == 0 {
    } else {
      CombineSplit(g, a / 2, b / 2, k - 1, n - 1);
      assert Low(a, k) / 2 == Low(a / 2, k - 1) && Low(a, k) % 2 == a % 2;
      assert Low(b, k) / 2 == Low(b / 2, k - 1) && Low(b, k) % 2 == b % 2;
    }
  }

  lemma Pow2Step(k: nat)
    ensures Pow2(k) == if k == 0 then 1 else 2 * Pow2(k - 1)
  {
  }

  /** The and with the `len` ones starting at bit `lo`, shifted right by `lo`. */
  lemma {:induction false} AndFieldMask(v: nat, lo: nat, len: nat, n: nat)
    requires lo + len <= n
    ensures Shr(Combine(AndGate, v, Shl(Pow2(len) - 1, lo), n), lo) == Low(Shr(v, lo), len)
    decreases lo, len
  {
    hide Pow2;
    Pow2Step(len);
    if lo > 0 {
      AndFieldMask(v / 2, lo - 1, len, n - 1);
      assert Shl(Pow2(len) - 1, lo) / 2 == Shl(Pow2(len) - 1, lo - 1);
    } else if len == 0 {
      AndZeros(v, n);
    } else {
      AndFieldMask(v / 2, 0, len - 1, n - 1);
      assert (Pow2(len) - 1) / 2 == Pow2(len - 1) - 1;
    }
  }

  lemma {:induction false} AndZeros(a: nat, n: nat)
    ensures Combine(AndGate, a, 0, n) == 0
  {
    if n == 0 {
    } else {
      AndZeros(a / 2, n - 1);
    }
  }

  /** An or of a value with `k` low zero bits and a `k`-bit value is their sum. */
  lemma {:induction false} OrDisjoint(hi: nat, lo: nat, k: nat, n: nat)
    requires k <= n && lo < Pow2(k) && hi < Pow2(n - k)
    ensures Combine(OrGate, Shl(hi, k), lo, n) == Shl(hi, k) + lo
    decreases k, n
  {
    if k > 0 {
      OrDisjoint(hi, lo / 2, k - 1, n - 1);
    } else if n > 0 {
      OrDisjoint(hi / 2, 0, 0, n - 1);
    }
  }

  lemma {:induction false} ShrSum(x: nat, i: nat, j: nat)
    ensures Shr(x, i + j) == Shr(Shr(x, i), j)
    decreases i
  {
    if i == 0 {
    } else {
      ShrSum(x / 2, i - 1, j);
    }
  }

  lemma RemainderIs(v: nat, d: nat, low: nat)
    requires d > 0 && low < d && v == d * (v / d) + low
    ensures low == v % d
  {
  }

  lemma {:induction false} LowBound(x: nat, k: nat)
    ensures Low(x, k) < Pow2(k)
  {
    if k > 0 {
      LowBound(x / 2, k - 1);
    }
  }

  lemma {:induction false} ShlSum(x: nat, i: nat, j: nat)
    ensures Shl(x, i + j) == Shl(Shl(x, i), j)
    decreases j
  {
    if j == 0 {
    } else {
      ShlSum(x, i, j - 1);
    }
  }

  lemma {:induction false} Rebuild(x: nat, k: nat)
    ensures x == Shl(Shr(x, k), k) + Low(x, k)
    decreases k
  {
    if k == 0 {
    } else {
      Rebuild(x / 2, k - 1);
    }
  }

  /** `d` is the weight of bit `k`: shifting and masking by `k` bits is
      dividing by `d`. */
  ghost predicate IsWeight(k: nat, d: nat) {
    && d > 0
    && (forall x: nat :: Shr(x, k) == x / d && Shl(x, k) == d * x)
  }

  lemma WeightSum(i: nat, di: nat, j: nat, dj: nat, d: nat)
    requires IsWeight(i, di) && IsWeight(j, dj) && d == di * dj
    requires forall x: nat {:trigger Shr(x, i)} :: x / di / dj == x / d && dj * (di * x) == d * x
    ensures IsWeight(i + j, d)
  {
    forall x: nat
      ensures Shr(x, i + j) == x / d && Shl(x, i + j) == d * x
    {
      ShrSum(x, i, j);
      ShlSum(x, i, j);
      assert Shr(x, i) == x / di;
    }
  }

  lemma FieldWeights()
    ensures IsWeight(6, 64) && IsWeight(8, 0x100) && IsWeight(12, 0x1000) && IsWeight(14, 0x4000)
    ensures IsWeight(18, 0x4_0000) && IsWeight(24, 0x100_0000) && IsWeight(26, 0x400_0000)
  {
    forall x: nat
      ensures Shr(x, 2) == x / 4 && Shl(x, 2) == 4 * x
    {
      assert Shr(x, 2) == Shr(x / 2, 1) == Shr(x / 2 / 2, 0);
      assert Shl(x, 1) == 2 * Shl(x, 0);
    }
    WeightSum(2, 4, 2, 4, 16);
    WeightSum(4, 16, 2, 4, 64);
    WeightSum(4, 16, 4, 16, 0x100);
    WeightSum(8, 0x100, 4, 16, 0x1000);
    WeightSum(12, 0x1000, 2, 4, 0x4000);
    WeightSum(14, 0x4000, 4, 16, 0x4_0000);
    WeightSum(18, 0x4_0000, 6, 64, 0x100_0000);
    WeightSum(24, 0x100_0000, 2, 4, 0x400_0000);
  }

  /** Only the low `n` bits of the operands matter to an `n`-bit combination. */
  lemma {:induction false} CombineLow(g: Gate, a: nat, b: nat, n: nat)
    ensures Combine(g, Low(a, n), b, n) == Combine(g, a, b, n)
    decreases n
  {
    if n > 0 {
      assert Low(a, n) / 2 == Low(a / 2, n - 1) && Low(a, n) % 2 == a % 2;
      CombineLow(g, a / 2, b / 2, n - 1);
    }
  }

  lemma MulAtLeast(a: nat, d: nat)
    requires a >= 1
    ensures a * d >= d
  {
  }

  lemma MulDistributes(a: int, b: int, d: int)
    ensures (a - b) * d == a * d - b * d
  {
  }

  /** Quotient and remainder are unique. */
  lemma DivModUnique(x: int, d: int, q: int, r: int)
    requires d > 0 && 0 <= r < d && x == q * d + r
    ensures x / d == q && x % d == r
  {
    var q' := x / d;
    assert x == q' * d + x % d;
    MulDistributes(q', q, d);
    if q' > q {
      MulAtLeast(q' - q, d);
    } else if q > q' {
      MulDistributes(q, q', d);
      MulAtLeast(q - q', d);
    }
  }

  lemma NextBit(v: nat, d: nat)
    requires d > 0
    ensures v % (2 * d) == v % d + d * (v / d % 2)
    ensures v / d / 2 == v / (2 * d)
  {
    var q := v / d;
    var h, b := q / 2, q % 2;
    assert v == (2 * h + b) * d + v % d;
    assert (2 * h + b) * d == h * (2 * d) + d * b;
    DivModUnique(v, 2 * d, h, d * b + v % d);
  }

  /** Setting or clearing one line of a bit mask. */
  function SetLine(w: Word, channel: nat, raised: bool): Word
    requires channel < 32
  {
    if raised then Or(w, LineMask(channel)) else And(w, Not(LineMask(channel)))
  }

  function LineMask(channel: nat): Word
    requires channel < 32
  {
    Pow2Of32();
    Pow2Grows(channel, 32);
    Pow2(channel)
  }

  lemma {:induction false} Pow2Grows(i: nat, j: nat)
    requires i < j
    ensures Pow2(i) < Pow2(j)
  {
    if i + 1 < j {
      Pow2Grows(i, j - 1);
    }
  }

  lemma SetLineBit(w: Word, channel: nat, raised: bool, k: nat)
    requires channel < 32 && k < 32
    ensures Bit(SetLine(w, channel, raised), k) == if k == channel then raised else Bit(w, k)
  {
    var m := LineMask(channel);
    Pow2Bit(channel, k);
    NotBit(m, k);
    CombineBit(OrGate, w, m, 32, k);
    CombineBit(AndGate, w, Not(m), 32, k);
  }

  lemma {:induction false} OrCommutes(a: nat, b: nat, n: nat)
    ensures Combine(OrGate, a, b, n) == Combine(OrGate, b, a, n)
    decreases n
  {
    hide Pow2;
    if n > 0 {
      OrCommutes(a / 2, b / 2, n - 1);
    }
  }

  lemma {:induction false} ShlOne(k: nat)
    ensures Shl(1, k) == Pow2(k) && Shl(0, k) == 0
  {
    if k > 0 {
      ShlOne(k - 1);
    }
  }

  /** Accumulating one more bit, or one more field, by `|=`. */
  lemma OrField(ret: Word, hi: nat, k: nat, d: nat)
    requires k <= 32 && IsWeight(k, d) && d == Pow2(k) && ret < d && hi < Pow2(32 - k) && hi * d < 0x1_0000_0000
    ensures Or(ret, hi * d) == ret + hi * d
  {
    hide Combine, Pow2;
    assert Shl(hi, k) == d * hi;
    OrCommutes(ret, hi * d, 32);
    OrDisjoint(hi, ret, k, 32);
  }

  lemma OrBit(ret: Word, b: bool, k: nat)
    requires k < 32 && ret < Pow2(k)
    ensures Pow2(k) < 0x1_0000_0000
    ensures Or(ret, Weight(b, Pow2(k))) == ret + Weight(b, Pow2(k)) < 2 * Pow2(k)
  {
    hide Combine;
    Pow2Of32();
    Pow2Grows(k, 32);
    ShlOne(k);
    OrCommutes(ret, Weight(b, Pow2(k)), 32);
    Pow2Grows(0, 32 - k);
    OrDisjoint(if b then 1 else 0, ret, k, 32);
  }

  lemma BitWeights()
    ensures Pow2(0) == 1 && Pow2(1) == 2 && Pow2(2) == 4 && Pow2(3) == 8 && Pow2(4) == 16
    ensures Pow2(5) == 32 && Pow2(6) == 64 && Pow2(7) == 128 && Pow2(8) == 256 && Pow2(9) == 512
    ensures Pow2(28) == 0x1000_0000 && Pow2(29) == 0x2000_0000 && Pow2(30) == 0x4000_0000
  {
    assert Pow2(12) == 8 * Pow2(9);
    assert Pow2(20) == 256 * Pow2(12);
    assert Pow2(28) == 256 * Pow2(20);
  }
}
