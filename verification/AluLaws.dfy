/** What the arithmetic instructions compute, in terms of signed values,
    quotients and bits (exec.c:111-144, 269-299). */
module AluLaws {
  import opened Words
  import opened Exec
  import opened Decode

  lemma WrapShift(x: int, k: int)
    ensures Wrap(x + k * 0x1_0000_0000) == Wrap(x)
  {
    var q := x / 0x1_0000_0000;
    DivModUnique(x + k * 0x1_0000_0000, 0x1_0000_0000, q + k, x % 0x1_0000_0000);
  }

  lemma SignedWrap(x: int)
    requires -0x8000_0000 <= x < 0x8000_0000
    ensures Signed(Wrap(x)) == x
  {
  }

  /** A word and its signed value differ by a multiple of 2^32. */
  function Borrow(w: Word): int {
    if w < 0x8000_0000 then 0 else 1
  }

  lemma SignedSum(a: Word, b: Word)
    ensures Wrap(a + b) == Wrap(Signed(a) + Signed(b)) && Wrap(a - b) == Wrap(Signed(a) - Signed(b))
  {
    WrapShift(Signed(a) + Signed(b), Borrow(a) + Borrow(b));
    WrapShift(Signed(a) - Signed(b), Borrow(a) - Borrow(b));
    hide Wrap;
  }

  lemma SignedProduct(a: Word, b: Word)
    ensures Wrap(a * b) == Wrap(Signed(a) * Signed(b))
  {
    var sa, sb, ea, eb := Signed(a), Signed(b), Borrow(a), Borrow(b);
    assert a == sa + ea * 0x1_0000_0000 && b == sb + eb * 0x1_0000_0000;
    hide Wrap, Signed, Borrow;
    MulBorrow(sa, sb, ea, eb);
    WrapShift(sa * sb, ea * sb + eb * sa + ea * eb * 0x1_0000_0000);
  }

  lemma SubUndoesAdd(a: Word, b: Word)
    ensures Wrap(Wrap(a + b) - b) == a
  {
  }

  /** Addition, subtraction and multiplication are those of the signed values,
      modulo 2^32, and subtraction undoes addition. */
  lemma ModularArithmetic(a: Word, b: Word)
    ensures AluValue(AluAdd, a, b) == Ok(Wrap(Signed(a) + Signed(b)))
    ensures AluValue(AluSub, a, b) == Ok(Wrap(Signed(a) - Signed(b)))
    ensures AluValue(AluMul, a, b) == Ok(Wrap(Signed(a) * Signed(b)))
    ensures AluValue(AluSub, Wrap(a + b), b) == Ok(a)
  {
    hide Wrap, Signed;
    SignedSum(a, b);
    SignedProduct(a, b);
    SubUndoesAdd(a, b);
  }

  lemma MulBorrow(sa: int, sb: int, ea: int, eb: int)
    requires ea in {0, 1} && eb in {0, 1}
    ensures (sa + ea * 0x1_0000_0000) * (sb + eb * 0x1_0000_0000)
         == sa * sb + (ea * sb + eb * sa + ea * eb * 0x1_0000_0000) * 0x1_0000_0000
  {
  }

  function Quotient(x: int, y: int): int
    requires y != 0
  {
    Floor(Abs(x), Abs(y))
  }

  function Floor(n: nat, d: nat): int
    requires d > 0
  {
    n / d
  }

  lemma TruncOf(x: int, y: int)
    requires y != 0
    ensures TruncDiv(x, y) == (if (x < 0) == (y < 0) then Quotient(x, y) else -Quotient(x, y))
  {
  }

  lemma FloorRemainder(n: nat, d: nat)
    requires d > 0
    ensures 0 <= n - Floor(n, d) * d < d
  {
    assert n == n / d * d + n % d;
  }

  lemma QuotientParts(x: int, y: int)
    requires y != 0
    ensures 0 <= Abs(x) - Quotient(x, y) * Abs(y) < Abs(y)
  {
    FloorRemainder(Abs(x), Abs(y));
    hide Floor;
  }

  lemma QuotientSize(x: int, y: int)
    requires y != 0
    ensures 0 <= Quotient(x, y) <= Abs(x) && (Abs(y) > 1 && x != 0 ==> Quotient(x, y) < Abs(x))
  {
    hide Floor;
    FloorRemainder(Abs(x), Abs(y));
    QuotientBound(Abs(x), Abs(y), Quotient(x, y));
  }

  lemma TruncDivLaw(x: int, y: int)
    requires y != 0
    ensures var t := TruncDiv(x, y);
            && Abs(x - t * y) < Abs(y) && (x - t * y != 0 ==> (x - t * y < 0) == (x < 0))
            && Abs(t) <= Abs(x) && (Abs(y) > 1 && x != 0 ==> Abs(t) < Abs(x))
  {
    hide TruncDiv, Quotient;
    TruncOf(x, y);
    QuotientSize(x, y);
    var q, t := Quotient(x, y), TruncDiv(x, y);
    assert Abs(t) == q;
    hide Abs;
    RemainderLaw(x, y);
  }

  lemma RemainderLaw(x: int, y: int)
    requires y != 0
    ensures var t := TruncDiv(x, y);
            Abs(x - t * y) < Abs(y) && (x - t * y != 0 ==> (x - t * y < 0) == (x < 0))
  {
    hide TruncDiv, Quotient, Abs;
    TruncOf(x, y);
    QuotientParts(x, y);
    SignOfProduct(x, y, Quotient(x, y), TruncDiv(x, y));
    RemainderSign(x, y, Quotient(x, y) * Abs(y), TruncDiv(x, y) * y);
  }

  lemma SignOfProduct(x: int, y: int, q: int, t: int)
    requires y != 0 && t == if (x < 0) == (y < 0) then q else -q
    ensures t * y == if x < 0 then -(q * Abs(y)) else q * Abs(y)
  {
    assert (-q) * y == -(q * y) == q * (-y);
  }

  lemma RemainderSign(x: int, y: int, p: int, ty: int)
    requires 0 <= Abs(x) - p < Abs(y) && ty == if x < 0 then -p else p
    ensures Abs(x - ty) < Abs(y) && (x - ty != 0 ==> (x - ty < 0) == (x < 0))
  {
  }

  lemma QuotientBound(n: nat, d: nat, q: int)
    requires d > 0 && 0 <= n - q * d < d
    ensures 0 <= q <= n && (d > 1 && n > 0 ==> q < n)
  {
    if q > 0 {
      MulAtLeast(q, d);
      MulAtLeast(d, q);
      assert d * q == q * d;
      if d > 1 {
        MulAtLeast(d - 1, q);
        assert (d - 1) * q == q * d - q;
      }
    }
  }

  /** Division truncates and the remainder takes the sign of the dividend; the
      two are undefined exactly for a zero divisor and for -2^31 / -1. */
  lemma DivisionLaw(a: Word, b: Word)
    ensures AluValue(AluDiv, a, b).Ok? <==> b != 0 && !(Signed(a) == -0x8000_0000 && Signed(b) == -1)
    ensures AluValue(AluMod, a, b).Ok? <==> AluValue(AluDiv, a, b).Ok?
    ensures AluValue(AluDiv, a, b).Ok? ==>
              var q, r := Signed(AluValue(AluDiv, a, b).value), Signed(AluValue(AluMod, a, b).value);
              && Signed(a) == q * Signed(b) + r
              && Abs(r) < Abs(Signed(b)) && (r != 0 ==> (r < 0) == (Signed(a) < 0))
  {
    if AluValue(AluDiv, a, b).Ok? {
      var x, y := Signed(a), Signed(b);
      TruncDivLaw(x, y);
      var t := TruncDiv(x, y);
      assert -0x8000_0000 <= t < 0x8000_0000 by {
        if Abs(y) == 1 {
          UnitDivisor(x, y);
        }
      }
      SignedWrap(t);
      SignedWrap(x - t * y);
      hide TruncDiv;
    }
  }

  lemma UnitDivisor(x: int, y: int)
    requires Abs(y) == 1
    ensures TruncDiv(x, y) == if y == 1 then x else -x
  {
  }

  // ---------- shifts, bit by bit ----------

  lemma {:induction false} ShrIsQuotient(x: nat, k: nat)
    ensures Shr(x, k) == x / Pow2(k)
  {
    if k > 0 {
      ShrIsQuotient(x / 2, k - 1);
      HalfFirst(x, Pow2(k - 1));
    }
  }

  lemma HalfFirst(x: nat, p: nat)
    requires p > 0
    ensures x / 2 / p == x / (2 * p)
  {
    var h := x / 2;
    var q, r := h / p, h % p;
    assert h == q * p + r;
    assert x == q * (2 * p) + (2 * r + x % 2);
    DivModUnique(x, 2 * p, q, 2 * r + x % 2);
  }

  lemma {:induction false} ShrBit(x: nat, k: nat, i: nat)
    ensures Bit(Shr(x, k), i) == Bit(x, i + k)
    decreases k
  {
    if k > 0 {
      ShrBit(x / 2, k - 1, i);
    }
  }

  lemma {:induction false} HighBitsClear(x: nat, n: nat, i: nat)
    requires x < Pow2(n) && i >= n
    ensures !Bit(x, i)
    decreases n
  {
    if n == 0 {
      ZeroHasNoBits(i);
    } else {
      HighBitsClear(x / 2, n - 1, i - 1);
    }
  }

  /** A logical right shift moves bit i + k to bit i and clears the rest. */
  lemma LogicalShiftRight(a: Word, k: Word, i: nat)
    requires k < 32 && i < 32
    ensures AluValue(AluLsr, a, k).Ok?
    ensures Bit(AluValue(AluLsr, a, k).value, i) == (i + k < 32 && Bit(a, i + k))
  {
    hide Bit, Shr;
    ShrIsQuotient(a, k);
    ShrBit(a, k, i);
    Pow2Of32();
    if i + k >= 32 {
      HighBitsClear(a, 32, i + k);
    }
    QuotientSmall(a, Pow2(k));
    hide Pow2;
  }

  lemma QuotientSmall(a: Word, p: nat)
    requires p > 0
    ensures 0 <= a / p <= a && Wrap(a / p) == a / p
  {
    assert a == a / p * p + a % p;
    QuotientBound(a, p, a / p);
  }

  /** An arithmetic right shift is the floor of the signed value over 2^k. */
  lemma ArithmeticShiftRight(a: Word, k: Word)
    requires k < 32
    ensures AluValue(AluAsr, a, k).Ok?
    ensures var s := Signed(AluValue(AluAsr, a, k).value);
            s * Pow2(k) <= Signed(a) < (s + 1) * Pow2(k)
  {
    var x, p := Signed(a), Pow2(k);
    hide Pow2;
    FloorParts(x, p);
    FloorBound(x, p);
    SignedWrap(x / p);
    hide Signed, Wrap;
  }

  lemma FloorParts(x: int, p: nat)
    requires p > 0
    ensures x / p * p <= x < (x / p + 1) * p
  {
    var q := x / p;
    assert x == q * p + x % p;
    assert (q + 1) * p == q * p + p;
  }

  lemma FloorBound(x: int, p: nat)
    requires p > 0 && -0x8000_0000 <= x < 0x8000_0000
    ensures -0x8000_0000 <= x / p < 0x8000_0000
  {
    var q := x / p;
    assert x == q * p + x % p;
    if q > 0 {
      MulAtLeast(q, p);
      MulAtLeast(p, q);
      assert p * q == q * p;
    } else if q < 0 {
      MulAtLeast(p, -q);
      assert p * (-q) == -(q * p);
      NegativeFloor(x, p, q);
    }
  }

  lemma NegativeFloor(x: int, p: nat, q: int)
    requires p > 0 && q < 0 && x < (q + 1) * p
    ensures x < 0 && q >= x
  {
    assert (q + 1) * p == q * p + p;
    if q < -1 {
      MulAtLeast(-q - 1, p);
      assert (-q - 1) * p == -(q * p) - p;
      MulAtLeast(p, -q - 1);
      assert p * (-q - 1) == (-q - 1) * p;
    } else {
      assert q * p == -(p as int);
    }
  }

  /** A left shift, before it is cut to 32 bits, is multiplication by 2^k. */
  lemma {:induction false} ShlIsProduct(x: nat, k: nat)
    ensures Shl(x, k) == x * Pow2(k)
    decreases k
  {
    if k > 0 {
      ShlIsProduct(x, k - 1);
    }
  }

  lemma {:induction false} ShlBit(x: nat, k: nat, i: nat)
    ensures Bit(Shl(x, k), i) == (i >= k && Bit(x, i - k))
    decreases k, i
  {
    if k > 0 && i > 0 {
      ShlBit(x, k - 1, i - 1);
    }
  }

  lemma {:induction false} LowBit(x: nat, n: nat, i: nat)
    requires i < n
    ensures Bit(Low(x, n), i) == Bit(x, i)
    decreases n
  {
    if i > 0 {
      assert Low(x, n) / 2 == Low(x / 2, n - 1);
      LowBit(x / 2, n - 1, i - 1);
    }
  }

  lemma LowIsRemainder(x: nat, n: nat)
    ensures Low(x, n) == x % Pow2(n)
  {
    Rebuild(x, n);
    LowBound(x, n);
    ShlIsProduct(Shr(x, n), n);
    DivModUnique(x, Pow2(n), Shr(x, n), Low(x, n));
  }

  /** A left shift moves bit i to bit i + k and clears the bits below k. */
  lemma ShiftLeft(a: Word, k: Word, i: nat)
    requires k < 32 && i < 32
    ensures AluValue(AluLsl, a, k).Ok?
    ensures Bit(AluValue(AluLsl, a, k).value, i) == (i >= k && Bit(a, i - k))
  {
    hide Bit, Low;
    ShlIsProduct(a, k);
    ShlBit(a, k, i);
    WrapIsLow(Shl(a, k));
    LowBit(Shl(a, k), 32, i);
  }

  lemma WrapIsLow(x: nat)
    ensures Wrap(x) == Low(x, 32)
  {
    Rebuild(x, 32);
    LowBound(x, 32);
    Pow2Of32();
    ShlIsProduct(Shr(x, 32), 32);
    DivModUnique(x, 0x1_0000_0000, Shr(x, 32), Low(x, 32));
  }

  /** The logical operations work bit by bit. */
  lemma BitwiseOperations(a: Word, b: Word, i: nat)
    requires i < 32
    ensures AluValue(AluAnd, a, b).Ok? && AluValue(AluOr, a, b).Ok? && AluValue(AluXor, a, b).Ok?
    ensures Bit(AluValue(AluAnd, a, b).value, i) == (Bit(a, i) && Bit(b, i))
    ensures Bit(AluValue(AluOr, a, b).value, i) == (Bit(a, i) || Bit(b, i))
    ensures Bit(AluValue(AluXor, a, b).value, i) == (Bit(a, i) != Bit(b, i))
  {
    CombineBit(AndGate, a, b, 32, i);
    CombineBit(OrGate, a, b, 32, i);
    CombineBit(XorGate, a, b, 32, i);
    hide Combine, Bit;
  }

  /** Each comparison with equality is a total order, and the signed one is
      the unsigned one after moving both operands by 2^31. */
  lemma ComparisonLaws(a: Word, b: Word, d: Word, attr: nat)
    requires attr in {ATTR_CMPGT, ATTR_CMPGTU}
    ensures Compare(ATTR_CMPEQ, a, b) <==> !Compare(attr, a, b) && !Compare(attr, b, a)
    ensures !(Compare(attr, a, b) && Compare(attr, b, a))
    ensures Compare(attr, a, b) && Compare(attr, b, d) ==> Compare(attr, a, d)
    ensures Compare(ATTR_CMPGT, a, b) <==> Compare(ATTR_CMPGTU, Wrap(a + 0x8000_0000), Wrap(b + 0x8000_0000))
  {
  }
}
